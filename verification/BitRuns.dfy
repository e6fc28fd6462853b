/**
 The meaning of a bitmap: a sequence of flags in which `true` marks an allocated slot.
 The class `Bitmap` is proved to implement these functions on its byte buffer; the
 address pools, the heap and the file system are specified with them.
 */
module BitRuns {
  import opened Wrappers

  type Bits = seq<bool>

  /** Whether all of the slots `begin`, ..., `begin + count - 1` exist and are free. */
  predicate IsFreeRun(bits: Bits, begin: nat, count: nat) {
    begin + count <= |bits| && forall k :: begin <= k < begin + count ==> !bits[k]
  }

  /** Whether all of the slots `begin`, ..., `begin + count - 1` exist and are allocated. */
  predicate IsUsedRun(bits: Bits, begin: nat, count: nat) {
    begin + count <= |bits| && forall k :: begin <= k < begin + count ==> bits[k]
  }

  /** `bits` with the slots `begin`, ..., `begin + count - 1` set to `val`. */
  function Mark(bits: Bits, begin: nat, count: nat, val: bool): (r: Bits)
    requires begin + count <= |bits|
    ensures |r| == |bits|
    ensures forall k :: 0 <= k < |bits| ==> r[k] == if begin <= k < begin + count then val else bits[k]
  {
    bits[..begin] + seq(count, _ => val) + bits[begin + count..]
  }

  /** What an allocation promises: the leftmost free run, or `None` exactly when there is none. */
  ghost predicate IsLeftmostRun(bits: Bits, count: nat, r: Option<nat>) {
    match r
    case Some(begin) =>
      IsFreeRun(bits, begin, count) && forall b: nat :: b < begin ==> !IsFreeRun(bits, b, count)
    case None => forall b: nat :: !IsFreeRun(bits, b, count)
  }

  /** The leftmost free run at or after `from`. */
  function FindRunFrom(bits: Bits, count: nat, from: nat): Option<nat>
    decreases |bits| - from
  {
    if from + count > |bits| || from >= |bits| then None
    else if IsFreeRun(bits, from, count) then Some(from)
    else FindRunFrom(bits, count, from + 1)
  }

  /** The leftmost free run of `count` slots. */
  function FindRun(bits: Bits, count: nat): Option<nat> {
    FindRunFrom(bits, count, 0)
  }

  lemma {:induction false} FindRunFromIsLeftmost(bits: Bits, count: nat, from: nat)
    requires count > 0
    requires forall b: nat :: b < from ==> !IsFreeRun(bits, b, count)
    ensures IsLeftmostRun(bits, count, FindRunFrom(bits, count, from))
    decreases |bits| - from
  {
    if from + count > |bits| || from >= |bits| {
    } else if IsFreeRun(bits, from, count) {
    } else {
      FindRunFromIsLeftmost(bits, count, from + 1);
    }
  }

  /** The recursive search and the declarative description agree, in both directions. */
  lemma FindRunCharacterised(bits: Bits, count: nat, r: Option<nat>)
    requires count > 0
    ensures IsLeftmostRun(bits, count, r) <==> r == FindRun(bits, count)
  {
    FindRunFromIsLeftmost(bits, count, 0);
  }

  lemma NoRunInAllocated(bits: Bits, n: nat, count: nat)
    requires count > 0 && n <= |bits|
    requires forall k :: 0 <= k < n ==> bits[k]
    ensures forall b: nat :: b < n ==> !IsFreeRun(bits, b, count)
    ensures n == |bits| ==> forall b: nat :: !IsFreeRun(bits, b, count)
  {
    forall b: nat | b < n ensures !IsFreeRun(bits, b, count) {
      assert b < b + count && bits[b];
    }
  }

  lemma NoRunAcross(bits: Bits, lo: nat, i: nat, count: nat)
    requires lo <= i < lo + count && i < |bits| && bits[i]
    ensures forall b: nat :: lo <= b <= i ==> !IsFreeRun(bits, b, count)
  {
    forall b: nat | lo <= b <= i ensures !IsFreeRun(bits, b, count) {
      assert b <= i < b + count;
    }
  }

  /** The number of free slots. */
  function CountFree(bits: Bits): (n: nat)
    ensures n <= |bits|
  {
    if bits == [] then 0 else (if bits[0] then 0 else 1) + CountFree(bits[1..])
  }

  lemma {:induction false} CountFreeSplit(a: Bits, b: Bits)
    ensures CountFree(a + b) == CountFree(a) + CountFree(b)
  {
    if a == [] {
      assert a + b == b;
    } else {
      assert (a + b)[1..] == a[1..] + b;
      CountFreeSplit(a[1..], b);
    }
  }

  lemma {:induction false} CountFreeUniform(bits: Bits, val: bool)
    requires forall k :: 0 <= k < |bits| ==> bits[k] == val
    ensures CountFree(bits) == if val then 0 else |bits|
  {
    if bits != [] {
      CountFreeUniform(bits[1..], val);
    }
  }

  lemma CountFreeSlices(bits: Bits, begin: nat, count: nat)
    requires begin + count <= |bits|
    ensures CountFree(bits)
         == CountFree(bits[..begin]) + CountFree(bits[begin..begin + count]) + CountFree(bits[begin + count..])
  {
    hide CountFree;
    assert bits == bits[..begin] + bits[begin..];
    assert bits[begin..] == bits[begin..begin + count] + bits[begin + count..];
    CountFreeSplit(bits[..begin], bits[begin..]);
    CountFreeSplit(bits[begin..begin + count], bits[begin + count..]);
  }

  /** Marking a uniform run changes the number of free slots by exactly the run's length. */
  lemma CountFreeMark(bits: Bits, begin: nat, count: nat, val: bool)
    requires begin + count <= |bits|
    requires forall k :: begin <= k < begin + count ==> bits[k] == !val
    ensures val ==> CountFree(Mark(bits, begin, count, val)) == CountFree(bits) - count
    ensures !val ==> CountFree(Mark(bits, begin, count, val)) == CountFree(bits) + count
  {
    hide Mark, CountFree;
    var marked := Mark(bits, begin, count, val);
    CountFreeSlices(bits, begin, count);
    CountFreeSlices(marked, begin, count);
    assert marked[..begin] == bits[..begin] && marked[begin + count..] == bits[begin + count..];
    CountFreeUniform(bits[begin..begin + count], !val);
    CountFreeUniform(marked[begin..begin + count], val);
  }

  /** Freeing an allocated run restores the bitmap it was taken from. */
  lemma MarkUndo(bits: Bits, begin: nat, count: nat)
    requires IsFreeRun(bits, begin, count)
    ensures Mark(Mark(bits, begin, count, true), begin, count, false) == bits
  {
  }

  /** A single slot is available exactly when some slot is free. */
  lemma {:induction false} FindOne(bits: Bits)
    ensures FindRun(bits, 1).Some? <==> CountFree(bits) > 0
    ensures FindRun(bits, 1).Some? ==> FindRun(bits, 1).value < |bits| && !bits[FindRun(bits, 1).value]
  {
    var f := FindRun(bits, 1);
    FindRunCharacterised(bits, 1, f);
    if f.Some? {
      CountFreeMark(bits, f.value, 1, true);
    } else {
      forall k | 0 <= k < |bits| ensures bits[k] {
        assert !IsFreeRun(bits, k, 1);
      }
      CountFreeUniform(bits, true);
    }
  }
}
