/**
 Bit fields of machine words of any width. A word is its bits, the lowest first; its value is
 the number they stand for.
 */
module BitFields {
  type BitWord = seq<bool>

  function Pow2(n: nat): (r: nat)
    ensures r > 0
  {
    if n == 0 then 1 else 2 * Pow2(n - 1)
  }

  function ValueOf(v: BitWord): nat {
    if v == [] then 0 else (if v[0] then 1 else 0) + 2 * ValueOf(v[1..])
  }

  // The operators of the machine.

  function Zeros(n: nat): (r: BitWord)
    ensures |r| == n && forall i :: 0 <= i < n ==> !r[i]
  {
    seq(n, _ => false)
  }

  function And(a: BitWord, b: BitWord): (r: BitWord)
    requires |a| == |b|
    ensures |r| == |a| && forall i :: 0 <= i < |a| ==> r[i] == (a[i] && b[i])
  {
    seq(|a|, i requires 0 <= i < |a| == |b| => a[i] && b[i])
  }

  function Or(a: BitWord, b: BitWord): (r: BitWord)
    requires |a| == |b|
    ensures |r| == |a| && forall i :: 0 <= i < |a| ==> r[i] == (a[i] || b[i])
  {
    seq(|a|, i requires 0 <= i < |a| == |b| => a[i] || b[i])
  }

  function Not(a: BitWord): (r: BitWord)
    ensures |r| == |a| && forall i :: 0 <= i < |a| ==> r[i] == !a[i]
  {
    seq(|a|, i requires 0 <= i < |a| => !a[i])
  }

  function ShiftLeft(a: BitWord, k: nat): (r: BitWord)
    requires k <= |a|
    ensures |r| == |a|
  {
    Zeros(k) + a[..|a| - k]
  }

  function ShiftRight(a: BitWord, k: nat): (r: BitWord)
    requires k <= |a|
    ensures |r| == |a|
  {
    a[k..] + Zeros(k)
  }

  /** `(1 << count) - 1` in a word of width `n`. */
  function LowOnes(n: nat, count: nat): (r: BitWord)
    requires count <= n
    ensures |r| == n && forall i :: 0 <= i < n ==> r[i] == (i < count)
  {
    seq(n, i => i < count)
  }

  lemma {:induction false} LowOnesValue(n: nat, count: nat)
    requires count <= n
    ensures ValueOf(LowOnes(n, count)) == Pow2(count) - 1
  {
    if n > 0 {
      var c := if count == 0 then 0 else count - 1;
      assert LowOnes(n, count)[1..] == LowOnes(n - 1, c);
      LowOnesValue(n - 1, c);
    }
  }

  // The functions on fields.

  function Mask(n: nat, begin: nat, count: nat): (r: BitWord)
    requires begin + count <= n
    ensures |r| == n
  {
    ShiftLeft(LowOnes(n, count), begin)
  }

  function GetBits(v: BitWord, begin: nat, count: nat): (r: BitWord)
    requires begin + count <= |v|
    ensures |r| == |v|
  {
    if count < |v| then ShiftRight(And(v, Mask(|v|, begin, count)), begin) else v
  }

  function ResetBits(v: BitWord, begin: nat, count: nat): (r: BitWord)
    requires begin + count <= |v|
    ensures |r| == |v|
  {
    if count < |v| then And(v, Not(Mask(|v|, begin, count))) else Zeros(|v|)
  }

  function SetBits(v: BitWord, bits: BitWord, begin: nat, count: nat): (r: BitWord)
    requires begin + count <= |v| == |bits|
    ensures |r| == |v|
  {
    if count < |v| then Or(ResetBits(v, begin, count), And(ShiftLeft(bits, begin), Mask(|v|, begin, count))) else bits
  }

  function SetBit(v: BitWord, idx: nat): (r: BitWord)
    requires idx < |v|
    ensures |r| == |v|
  {
    Or(v, Mask(|v|, idx, 1))
  }

  function ResetBit(v: BitWord, idx: nat): (r: BitWord)
    requires idx < |v|
    ensures |r| == |v|
  {
    And(v, Not(Mask(|v|, idx, 1)))
  }

  // What they do.

  lemma BitIsReplaced(v: BitWord, idx: nat)
    requires idx < |v|
    ensures SetBit(v, idx) == v[idx := true] && ResetBit(v, idx) == v[idx := false]
  {
  }

  /** `GetBits` is the field, moved down. */
  lemma GetBitsIsField(v: BitWord, begin: nat, count: nat)
    requires begin + count <= |v|
    ensures GetBits(v, begin, count) == v[begin..begin + count] + Zeros(|v| - count)
  {
  }

  /** `SetBits` replaces the field and nothing else. */
  lemma SetBitsReplaces(v: BitWord, bits: BitWord, begin: nat, count: nat)
    requires begin + count <= |v| == |bits|
    ensures SetBits(v, bits, begin, count) == v[..begin] + bits[..count] + v[begin + count..]
  {
  }

  lemma ResetBitsClears(v: BitWord, begin: nat, count: nat)
    requires begin + count <= |v|
    ensures ResetBits(v, begin, count) == v[..begin] + Zeros(count) + v[begin + count..]
  {
    var (n, w) := (|v|, v[..begin] + Zeros(count) + v[begin + count..]);
    assert |w| == n;
    if count < n {
      var mask := Mask(n, begin, count);
      forall i | 0 <= i < n ensures mask[i] == (begin <= i < begin + count) {
      }
      hide Mask;
      forall i | 0 <= i < n ensures ResetBits(v, begin, count)[i] == w[i] {
      }
    }
  }

  /** A field that has been set is read back, and fields beside it are as before. */
  lemma GetAfterSet(v: BitWord, bits: BitWord, begin: nat, count: nat, b: nat, c: nat)
    requires begin + count <= |v| == |bits| && b + c <= |v|
    ensures GetBits(SetBits(v, bits, begin, count), begin, count) == GetBits(bits, 0, count)
    ensures b + c <= begin || begin + count <= b ==> GetBits(SetBits(v, bits, begin, count), b, c) == GetBits(v, b, c)
  {
    var w := SetBits(v, bits, begin, count);
    SetBitsReplaces(v, bits, begin, count);
    GetBitsIsField(w, begin, count);
    GetBitsIsField(bits, 0, count);
    GetBitsIsField(w, b, c);
    GetBitsIsField(v, b, c);
    hide GetBits, SetBits;
    if b + c <= begin || begin + count <= b {
      assert w[b..b + c] == v[b..b + c];
    }
  }

  // Fields as quotients and remainders.

  lemma {:induction false} ValueBelow(v: BitWord)
    ensures ValueOf(v) < Pow2(|v|)
  {
    if v != [] {
      ValueBelow(v[1..]);
    }
  }

  lemma Doubled(p: nat, q: nat)
    ensures 2 * (p * q) == (2 * p) * q
  {
  }

  lemma ValueStep(a: BitWord)
    requires a != []
    ensures ValueOf(a) == (if a[0] then 1 else 0) + 2 * ValueOf(a[1..])
  {
  }

  lemma {:induction false} ValueOfSum(a: BitWord, b: BitWord)
    ensures ValueOf(a + b) == ValueOf(a) + Pow2(|a|) * ValueOf(b)
  {
    if a == [] {
      assert a + b == b;
    } else {
      assert (a + b)[1..] == a[1..] + b && (a + b)[0] == a[0];
      ValueOfSum(a[1..], b);
      ValueStep(a);
      ValueStep(a + b);
      assert Pow2(|a|) == 2 * Pow2(|a| - 1);
      hide ValueOf, Pow2;
      Doubled(Pow2(|a| - 1), ValueOf(b));
    }
  }

  lemma {:induction false} ValueOfZeros(n: nat)
    ensures ValueOf(Zeros(n)) == 0
  {
    if n > 0 {
      assert Zeros(n)[1..] == Zeros(n - 1);
      ValueOfZeros(n - 1);
    }
  }

  lemma Split(lo: nat, hi: nat, p: nat)
    requires lo < p
    ensures (lo + p * hi) / p == hi && (lo + p * hi) % p == lo
  {
    var s := lo + p * hi;
    var q := s / p;
    assert q < hi ==> p * (q + 1) <= p * hi;
    assert q > hi ==> p * q >= p * (hi + 1);
  }

  /** The low bits of a word are a remainder, the high bits a quotient. */
  lemma HalvesOf(v: BitWord, k: nat)
    requires k <= |v|
    ensures ValueOf(v[k..]) == ValueOf(v) / Pow2(k) && ValueOf(v[..k]) == ValueOf(v) % Pow2(k)
  {
    hide ValueOf, Pow2;
    assert v == v[..k] + v[k..];
    ValueOfSum(v[..k], v[k..]);
    ValueBelow(v[..k]);
    Split(ValueOf(v[..k]), ValueOf(v[k..]), Pow2(k));
  }

  /** The value of a field. */
  lemma GetBitsValue(v: BitWord, begin: nat, count: nat)
    requires begin + count <= |v|
    ensures ValueOf(GetBits(v, begin, count)) == ValueOf(v) / Pow2(begin) % Pow2(count)
  {
    hide ValueOf, Pow2;
    GetBitsIsField(v, begin, count);
    hide GetBits;
    ValueOfSum(v[begin..begin + count], Zeros(|v| - count));
    ValueOfZeros(|v| - count);
    assert Pow2(count) * 0 == 0;
    HalvesOf(v, begin);
    HalvesOf(v[begin..], count);
    assert v[begin..][..count] == v[begin..begin + count];
  }

  /** The value of a word with a field replaced. */
  lemma SetBitsValue(v: BitWord, bits: BitWord, begin: nat, count: nat)
    requires begin + count <= |v| == |bits|
    ensures ValueOf(SetBits(v, bits, begin, count)) ==
      ValueOf(v) % Pow2(begin)
      + Pow2(begin) * (ValueOf(bits) % Pow2(count) + Pow2(count) * (ValueOf(v) / Pow2(begin + count)))
  {
    hide ValueOf, Pow2;
    SetBitsReplaces(v, bits, begin, count);
    hide SetBits;
    var (low, mid, high) := (v[..begin], bits[..count], v[begin + count..]);
    assert low + mid + high == low + (mid + high);
    ValueOfSum(low, mid + high);
    ValueOfSum(mid, high);
    HalvesOf(v, begin);
    HalvesOf(bits, count);
    HalvesOf(v, begin + count);
  }
}

/** The page entries of the paging model are the fields that the code sets with these functions. */
module PageEntryBits {
  import opened BitFields
  import opened Words
  import opened PageTables

  lemma Powers()
    ensures Pow2(0) == 1 && Pow2(1) == 2 && Pow2(2) == 4 && Pow2(3) == 8
    ensures Pow2(12) == PAGE_SIZE && Pow2(20) == FRAMES && Pow2(32) == WORD_LIMIT
  {
    assert Pow2(4) == 16 && Pow2(8) == 256 && Pow2(16) == 0x1_0000;
  }

  /** Bit `i` of a word, and the word with another bit there. */
  lemma BitValue(v: BitWord, i: nat, b: bool)
    requires i < |v|
    ensures v[i] <==> ValueOf(v) / Pow2(i) % 2 == 1
    ensures ValueOf(v[i := b]) % Pow2(i) == ValueOf(v) % Pow2(i)
    ensures ValueOf(v[i := b]) / Pow2(i + 1) == ValueOf(v) / Pow2(i + 1)
  {
    HalvesOf(v, i);
    HalvesOf(v[i..], 1);
    HalvesOf(v, i + 1);
    HalvesOf(v[i := b], i);
    HalvesOf(v[i := b], i + 1);
    assert v[i := b][..i] == v[..i] && v[i := b][i + 1..] == v[i + 1..];
    assert v[i..][..1] == [v[i]];
    Powers();
    assert ValueOf([v[i]]) == if v[i] then 1 else 0;
  }

  /** The fields of an entry. */
  lemma EntryFields(v: BitWord)
    requires |v| == 32
    ensures ValueOf(v) < WORD_LIMIT
    ensures IsPresent(ValueOf(v)) <==> v[0]
    ensures IsWritable(ValueOf(v)) <==> v[1]
    ensures IsSupervisor(ValueOf(v)) <==> !v[2]
    ensures FrameOf(ValueOf(v)) == ValueOf(GetBits(v, 12, 20))
  {
    Powers();
    hide ValueOf, Pow2, GetBits;
    ValueBelow(v);
    BitValue(v, 0, true);
    BitValue(v, 1, true);
    BitValue(v, 2, true);
    GetBitsValue(v, 12, 20);
    var e: Word := ValueOf(v);
    assert e / 1 == e && e / PAGE_SIZE < FRAMES;
    WholeField(e / PAGE_SIZE, FRAMES);
  }

  lemma WholeField(n: nat, p: nat)
    requires n < p
    ensures n % p == n
  {
  }

  /** Setting the address of an entry to that of a page. */
  lemma AddressSet(v: BitWord, address: BitWord)
    requires |v| == |address| == 32
    ensures ValueOf(v) < WORD_LIMIT && ValueOf(address) < WORD_LIMIT
    ensures ValueOf(SetBits(v, GetBits(address, 12, 20), 12, 20)) ==
      SetAddress(ValueOf(v), ValueOf(address) / PAGE_SIZE)
  {
    Powers();
    hide ValueOf, Pow2, GetBits, SetBits;
    ValueBelow(v);
    ValueBelow(address);
    GetBitsValue(address, 12, 20);
    SetBitsValue(v, GetBits(address, 12, 20), 12, 20);
    var e: Word, a: Word := ValueOf(v), ValueOf(address);
    assert e / Pow2(32) == 0 && a / PAGE_SIZE < FRAMES;
    WholeField(a / PAGE_SIZE, FRAMES);
    hide *;
  }

  /** Setting or resetting the flags of an entry. */
  lemma FlagsSet(v: BitWord, b: bool)
    requires |v| == 32
    ensures ValueOf(v) < WORD_LIMIT
    ensures ValueOf(if b then SetBit(v, 0) else ResetBit(v, 0)) == SetPresent(ValueOf(v), b)
    ensures ValueOf(if b then SetBit(v, 1) else ResetBit(v, 1)) == SetWritable(ValueOf(v), b)
    ensures ValueOf(if b then ResetBit(v, 2) else SetBit(v, 2)) == SetSupervisor(ValueOf(v), b)
  {
    ValueBelow(v);
    Powers();
    FlagSet(v, 0, b);
    FlagSet(v, 1, b);
    FlagSet(v, 2, !b);
    BitIsReplaced(v, 0);
    BitIsReplaced(v, 1);
    BitIsReplaced(v, 2);
    hide ValueOf, Pow2, SetBit, ResetBit;
  }

  lemma FlagSet(v: BitWord, i: nat, b: bool)
    requires i < |v|
    ensures ValueOf(v[i := b]) ==
      ValueOf(v) % Pow2(i) + Pow2(i) * ((if b then 1 else 0) + 2 * (ValueOf(v) / Pow2(i + 1)))
  {
    var (low, high) := (v[..i], v[i + 1..]);
    assert v[i := b] == low + ([b] + high);
    ValueOfSum(low, [b] + high);
    assert ([b] + high)[1..] == high;
    assert ValueOf([b] + high) == (if b then 1 else 0) + 2 * ValueOf(high);
    HalvesOf(v, i);
    HalvesOf(v, i + 1);
  }
}
