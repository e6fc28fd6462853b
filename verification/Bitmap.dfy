/** Bit operations on a byte, as `kernel/util/bit.h` defines them for `uint8_t`. */
module ByteBits {
  const BYTE_LEN := 8
  const FULL_BYTE: bv8 := 0xFF

  /** `1 << idx`, tabulated (`MaskIsShift`). */
  function Mask(idx: nat): bv8
    requires idx < BYTE_LEN
  {
    if idx == 0 then 1 else if idx == 1 then 2 else if idx == 2 then 4 else if idx == 3 then 8
    else if idx == 4 then 16 else if idx == 5 then 32 else if idx == 6 then 64 else 128
  }

  predicate IsBitSet(val: bv8, idx: nat)
    requires idx < BYTE_LEN
  {
    val & Mask(idx) != 0
  }

  function SetBit(val: bv8, idx: nat): bv8
    requires idx < BYTE_LEN
  {
    val | Mask(idx)
  }

  function ResetBit(val: bv8, idx: nat): bv8
    requires idx < BYTE_LEN
  {
    val & !Mask(idx)
  }

  lemma MaskIsShift(idx: nat)
    requires idx < BYTE_LEN
    ensures Mask(idx) == (1 as bv8) << idx
  {
    if idx == 0 {
    } else if idx == 1 {
    } else if idx == 2 {
    } else if idx == 3 {
    } else if idx == 4 {
    } else if idx == 5 {
    } else if idx == 6 {
    }
  }

  /** Byte `val'` is `val` with bit `idx`, of weight `2^idx`, written. */
  ghost predicate IsWritten(val: bv8, val': bv8, idx: nat, bit: bool) {
    idx < BYTE_LEN && val' == if bit then val | ((1 as bv8) << idx) else val & !((1 as bv8) << idx)
  }

  lemma BitWritten(val: bv8, idx: nat, bit: bool)
    requires idx < BYTE_LEN
    ensures IsWritten(val, if bit then SetBit(val, idx) else ResetBit(val, idx), idx, bit)
  {
    MaskIsShift(idx);
  }

  lemma MasksPairwise(i: nat, j: nat)
    requires i < BYTE_LEN && j < BYTE_LEN
    ensures Mask(i) != 0
    ensures i != j ==> Mask(i) & Mask(j) == 0
  {
  }

  lemma OrAndLaws(v: bv8, m: bv8, n: bv8)
    requires m != 0 && (m == n || m & n == 0)
    ensures ((v | m) & n != 0) == (m == n || v & n != 0)
    ensures ((v & !m) & n != 0) == (m != n && v & n != 0)
  {
  }

  lemma MaskInjective(i: nat, j: nat)
    requires i < BYTE_LEN && j < BYTE_LEN
    ensures Mask(i) == Mask(j) <==> i == j
  {
  }

  /** Writing one bit changes that bit and no other. */
  lemma WriteLaws(val: bv8, i: nat, j: nat)
    requires i < BYTE_LEN && j < BYTE_LEN
    ensures IsBitSet(SetBit(val, i), j) == (i == j || IsBitSet(val, j))
    ensures IsBitSet(ResetBit(val, i), j) == (i != j && IsBitSet(val, j))
  {
    MasksPairwise(i, j);
    MaskInjective(i, j);
    OrAndLaws(val, Mask(i), Mask(j));
  }

  /** The test for a full byte and the test of its eight bits agree. */
  lemma FullByteLaw(val: bv8)
    ensures val == FULL_BYTE <==> forall i: nat :: i < BYTE_LEN ==> IsBitSet(val, i)
  {
    if val != FULL_BYTE {
      if IsBitSet(val, 0) && IsBitSet(val, 1) && IsBitSet(val, 2) && IsBitSet(val, 3) {
        assert !(IsBitSet(val, 4) && IsBitSet(val, 5) && IsBitSet(val, 6) && IsBitSet(val, 7));
      }
    }
  }
}

/** The bitmap over a caller's byte buffer. */
module Bitmaps {
  import opened Wrappers
  import opened BitRuns
  import opened ByteBits

  /** The flags that a byte buffer stores: bit `k % 8` of byte `k / 8` is flag `k`. */
  ghost function Flags(bytes: seq<bv8>): (r: Bits)
    ensures |r| == |bytes| * BYTE_LEN
    ensures forall k {:trigger r[k]} :: 0 <= k < |r| ==> r[k] == IsBitSet(bytes[k / BYTE_LEN], k % BYTE_LEN)
  {
    seq(|bytes| * BYTE_LEN, k requires 0 <= k < |bytes| * BYTE_LEN => IsBitSet(bytes[k / BYTE_LEN], k % BYTE_LEN))
  }

  class Bitmap {
    const bits: array<bv8>

    ghost function Contents(): (r: Bits)
      reads bits
    {
      Flags(bits[..])
    }

    constructor (buf: array<bv8>)
      requires buf.Length > 0
      ensures bits == buf
    {
      bits := buf;
    }

    function GetCapacity(): (r: nat)
      reads bits
      ensures r == |Contents()|
    {
      bits.Length * BYTE_LEN
    }

    predicate IsAlloc(idx: nat)
      requires idx < GetCapacity()
      reads bits
      ensures IsAlloc(idx) == Contents()[idx]
      ensures IsAlloc(idx) == (bits[idx / 8] & ((1 as bv8) << (idx % 8)) != 0)
    {
      MaskIsShift(idx % BYTE_LEN);
      IsBitSet(bits[idx / BYTE_LEN], idx % BYTE_LEN)
    }

    method SetBit(idx: nat, val: bool)
      requires idx < GetCapacity()
      modifies bits
      ensures Contents() == old(Contents())[idx := val]
      ensures IsWritten(old(bits[idx / 8]), bits[idx / 8], idx % 8, val)
      ensures forall k :: 0 <= k < bits.Length && k != idx / 8 ==> bits[k] == old(bits[k])
    {
      BitWritten(bits[idx / BYTE_LEN], idx % BYTE_LEN, val);
      hide IsWritten, IsBitSet, ByteBits.SetBit, ResetBit;
      var byteIdx, bitIdx := idx / BYTE_LEN, idx % BYTE_LEN;
      ghost var before := bits[..];
      bits[byteIdx] := if val then ByteBits.SetBit(bits[byteIdx], bitIdx) else ResetBit(bits[byteIdx], bitIdx);
      forall k | 0 <= k < GetCapacity()
        ensures Contents()[k] == Flags(before)[idx := val][k]
      {
        WriteLaws(before[byteIdx], bitIdx, k % BYTE_LEN);
      }
    }

    method Set(begin: nat, count: nat)
      requires count > 0 && begin + count <= GetCapacity()
      modifies bits
      ensures Contents() == Mark(old(Contents()), begin, count, true)
    {
      for i := 0 to count
        invariant Contents() == Mark(old(Contents()), begin, i, true)
      {
        SetBit(i + begin, true);
      }
    }

    method Reset(begin: nat, count: nat)
      requires count > 0 && begin + count <= GetCapacity()
      modifies bits
      ensures Contents() == Mark(old(Contents()), begin, count, false)
    {
      for i := 0 to count
        invariant Contents() == Mark(old(Contents()), begin, i, false)
      {
        SetBit(i + begin, false);
      }
    }

    method ForceAlloc(begin: nat, count: nat)
      requires begin + count <= GetCapacity()
      modifies bits
      ensures Contents() == Mark(old(Contents()), begin, count, true)
    {
      if count > 0 {
        Set(begin, count);
      }
    }

    /** The first byte that is not full; every flag before it is set. */
    method SkipFullBytes() returns (byteIdx: nat)
      ensures byteIdx <= bits.Length
      ensures byteIdx < bits.Length ==> bits[byteIdx] != FULL_BYTE
      ensures forall k :: 0 <= k < byteIdx * BYTE_LEN ==> Contents()[k]
    {
      byteIdx := 0;
      while byteIdx != bits.Length && bits[byteIdx] == FULL_BYTE
        invariant byteIdx <= bits.Length
        invariant forall k :: 0 <= k < byteIdx * BYTE_LEN ==> Contents()[k]
      {
        FullByteLaw(bits[byteIdx]);
        byteIdx := byteIdx + 1;
      }
    }

    /** The first clear bit of a byte that is not full. */
    method FirstClearBit(byteIdx: nat) returns (bitIdx: nat)
      requires byteIdx < bits.Length && bits[byteIdx] != FULL_BYTE
      ensures bitIdx < BYTE_LEN && !IsBitSet(bits[byteIdx], bitIdx)
      ensures forall b: nat :: b < bitIdx ==> IsBitSet(bits[byteIdx], b)
    {
      bitIdx := 0;
      while bitIdx != BYTE_LEN && IsBitSet(bits[byteIdx], bitIdx)
        invariant bitIdx <= BYTE_LEN
        invariant forall b: nat :: b < bitIdx ==> IsBitSet(bits[byteIdx], b)
      {
        bitIdx := bitIdx + 1;
      }
      FullByteLaw(bits[byteIdx]);
    }

    /**
     Takes the leftmost run of `count` free bits; the buffer is unchanged when there is none.
     */
    method Alloc(count: nat) returns (r: Option<nat>)
      requires count > 0
      modifies bits
      ensures r == FindRun(old(Contents()), count)
      ensures r.Some? ==> IsFreeRun(old(Contents()), r.value, count)
      ensures Contents() == if r.Some? then Mark(old(Contents()), r.value, count, true) else old(Contents())
    {
      ghost var before := Contents();
      var byteIdx := SkipFullBytes();
      assert Contents() == before;
      if byteIdx == bits.Length {
        NoRunInAllocated(before, |before|, count);
        FindRunCharacterised(before, count, None);
        return None;
      }

      var bitIdx := FirstClearBit(byteIdx);
      bitIdx := bitIdx + byteIdx * BYTE_LEN;
      forall k: nat | k < bitIdx ensures before[k] {
        if byteIdx * BYTE_LEN <= k {
          assert k / BYTE_LEN == byteIdx && k % BYTE_LEN < bitIdx - byteIdx * BYTE_LEN;
          assert Contents()[k];
        }
      }
      r := ScanForRun(bitIdx, count);
      if r.Some? {
        Set(r.value, count);
      }
    }

    /** The run scan of an allocation, which starts at the first clear bit. */
    method ScanForRun(first: nat, count: nat) returns (r: Option<nat>)
      requires count > 0 && first <= GetCapacity()
      requires forall k :: 0 <= k < first ==> Contents()[k]
      ensures r == FindRun(Contents(), count)
      ensures r.Some? ==> IsFreeRun(Contents(), r.value, count)
    {
      ghost var flags := Contents();
      NoRunInAllocated(flags, first, count);
      var found := 0;
      var i := first;
      while i != bits.Length * BYTE_LEN
        invariant first <= i <= bits.Length * BYTE_LEN
        invariant found < count && found <= i
        invariant forall k :: i - found <= k < i ==> !flags[k]
        invariant forall b: nat :: b < i - found ==> !IsFreeRun(flags, b, count)
        decreases bits.Length * BYTE_LEN - i
      {
        if !IsAlloc(i) {
          found := found + 1;
          if found == count {
            var begin := i + 1 - count;
            FindRunCharacterised(flags, count, Some(begin));
            return Some(begin);
          }
        } else {
          NoRunAcross(flags, i - found, i, count);
          found := 0;
        }
        i := i + 1;
      }

      FindRunCharacterised(flags, count, None);
      return None;
    }
  }
}
