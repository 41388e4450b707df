/** Allocation bitmaps: single bits of a byte array, first-fit search, range clearing. */
module Bitmap {
  import opened Outcome

  /** `1 << k` as a byte. */
  function Mask(k: nat): bv8
    requires k < 8
  {
    if k == 0 then 1 else if k == 1 then 2 else if k == 2 then 4 else if k == 3 then 8
    else if k == 4 then 16 else if k == 5 then 32 else if k == 6 then 64 else 128
  }

  lemma MaskIsShift(k: nat)
    requires k < 8
    ensures Mask(k) == (1 as bv8) << k
  {
    if k < 4 {
      assert k == 0 || k == 1 || k == 2 || k == 3;
    } else {
      assert k == 4 || k == 5 || k == 6 || k == 7;
    }
  }

  predicate BitOf(b: bv8, k: nat)
    requires k < 8
  {
    b & Mask(k) != 0
  }

  predicate IsSet(bmap: seq<bv8>, bit: nat)
    requires bit < 8 * |bmap|
  {
    BitOf(bmap[bit / 8], bit % 8)
  }

  /** The bitmap as its bits. */
  function Bits(bmap: seq<bv8>): (r: seq<bool>)
    ensures |r| == 8 * |bmap|
    ensures forall i :: 0 <= i < |r| ==> r[i] == IsSet(bmap, i)
  {
    seq(8 * |bmap|, i requires 0 <= i < 8 * |bmap| => IsSet(bmap, i))
  }

  lemma SetInByte(b: bv8, k: nat, j: nat)
    requires k < 8 && j < 8
    ensures BitOf(b | Mask(k), j) == (j == k || BitOf(b, j))
    ensures BitOf(b & !Mask(k), j) == (j != k && BitOf(b, j))
  {
  }

  lemma FullByte(b: bv8)
    ensures b == 0xFF <==> forall k :: 0 <= k < 8 ==> BitOf(b, k)
  {
    if forall k :: 0 <= k < 8 ==> BitOf(b, k) {
      assert BitOf(b, 0) && BitOf(b, 1) && BitOf(b, 2) && BitOf(b, 3) && BitOf(b, 4) && BitOf(b, 5) && BitOf(b, 6)
          && BitOf(b, 7);
    }
  }

  /** Set one bit in place; all others keep. */
  method BitSet(bmap: array<bv8>, bit: nat)
    requires bit < 8 * bmap.Length
    modifies bmap
    ensures Bits(bmap[..]) == old(Bits(bmap[..]))[bit := true]
  {
    hide Mask, BitOf;
    ghost var was := bmap[..];
    bmap[bit / 8] := bmap[bit / 8] | Mask(bit % 8);
    ByteChanged(was, bmap[..], bit, true);
  }

  /** Clear one bit in place. */
  method BitClr(bmap: array<bv8>, bit: nat)
    requires bit < 8 * bmap.Length
    modifies bmap
    ensures Bits(bmap[..]) == old(Bits(bmap[..]))[bit := false]
  {
    hide Mask, BitOf;
    ghost var was := bmap[..];
    bmap[bit / 8] := bmap[bit / 8] & !Mask(bit % 8);
    ByteChanged(was, bmap[..], bit, false);
  }

  lemma ByteChanged(was: seq<bv8>, now: seq<bv8>, bit: nat, on: bool)
    requires bit < 8 * |was|
    requires now == was[bit / 8 := if on then was[bit / 8] | Mask(bit % 8) else was[bit / 8] & !Mask(bit % 8)]
    ensures Bits(now) == Bits(was)[bit := on]
  {
    hide Mask, BitOf, IsSet;
    var x, y := Bits(now), Bits(was)[bit := on];
    forall i | 0 <= i < |x|
      ensures x[i] == y[i]
    {
      BitChanged(was, now, bit, on, i);
    }
  }

  lemma BitChanged(was: seq<bv8>, now: seq<bv8>, bit: nat, on: bool, i: nat)
    requires bit < 8 * |was| && i < 8 * |was|
    requires now == was[bit / 8 := if on then was[bit / 8] | Mask(bit % 8) else was[bit / 8] & !Mask(bit % 8)]
    ensures IsSet(now, i) == if i == bit then on else IsSet(was, i)
  {
    hide Mask, BitOf;
    if i / 8 == bit / 8 {
      SetInByte(was[bit / 8], bit % 8, i % 8);
    }
  }

  /** Clear the bits `first..=last`. */
  method BitsFree(bmap: array<bv8>, first: nat, last: nat)
    requires first <= last < 8 * bmap.Length
    modifies bmap
    ensures Bits(bmap[..]) == Cleared(old(Bits(bmap[..])), first, last + 1)
  {
    hide IsSet, Bits;
    ghost var was := Bits(bmap[..]);
    for bit := first to last + 1
      invariant Bits(bmap[..]) == Cleared(was, first, bit)
    {
      BitClr(bmap, bit);
    }
  }

  /** Bits `from..to` cleared. */
  function Cleared(bits: seq<bool>, from: nat, to: nat): (r: seq<bool>)
    requires from <= to <= |bits|
    ensures |r| == |bits|
    ensures forall i :: 0 <= i < |bits| ==> r[i] == if from <= i < to then false else bits[i]
  {
    bits[..from] + seq(to - from, i => false) + bits[to..]
  }

  /** The answer of a search for a clear bit: the least one, or none at all. */
  ghost predicate FirstClear(bits: seq<bool>, sbit: nat, ebit: nat, r: Option<nat>)
    requires sbit <= ebit <= |bits|
  {
    match r
    case Some(i) => sbit <= i < ebit && !bits[i] && forall j :: sbit <= j < i ==> bits[j]
    case None => forall j :: sbit <= j < ebit ==> bits[j]
  }

  predicate AllSet(bits: seq<bool>, from: nat, to: nat)
    requires to <= |bits|
  {
    forall j :: from <= j < to ==> bits[j]
  }

  /** First clear bit in `[sbit, ebit)`: bit by bit to a byte boundary, byte by byte, then the rest. */
  method FindClr(bmap: array<bv8>, sbit: nat, ebit: nat) returns (r: Option<nat>)
    requires sbit <= ebit <= 8 * bmap.Length
    ensures FirstClear(Bits(bmap[..]), sbit, ebit, r)
  {
    hide BitOf, IsSet;
    ghost var bits := Bits(bmap[..]);
    var bcnt := ebit - sbit;
    var i := sbit;
    while i % 8 != 0
      invariant sbit <= i <= ebit && bcnt == ebit - i && AllSet(bits, sbit, i)
      decreases ebit - i + 1
    {
      if bcnt == 0 {
        return None;
      }
      if !IsSet(bmap[..], i) {
        return Some(i);
      }
      i := i + 1;
      bcnt := bcnt - 1;
    }
    var byteIdx, bitPos := i / 8, i;
    while bcnt >= 8
      invariant sbit <= bitPos <= ebit && bcnt == ebit - bitPos && bitPos == 8 * byteIdx && AllSet(bits, sbit, bitPos)
    {
      if byteIdx >= bmap.Length {
        return None;
      }
      if bmap[byteIdx] != 0xFF {
        var j := 0;
        while j < 8
          invariant j <= 8 && AllSet(bits, sbit, bitPos + j)
        {
          if !IsSet(bmap[..], bitPos + j) {
            return Some(bitPos + j);
          }
          j := j + 1;
        }
      }
      WholeByte(bmap[..], byteIdx);
      byteIdx := byteIdx + 1;
      bcnt := bcnt - 8;
      bitPos := bitPos + 8;
    }
    while bcnt > 0
      invariant sbit <= bitPos <= ebit && bcnt == ebit - bitPos && AllSet(bits, sbit, bitPos)
    {
      if bitPos >= ebit {
        return None;
      }
      if !IsSet(bmap[..], bitPos) {
        return Some(bitPos);
      }
      bitPos := bitPos + 1;
      bcnt := bcnt - 1;
    }
    return None;
  }

  lemma WholeByte(bmap: seq<bv8>, byteIdx: nat)
    requires byteIdx < |bmap|
    ensures bmap[byteIdx] == 0xFF ==> AllSet(Bits(bmap), 8 * byteIdx, 8 * byteIdx + 8)
  {
    hide BitOf;
    FullByte(bmap[byteIdx]);
    if bmap[byteIdx] == 0xFF {
      forall k | 8 * byteIdx <= k < 8 * byteIdx + 8
        ensures Bits(bmap)[k]
      {
        assert k / 8 == byteIdx && BitOf(bmap[byteIdx], k % 8);
      }
    }
  }
}
