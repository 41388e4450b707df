/** Extended attributes in a region: entries grow up, values grow down, a zero entry ends the array. */
module XattrLayout {
  import opened Bytes
  import opened Outcome

  const ENTRY_FIXED: nat := 16

  type Name = seq<byte>

  datatype Attr = Attr(index: byte, name: Name, value: seq<byte>)

  /** The checksum word of an entry, as an arbitrary function of the attribute. */
  type EntryHash = Attr -> u32

  function RoundUp4(n: nat): (r: nat)
    ensures n <= r < n + 4 && r % 4 == 0
  {
    (n + 3) / 4 * 4
  }

  function EntryLen(nameLen: nat): nat {
    RoundUp4(ENTRY_FIXED + nameLen)
  }

  /** Space of a value at the end of the region; an empty one takes none. */
  function ValuePad(a: Attr): nat {
    RoundUp4(|a.value|)
  }

  // ---- where things go -------------------------------------------------------------------------------

  function EntriesLen(attrs: seq<Attr>): nat {
    if attrs == [] then 0 else EntriesLen(attrs[..|attrs| - 1]) + EntryLen(|attrs[|attrs| - 1].name|)
  }

  function ValuesLen(attrs: seq<Attr>): nat {
    if attrs == [] then 0 else ValuesLen(attrs[..|attrs| - 1]) + ValuePad(attrs[|attrs| - 1])
  }

  /** Entry `i` of `attrs` starts here when the array starts at `start`. */
  function EntryOff(attrs: seq<Attr>, start: nat, i: nat): nat
    requires i <= |attrs|
  {
    start + EntriesLen(attrs[..i])
  }

  /** The room in front of the values of the first `i` attributes ends here. */
  function ValueEnd(attrs: seq<Attr>, len: nat, i: nat): int
    requires i <= |attrs|
  {
    len - ValuesLen(attrs[..i])
  }

  /** Every entry, and the four bytes of the terminator behind it, stay clear of the values. */
  predicate Fits(attrs: seq<Attr>, start: nat, len: nat) {
    forall i: nat :: i < |attrs| ==> FitsAt(attrs, start, len, i)
  }

  predicate FitsAt(attrs: seq<Attr>, start: nat, len: nat, i: nat)
    requires i < |attrs|
  {
    EntryOff(attrs, start, i + 1) + 4 <= ValueEnd(attrs, len, i + 1)
  }

  function ValueOff(attrs: seq<Attr>, len: nat, i: nat): nat
    requires i < |attrs|
  {
    if attrs[i].value == [] then 0 else if ValueEnd(attrs, len, i + 1) >= 0 then ValueEnd(attrs, len, i + 1) else 0
  }

  lemma OffStep(attrs: seq<Attr>, start: nat, len: nat, i: nat)
    requires i < |attrs|
    ensures EntryOff(attrs, start, i + 1) == EntryOff(attrs, start, i) + EntryLen(|attrs[i].name|)
    ensures ValueEnd(attrs, len, i + 1) == ValueEnd(attrs, len, i) - ValuePad(attrs[i])
    ensures EntryOff(attrs, start, 0) == start && ValueEnd(attrs, len, 0) == len
  {
    assert attrs[..i + 1][..i] == attrs[..i];
  }

  lemma {:induction false} OffMonotone(attrs: seq<Attr>, start: nat, len: nat, i: nat, j: nat)
    requires i <= j <= |attrs|
    ensures EntryOff(attrs, start, i) <= EntryOff(attrs, start, j) && ValueEnd(attrs, len, j) <= ValueEnd(attrs, len, i)
    decreases j
  {
    if i < j {
      OffMonotone(attrs, start, len, i, j - 1);
      OffStep(attrs, start, len, j - 1);
    }
  }

  // ---- one entry --------------------------------------------------------------------------------------

  /** Name length and index, value offset, value inode (none), value size, hash, name. */
  function EntryBytes(a: Attr, voff: u16, hash: u32): (r: seq<byte>)
    requires |a.value| < 0x1_0000_0000
    ensures |r| == ENTRY_FIXED + |a.name|
  {
    [|a.name| % 0x100, a.index] + Le16(voff) + Le32(0) + Le32(|a.value|) + Le32(hash) + a.name
  }

  lemma EntryFields(a: Attr, voff: u16, hash: u32)
    requires |a.value| < 0x1_0000_0000
    ensures var e := EntryBytes(a, voff, hash);
            && e[0] == |a.name| % 0x100 && e[1] == a.index && e[2..4] == Le16(voff) && e[4..8] == Le32(0)
            && e[8..12] == Le32(|a.value|) && e[16..16 + |a.name|] == a.name
  {
    hide Le16, Le32;
  }

  /** Entry `i` and its value are in place. */
  predicate InPlace(buf: seq<byte>, attrs: seq<Attr>, start: nat, i: nat, hash: EntryHash)
    requires i < |attrs|
  {
    var a, off, voff := attrs[i], EntryOff(attrs, start, i), ValueOff(attrs, |buf|, i);
    && |a.value| < 0x1_0000_0000 && voff < 0x1_0000
    && off + ENTRY_FIXED + |a.name| <= |buf| && voff + |a.value| <= |buf|
    && buf[off..off + ENTRY_FIXED + |a.name|] == EntryBytes(a, voff, hash(a))
    && buf[voff..voff + |a.value|] == a.value
  }

  predicate ZeroRange(buf: seq<byte>, from: int, upto: int) {
    forall k :: from <= k < upto && 0 <= k < |buf| ==> buf[k] == 0
  }

  /** The region holds all the attributes, and the terminator. */
  ghost predicate Serialized(buf: seq<byte>, attrs: seq<Attr>, start: nat, hash: EntryHash) {
    && (forall i: nat :: i < |attrs| ==> InPlace(buf, attrs, start, i, hash))
    && Fits(attrs, start, |buf|)
    && ZeroRange(buf, EntryOff(attrs, start, |attrs|), EntryOff(attrs, start, |attrs|) + 4)
  }

  // ---- parsing ------------------------------------------------------------------------------------------

  /**
   The entry at `pos`, with its value; value offsets count from the start of the buffer. None at the end of the
   array.
   */
  function EntryAt(buf: seq<byte>, pos: nat): (r: Option<Attr>)
    ensures r.Some? ==> pos + ENTRY_FIXED + |r.value.name| <= |buf|
  {
    if pos + 4 > |buf| then None
    else if buf[pos] == 0 && buf[pos + 1] == 0 then None
    else if pos + ENTRY_FIXED + buf[pos] > |buf| then None
    else
      var voff, inum, size := GetLe16(buf, pos + 2), GetLe32(buf, pos + 4), GetLe32(buf, pos + 8);
      var value := if inum == 0 && voff + size <= |buf| then buf[voff..voff + size] else [];
      Some(Attr(buf[pos + 1], buf[pos + ENTRY_FIXED..pos + ENTRY_FIXED + buf[pos]], value))
  }

  function ParseEntries(buf: seq<byte>, pos: nat): seq<Attr>
    decreases |buf| - pos
  {
    match EntryAt(buf, pos)
    case None => []
    case Some(a) => [a] + ParseEntries(buf, pos + EntryLen(|a.name|))
  }

  /** The parsing loop. */
  method ReadEntries(buf: seq<byte>, start: nat) returns (out: seq<Attr>)
    ensures out == ParseEntries(buf, start)
  {
    hide EntryAt, EntryLen;
    out := [];
    var pos := start;
    var next := EntryAt(buf, pos);
    while next.Some?
      invariant next == EntryAt(buf, pos)
      invariant ParseEntries(buf, start) == out + ParseEntries(buf, pos)
      decreases |buf| - pos
    {
      var a := next.value;
      EntryLenPositive(|a.name|);
      assert out + ([a] + ParseEntries(buf, pos + EntryLen(|a.name|)))
          == out + [a] + ParseEntries(buf, pos + EntryLen(|a.name|));
      out := out + [a];
      pos := pos + EntryLen(|a.name|);
      next := EntryAt(buf, pos);
    }
    assert out + [] == out;
  }

  lemma EntryLenPositive(n: nat)
    ensures EntryLen(n) >= ENTRY_FIXED + n
  {
  }

  /** What the on-disk name fields can hold. */
  predicate Storable(a: Attr) {
    |a.name| <= 0xFF && (a.index != 0 || a.name != [])
  }

  lemma ReadOne(buf: seq<byte>, off: nat, a: Attr, voff: u16, hash: u32)
    requires Storable(a) && |a.value| < 0x1_0000_0000
    requires off + ENTRY_FIXED + |a.name| <= |buf| && voff + |a.value| <= |buf|
    requires buf[off..off + ENTRY_FIXED + |a.name|] == EntryBytes(a, voff, hash)
    requires buf[voff..voff + |a.value|] == a.value
    ensures EntryAt(buf, off) == Some(a)
  {
    hide Le16, Le32, LeValue, Pow256, EntryBytes;
    var e := EntryBytes(a, voff, hash);
    EntryFields(a, voff, hash);
    assert buf[off] == buf[off..off + |e|][0] && buf[off + 1] == buf[off..off + |e|][1];
    Sub(buf, off, e, 2, 2);
    Sub(buf, off, e, 4, 4);
    Sub(buf, off, e, 8, 4);
    Sub(buf, off, e, 16, |a.name|);
  }

  lemma ParseOne(buf: seq<byte>, attrs: seq<Attr>, start: nat, i: nat, hash: EntryHash)
    requires i < |attrs| && InPlace(buf, attrs, start, i, hash) && Storable(attrs[i])
    ensures EntryAt(buf, EntryOff(attrs, start, i)) == Some(attrs[i])
    ensures EntryOff(attrs, start, i + 1) == EntryOff(attrs, start, i) + EntryLen(|attrs[i].name|)
  {
    hide EntryAt, EntryBytes, EntryOff, EntryLen, ValueOff;
    OffStep(attrs, start, |buf|, i);
    ReadOne(buf, EntryOff(attrs, start, i), attrs[i], ValueOff(attrs, |buf|, i), hash(attrs[i]));
  }

  /** A serialised region parses back to the attributes, in order. */
  lemma {:induction false} ParseSerialized(buf: seq<byte>, attrs: seq<Attr>, start: nat, i: nat, hash: EntryHash)
    requires i <= |attrs| && Serialized(buf, attrs, start, hash) && forall k: nat :: k < |attrs| ==> Storable(attrs[k])
    ensures ParseEntries(buf, EntryOff(attrs, start, i)) == attrs[i..]
    decreases |attrs| - i
  {
    hide InPlace, Storable, EntryOff, EntryAt, EntryLen, Fits, ZeroRange;
    if i < |attrs| {
      ParseSerialized(buf, attrs, start, i + 1, hash);
      ParseOne(buf, attrs, start, i, hash);
      assert attrs[i..] == [attrs[i]] + attrs[i + 1..];
    } else {
      ZeroEnds(buf, EntryOff(attrs, start, |attrs|));
    }
  }

  lemma ZeroEnds(buf: seq<byte>, pos: nat)
    requires ZeroRange(buf, pos, pos + 4)
    ensures EntryAt(buf, pos) == None
  {
    if pos + 4 <= |buf| {
      assert buf[pos] == 0 && buf[pos + 1] == 0;
    }
  }

  /** Entries and values do not overlap, nor do two values. */
  lemma NoOverlap(buf: seq<byte>, attrs: seq<Attr>, start: nat, i: nat, j: nat, hash: EntryHash)
    requires Serialized(buf, attrs, start, hash) && i < |attrs| && j < |attrs|
    ensures attrs[j].value != [] ==>
            EntryOff(attrs, start, i) + EntryLen(|attrs[i].name|) + 4 <= ValueOff(attrs, |buf|, j)
    ensures i < j ==> EntryOff(attrs, start, i) + EntryLen(|attrs[i].name|) <= EntryOff(attrs, start, j)
    ensures i < j && attrs[i].value != [] && attrs[j].value != [] ==>
              ValueOff(attrs, |buf|, j) + |attrs[j].value| <= ValueOff(attrs, |buf|, i)
  {
    hide EntriesLen, ValuesLen, InPlace;
    var n := |attrs|;
    OffStep(attrs, start, |buf|, i);
    OffStep(attrs, start, |buf|, j);
    OffMonotone(attrs, start, |buf|, i + 1, n);
    OffMonotone(attrs, start, |buf|, j + 1, n);
    if i < j {
      OffMonotone(attrs, start, |buf|, i + 1, j);
    }
    assert FitsAt(attrs, start, |buf|, n - 1);
  }
}
