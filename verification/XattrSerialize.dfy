/** Writing attributes into a region, sorted by index and name. */
module XattrSerialize {
  import opened Bytes
  import opened Outcome
  import opened XattrLayout

  // ---- order ------------------------------------------------------------------------------------------

  predicate NameLe(a: Name, b: Name) {
    if a == [] then true
    else if b == [] then false
    else if a[0] != b[0] then a[0] < b[0]
    else NameLe(a[1..], b[1..])
  }

  /** By index, then by the bytes of the name. */
  predicate AttrLe(a: Attr, b: Attr) {
    a.index < b.index || (a.index == b.index && NameLe(a.name, b.name))
  }

  lemma {:induction false} NameTotal(a: Name, b: Name)
    ensures NameLe(a, b) || NameLe(b, a)
    ensures NameLe(a, b) && NameLe(b, a) ==> a == b
  {
    if a != [] && b != [] && a[0] == b[0] {
      NameTotal(a[1..], b[1..]);
      assert a == [a[0]] + a[1..] && b == [b[0]] + b[1..];
    }
  }

  lemma {:induction false} NameTransitive(a: Name, b: Name, c: Name)
    requires NameLe(a, b) && NameLe(b, c)
    ensures NameLe(a, c)
  {
    if a != [] && a[0] == b[0] == c[0] {
      NameTransitive(a[1..], b[1..], c[1..]);
    }
  }

  predicate Sorted(attrs: seq<Attr>) {
    forall i, j :: 0 <= i < j < |attrs| ==> AttrLe(attrs[i], attrs[j])
  }

  function InsertSorted(attrs: seq<Attr>, x: Attr): seq<Attr> {
    if attrs == [] || AttrLe(attrs[|attrs| - 1], x) then attrs + [x]
    else InsertSorted(attrs[..|attrs| - 1], x) + [attrs[|attrs| - 1]]
  }

  function SortAttrs(attrs: seq<Attr>): seq<Attr> {
    if attrs == [] then [] else InsertSorted(SortAttrs(attrs[..|attrs| - 1]), attrs[|attrs| - 1])
  }

  lemma {:induction false} InsertMembers(attrs: seq<Attr>, x: Attr)
    ensures multiset(InsertSorted(attrs, x)) == multiset(attrs) + multiset{x}
  {
    if !(attrs == [] || AttrLe(attrs[|attrs| - 1], x)) {
      InsertMembers(attrs[..|attrs| - 1], x);
      assert attrs == attrs[..|attrs| - 1] + [attrs[|attrs| - 1]];
    }
  }

  lemma {:induction false} InsertOrder(attrs: seq<Attr>, x: Attr)
    requires Sorted(attrs)
    ensures Sorted(InsertSorted(attrs, x))
  {
    hide NameLe;
    if attrs == [] {
    } else if AttrLe(attrs[|attrs| - 1], x) {
      forall i | 0 <= i < |attrs|
        ensures AttrLe(attrs[i], x)
      {
        if i < |attrs| - 1 && attrs[i].index == attrs[|attrs| - 1].index == x.index {
          assert AttrLe(attrs[i], attrs[|attrs| - 1]);
          NameTransitive(attrs[i].name, attrs[|attrs| - 1].name, x.name);
        }
      }
    } else {
      var rest, last := attrs[..|attrs| - 1], attrs[|attrs| - 1];
      InsertOrder(rest, x);
      InsertMembers(rest, x);
      NameTotal(last.name, x.name);
      var r := InsertSorted(rest, x);
      forall i | 0 <= i < |r|
        ensures AttrLe(r[i], last)
      {
        assert r[i] in multiset(r);
        if r[i] in multiset(rest) {
          var k :| 0 <= k < |rest| && rest[k] == r[i];
          assert attrs[k] == r[i];
        }
      }
    }
  }

  lemma {:induction false} SortFacts(attrs: seq<Attr>)
    ensures multiset(SortAttrs(attrs)) == multiset(attrs) && Sorted(SortAttrs(attrs))
  {
    if attrs != [] {
      var rest, last := attrs[..|attrs| - 1], attrs[|attrs| - 1];
      SortFacts(rest);
      InsertMembers(SortAttrs(rest), last);
      InsertOrder(SortAttrs(rest), last);
      assert attrs == rest + [last];
    }
  }

  // ---- writing ----------------------------------------------------------------------------------------

  /** The first `k` attributes are in place, and the room between entries and values is still empty. */
  ghost predicate Partly(buf: seq<byte>, attrs: seq<Attr>, start: nat, k: nat, hash: EntryHash)
    requires k <= |attrs|
  {
    && (forall i: nat :: i < k ==> InPlace(buf, attrs, start, i, hash) && FitsAt(attrs, start, |buf|, i))
    && ZeroRange(buf, EntryOff(attrs, start, k), ValueEnd(attrs, |buf|, k))
  }

  /** Both buffers agree outside `[lo, hi)`. */
  predicate SameOutside(a: seq<byte>, b: seq<byte>, lo: int, hi: int) {
    |a| == |b| && forall k :: 0 <= k < |a| && !(lo <= k < hi) ==> a[k] == b[k]
  }

  lemma InPlaceKept(a: seq<byte>, b: seq<byte>, attrs: seq<Attr>, start: nat, i: nat, k: nat, hash: EntryHash)
    requires i < k <= |attrs| && InPlace(a, attrs, start, i, hash)
    requires SameOutside(a, b, EntryOff(attrs, start, k), ValueEnd(attrs, |a|, k))
    ensures InPlace(b, attrs, start, i, hash)
  {
    hide EntryBytes, EntriesLen, ValuesLen, RoundUp4;
    var x, off, voff := attrs[i], EntryOff(attrs, start, i), ValueOff(attrs, |a|, i);
    OffStep(attrs, start, |a|, i);
    OffMonotone(attrs, start, |a|, i + 1, k);
    EntryLenPositive(|x.name|);
    SliceFrame(a, b, off, ENTRY_FIXED + |x.name|);
    SliceFrame(a, b, voff, |x.value|);
  }

  /** One attribute written at the two ends of the free room. */
  function PutAttr(buf: seq<byte>, off: nat, voff: nat, a: Attr, hash: u32): (r: seq<byte>)
    requires |a.value| < 0x1_0000_0000 && voff < 0x1_0000
    requires off + ENTRY_FIXED + |a.name| <= |buf| && voff + |a.value| <= |buf|
    ensures |r| == |buf|
  {
    Splice(Splice(buf, voff, a.value), off, EntryBytes(a, voff, hash))
  }

  lemma PutInPlace(buf: seq<byte>, attrs: seq<Attr>, start: nat, k: nat, hash: EntryHash)
    requires k < |attrs| && FitsAt(attrs, start, |buf|, k) && |buf| <= 0x1_0000
    requires ValueEnd(attrs, |buf|, k) <= |buf|
    ensures var a, off, voff := attrs[k], EntryOff(attrs, start, k), ValueOff(attrs, |buf|, k);
            && |a.value| < 0x1_0000_0000 && voff < 0x1_0000
            && off + ENTRY_FIXED + |a.name| <= |buf| && voff + |a.value| <= |buf|
            && InPlace(PutAttr(buf, off, voff, a, hash(a)), attrs, start, k, hash)
            && SameOutside(buf, PutAttr(buf, off, voff, a, hash(a)), off, ValueEnd(attrs, |buf|, k))
            && (ZeroRange(buf, off, ValueEnd(attrs, |buf|, k)) ==>
                  ZeroRange(PutAttr(buf, off, voff, a, hash(a)), EntryOff(attrs, start, k + 1),
                      ValueEnd(attrs, |buf|, k + 1)))
  {
    hide EntryBytes, EntriesLen, ValuesLen;
    var a, off := attrs[k], EntryOff(attrs, start, k);
    OffStep(attrs, start, |buf|, k);
    EntryLenPositive(|a.name|);
    PutRanges(buf, off, ValueOff(attrs, |buf|, k), a, hash(a));
  }

  lemma PutRanges(buf: seq<byte>, off: nat, voff: nat, a: Attr, hash: u32)
    requires |a.value| < 0x1_0000_0000 && voff < 0x1_0000
    requires off + ENTRY_FIXED + |a.name| <= |buf| && voff + |a.value| <= |buf|
    requires a.value != [] ==> off + ENTRY_FIXED + |a.name| <= voff
    ensures var r := PutAttr(buf, off, voff, a, hash);
            && r[off..off + ENTRY_FIXED + |a.name|] == EntryBytes(a, voff, hash) && r[voff..voff + |a.value|] == a.value
            && forall k ::
                 0 <= k < |buf| && !(off <= k < off + ENTRY_FIXED + |a.name|) && !(voff <= k < voff + |a.value|) ==>
                   r[k] == buf[k]
  {
    hide EntryBytes;
  }

  /** Sort the attributes, then place each one if there is room for it and for a terminator behind it. */
  method Serialize(buf0: seq<byte>, attrs: seq<Attr>, start: nat, hash: EntryHash) returns (r: Option<seq<byte>>)
    requires start <= |buf0| <= 0x1_0000 && ZeroRange(buf0, start, |buf0|)
    ensures r.Some? <==> Fits(SortAttrs(attrs), start, |buf0|)
    ensures r.Some? ==> |r.value| == |buf0| && r.value[..start] == buf0[..start]
    ensures r.Some? && attrs != [] ==> Serialized(r.value, SortAttrs(attrs), start, hash)
    ensures r.Some? && attrs == [] ==> r.value == buf0
  {
    hide SortAttrs, EntryOff, ValueEnd, ValueOff, InPlace, EntryLen, ValuePad, Partly, PutAttr;
    var sorted := SortAttrs(attrs);
    SameLength(attrs);
    var buf, n := buf0, |buf0|;
    var entryOff, valueEnd := start, n;
    NothingPlaced(buf0, sorted, start, hash);
    for k := 0 to |sorted|
      invariant |buf| == n && buf[..start] == buf0[..start] && Partly(buf, sorted, start, k, hash)
      invariant entryOff == EntryOff(sorted, start, k) && valueEnd == ValueEnd(sorted, n, k) && start <= entryOff
      invariant 0 <= valueEnd <= n && (k == 0 ==> buf == buf0)
    {
      var a := sorted[k];
      var elen, vpad := EntryLen(|a.name|), ValuePad(a);
      OffStep(sorted, start, n, k);
      PaddedLengths(a);
      if entryOff + elen + 4 > (if vpad <= valueEnd then valueEnd - vpad else 0) {
        assert !FitsAt(sorted, start, n, k);
        return None;
      }
      PartlyZero(buf, sorted, start, k, hash);
      PutInPlace(buf, sorted, start, k, hash);
      var voff := 0;
      if a.value != [] {
        voff := valueEnd - vpad;
        valueEnd := voff;
      }
      ValuePlace(sorted, n, k);
      ghost var was := buf;
      buf := PutAttr(buf, entryOff, voff, a, hash(a));
      PartlyMore(was, buf, sorted, start, k, hash);
      assert buf[..start] == buf0[..start];
      entryOff := entryOff + elen;
    }
    AllPlaced(buf, sorted, start, hash);
    return Some(buf);
  }

  lemma SameLength(attrs: seq<Attr>)
    ensures |SortAttrs(attrs)| == |attrs|
  {
    SortFacts(attrs);
    assert |multiset(SortAttrs(attrs))| == |multiset(attrs)|;
  }

  lemma NothingPlaced(buf: seq<byte>, attrs: seq<Attr>, start: nat, hash: EntryHash)
    requires ZeroRange(buf, start, |buf|)
    ensures Partly(buf, attrs, start, 0, hash) && EntryOff(attrs, start, 0) == start
    ensures ValueEnd(attrs, |buf|, 0) == |buf|
  {
  }

  lemma PartlyZero(buf: seq<byte>, attrs: seq<Attr>, start: nat, k: nat, hash: EntryHash)
    requires k <= |attrs| && Partly(buf, attrs, start, k, hash)
    ensures ZeroRange(buf, EntryOff(attrs, start, k), ValueEnd(attrs, |buf|, k))
  {
  }

  lemma PaddedLengths(a: Attr)
    ensures EntryLen(|a.name|) >= ENTRY_FIXED + |a.name| && ValuePad(a) >= |a.value|
    ensures (a.value == [] ==> ValuePad(a) == 0)
  {
  }

  lemma ValuePlace(attrs: seq<Attr>, len: nat, k: nat)
    requires k < |attrs| && ValueEnd(attrs, len, k + 1) >= 0
    ensures ValueOff(attrs, len, k) == if attrs[k].value == [] then 0 else ValueEnd(attrs, len, k + 1)
  {
  }

  lemma PartlyMore(a: seq<byte>, b: seq<byte>, attrs: seq<Attr>, start: nat, k: nat, hash: EntryHash)
    requires k < |attrs| && Partly(a, attrs, start, k, hash) && InPlace(b, attrs, start, k, hash)
    requires FitsAt(attrs, start, |b|, k)
    requires SameOutside(a, b, EntryOff(attrs, start, k), ValueEnd(attrs, |a|, k))
    requires ZeroRange(b, EntryOff(attrs, start, k + 1), ValueEnd(attrs, |b|, k + 1))
    ensures Partly(b, attrs, start, k + 1, hash)
  {
    hide InPlace, EntryOff, ValueEnd, ZeroRange;
    forall i: nat | i < k + 1
      ensures InPlace(b, attrs, start, i, hash) && FitsAt(attrs, start, |b|, i)
    {
      if i < k {
        InPlaceKept(a, b, attrs, start, i, k, hash);
      }
    }
  }

  lemma AllPlaced(buf: seq<byte>, attrs: seq<Attr>, start: nat, hash: EntryHash)
    requires Partly(buf, attrs, start, |attrs|, hash)
    ensures Fits(attrs, start, |buf|)
    ensures attrs != [] ==> Serialized(buf, attrs, start, hash)
  {
    hide InPlace, EntryOff, ValueEnd;
    if attrs != [] {
      assert FitsAt(attrs, start, |buf|, |attrs| - 1);
    }
  }
}
