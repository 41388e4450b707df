/** Extents as values: encoding, merging, and what inserting one into an ordered list maps. */
module Extents {
  import opened Bytes
  import opened Outcome
  import opened Records

  /** An initialised extent is at most this long; a larger stored count marks an unwritten one. */
  const EXT_INIT_MAX_LEN: nat := 0x8000

  predicate IsUnwritten(e: Entry) {
    e.count > EXT_INIT_MAX_LEN
  }

  function ActualLen(e: Entry): u16 {
    if IsUnwritten(e) then e.count - EXT_INIT_MAX_LEN else e.count
  }

  /** Set the top bit of the count. */
  function MarkUnwritten(e: Entry): Entry {
    if e.count < EXT_INIT_MAX_LEN then e.(count := e.count + EXT_INIT_MAX_LEN) else e
  }

  /** First logical block behind the extent. */
  function End(e: Entry): nat {
    e.first + ActualLen(e)
  }

  predicate Covers(e: Entry, l: nat) {
    e.first <= l < End(e)
  }

  /** A new extent with the given run; the length is at most what the flag leaves room for. */
  function MakeExtent(first: u32, len: u16, ptr: nat, unwritten: bool): Entry {
    if unwritten then MarkUnwritten(Entry(first, len, ptr)) else Entry(first, len, ptr)
  }

  predicate CanMerge(a: Entry, b: Entry) {
    && IsUnwritten(a) == IsUnwritten(b)
    && a.first + ActualLen(a) == b.first
    && ActualLen(a) + ActualLen(b) <= EXT_INIT_MAX_LEN
    && a.ptr + ActualLen(a) == b.ptr
  }

  function Merge(a: Entry, b: Entry): Entry
    requires CanMerge(a, b)
  {
    var e := a.(count := ActualLen(a) + ActualLen(b));
    if IsUnwritten(a) then MarkUnwritten(e) else e
  }

  /** Merging keeps the flag unless the merged run is unwritten and exactly as long as an initialised one may be. */
  lemma MergeFlag(a: Entry, b: Entry)
    requires CanMerge(a, b) && ActualLen(a) > 0
    ensures Merge(a, b).first == a.first && Merge(a, b).ptr == a.ptr && End(Merge(a, b)) == End(b)
    ensures IsUnwritten(Merge(a, b)) == IsUnwritten(a)
       <==> !(IsUnwritten(a) && ActualLen(a) + ActualLen(b) == EXT_INIT_MAX_LEN)
  {
  }

  // ---- lists of extents ---------------------------------------------------------------------------

  predicate GoodEntry(e: Entry) {
    ActualLen(e) > 0 && End(e) <= 0xFFFF_FFFF && e.ptr > 0
  }

  /** What 32 bits hold of a physical block number. */
  const PBLOCK_LOW: nat := 0x1_0000_0000

  /** The first physical block of what an extent loses from `from` on, as a 32-bit sum hands it to the allocator. */
  function FreedStart(e: Entry, from: nat): (r: nat)
    requires e.first <= from
    ensures r == (e.ptr + (from - e.first)) % PBLOCK_LOW
  {
    (e.ptr % PBLOCK_LOW + (from - e.first)) % PBLOCK_LOW
  }

  /** Non-empty runs in order, none overlapping the next. */
  predicate GoodExtents(es: seq<Entry>) {
    && (forall i :: 0 <= i < |es| ==> GoodEntry(es[i]))
    && (forall i, j :: 0 <= i < j < |es| ==> End(es[i]) <= es[j].first)
  }

  lemma GoodIsSorted(es: seq<Entry>)
    requires GoodExtents(es)
    ensures SortedKeys(es)
  {
    assert forall i :: 0 <= i < |es| ==> GoodEntry(es[i]);
  }

  datatype Mapping = Mapping(block: nat, unwritten: bool)

  function MappingOf(e: Entry, l: nat): Mapping
    requires Covers(e, l)
  {
    Mapping(e.ptr + (l - e.first), IsUnwritten(e))
  }

  /** What the list maps logical block `l` to: an independent definition, by linear search. */
  function Lookup(es: seq<Entry>, l: nat): Option<Mapping> {
    if es == [] then None
    else if Covers(es[0], l) then Some(MappingOf(es[0], l))
    else Lookup(es[1..], l)
  }

  lemma {:induction false} LookupAt(es: seq<Entry>, l: nat, i: nat)
    requires GoodExtents(es) && i < |es| && Covers(es[i], l)
    ensures Lookup(es, l) == Some(MappingOf(es[i], l))
  {
    if i > 0 {
      assert End(es[0]) <= es[i].first;
      LookupAt(es[1..], l, i - 1);
    }
  }

  lemma {:induction false} LookupNone(es: seq<Entry>, l: nat)
    requires forall i :: 0 <= i < |es| ==> !Covers(es[i], l)
    ensures Lookup(es, l) == None
  {
    if es != [] {
      LookupNone(es[1..], l);
    }
  }

  /** Searching by key and checking the range answers as the linear search does. */
  lemma FindSlotLookup(es: seq<Entry>, l: nat)
    requires es != [] && GoodExtents(es)
    ensures var e := es[FindSlot(es, l)];
            Lookup(es, l) == if Covers(e, l) then Some(MappingOf(e, l)) else None
  {
    var p := FindSlot(es, l);
    FindSlotFacts(es, l);
    if Covers(es[p], l) {
      LookupAt(es, l, p);
    } else {
      forall i | 0 <= i < |es|
        ensures !Covers(es[i], l)
      {
        if i < p {
          assert End(es[i]) <= es[p].first;
        }
      }
      LookupNone(es, l);
    }
  }

  // ---- inserting ------------------------------------------------------------------------------------

  /** Inserting an extent: merged into the one in front when possible, else put in its place. */
  function Inserted(es: seq<Entry>, x: Entry): seq<Entry> {
    if es == [] then [x]
    else
      var p := FindSlot(es, x.first);
      if CanMerge(es[p], x) then es[p := Merge(es[p], x)] else SortedInsert(es, x)
  }

  /** No extent of the list overlaps `x`. */
  predicate Apart(es: seq<Entry>, x: Entry) {
    forall i :: 0 <= i < |es| ==> End(es[i]) <= x.first || End(x) <= es[i].first
  }

  /** The insertion that drops the unwritten flag. */
  predicate LosesFlag(es: seq<Entry>, x: Entry) {
    && es != [] && IsUnwritten(x)
    && var e := es[FindSlot(es, x.first)];
       CanMerge(e, x) && ActualLen(e) + ActualLen(x) == EXT_INIT_MAX_LEN
  }

  /** Behind `x` in key order everything starts after it ends, in front of it everything ends before it starts. */
  lemma PlaceOf(es: seq<Entry>, x: Entry)
    requires GoodExtents(es) && GoodEntry(x) && Apart(es, x)
    ensures forall i :: 0 <= i < SortedPos(es, x.first) ==> End(es[i]) <= x.first
    ensures forall i :: SortedPos(es, x.first) <= i < |es| ==> End(x) <= es[i].first
  {
    hide SortedPos, FindSlot;
    var p := SortedPos(es, x.first);
    SortedPosFacts(es, x.first);
    forall i | 0 <= i < |es|
      ensures if i < p then End(es[i]) <= x.first else End(x) <= es[i].first
    {
      assert GoodEntry(es[i]);
      if i > p {
        assert GoodEntry(es[p]) && End(es[p]) <= es[i].first;
      }
    }
  }

  lemma PlaceAndSlot(es: seq<Entry>, x: Entry)
    requires GoodExtents(es) && es != []
    ensures FindSlot(es, x.first) == if SortedPos(es, x.first) == 0 then 0 else SortedPos(es, x.first) - 1
  {
    hide SortedPos, FindSlot, GoodExtents;
    var p := SortedPos(es, x.first);
    SortedPosFacts(es, x.first);
    GoodIsSorted(es);
    FindSlotUnique(es, x.first, if p == 0 then 0 else p - 1);
  }

  lemma ApartIsNew(es: seq<Entry>, x: Entry)
    requires GoodExtents(es) && GoodEntry(x) && Apart(es, x)
    ensures NewKey(es, x.first)
  {
    forall i | 0 <= i < |es|
      ensures es[i].first != x.first
    {
      assert GoodEntry(es[i]);
    }
  }

  lemma SortedInsertGood(es: seq<Entry>, x: Entry)
    requires GoodExtents(es) && GoodEntry(x) && Apart(es, x)
    ensures GoodExtents(SortedInsert(es, x))
  {
    hide GoodEntry, End, SortedPos;
    PlaceOf(es, x);
    var p, r := SortedPos(es, x.first), SortedInsert(es, x);
    forall i | 0 <= i < |r|
      ensures r[i] == (if i < p then es[i] else if i == p then x else es[i - 1]) && GoodEntry(r[i])
    {
    }
    forall i, j | 0 <= i < j < |r|
      ensures End(r[i]) <= r[j].first
    {
      if i == p {
        assert End(x) <= es[j - 1].first;
      } else if j == p {
        assert End(es[i]) <= x.first;
      } else {
        var i', j' := if i < p then i else i - 1, if j < p then j else j - 1;
        assert End(es[i']) <= es[j'].first;
      }
    }
  }

  /** The list stays ordered and free of overlaps. */
  lemma InsertedGood(es: seq<Entry>, x: Entry)
    requires GoodExtents(es) && GoodEntry(x) && Apart(es, x)
    ensures GoodExtents(Inserted(es, x))
  {
    if es != [] && CanMerge(es[FindSlot(es, x.first)], x) {
      var p := FindSlot(es, x.first);
      PlaceOf(es, x);
      PlaceAndSlot(es, x);
      SortedPosFacts(es, x.first);
      MergeFlag(es[p], x);
      var m := Merge(es[p], x);
      assert GoodEntry(es[p]) && GoodEntry(m);
      assert p + 1 == SortedPos(es, x.first);
    } else if es != [] {
      SortedInsertGood(es, x);
    }
  }

  /** The map before, changed on the new extent's range only. */
  function Updated(es: seq<Entry>, x: Entry, l: nat): Option<Mapping> {
    if Covers(x, l) then Some(MappingOf(x, l)) else Lookup(es, l)
  }

  lemma SortedInsertLookup(es: seq<Entry>, x: Entry, l: nat)
    requires GoodExtents(es) && GoodEntry(x) && Apart(es, x)
    ensures Lookup(SortedInsert(es, x), l) == Updated(es, x, l)
  {
    hide GoodEntry, MappingOf;
    SortedInsertGood(es, x);
    var p, r := SortedPos(es, x.first), SortedInsert(es, x);
    assert forall i :: 0 <= i < |r| ==> r[i] == if i < p then es[i] else if i == p then x else es[i - 1];
    if Covers(x, l) {
      LookupAt(r, l, p);
    } else if i :| 0 <= i < |es| && Covers(es[i], l) {
      LookupAt(es, l, i);
      LookupAt(r, l, if i < p then i else i + 1);
    } else {
      LookupNone(es, l);
      LookupNone(r, l);
    }
  }

  lemma MergedLookup(es: seq<Entry>, x: Entry, l: nat)
    requires GoodExtents(es) && GoodEntry(x) && Apart(es, x) && es != []
    requires CanMerge(es[FindSlot(es, x.first)], x) && !LosesFlag(es, x)
    ensures Lookup(Inserted(es, x), l) == Updated(es, x, l)
  {
    var p, r := FindSlot(es, x.first), Inserted(es, x);
    InsertedGood(es, x);
    assert GoodEntry(es[p]);
    MergeFlag(es[p], x);
    if Covers(r[p], l) {
      LookupAt(r, l, p);
      if !Covers(x, l) {
        LookupAt(es, l, p);
      }
    } else if i :| 0 <= i < |es| && Covers(es[i], l) {
      LookupAt(es, l, i);
      LookupAt(r, l, i);
    } else {
      LookupNone(es, l);
      LookupNone(r, l);
    }
  }

  /** Inserting is exactly a map update unless a merge makes an unwritten run of 32768 blocks. */
  lemma InsertedLookup(es: seq<Entry>, x: Entry, l: nat)
    requires GoodExtents(es) && GoodEntry(x) && Apart(es, x) && !LosesFlag(es, x)
    ensures Lookup(Inserted(es, x), l) == Updated(es, x, l)
  {
    if es == [] {
      LookupNone([], l);
      assert [x][1..] == [];
    } else if CanMerge(es[FindSlot(es, x.first)], x) {
      MergedLookup(es, x, l);
    } else {
      SortedInsertLookup(es, x, l);
    }
  }

  /** Such a merge makes every block of the run read as initialised. */
  lemma FlagLost(es: seq<Entry>, x: Entry)
    requires GoodExtents(es) && GoodEntry(x) && Apart(es, x) && LosesFlag(es, x)
    ensures Lookup(Inserted(es, x), x.first) == Some(Mapping(x.ptr, false))
    ensures Updated(es, x, x.first) == Some(Mapping(x.ptr, true))
  {
    var p, r := FindSlot(es, x.first), Inserted(es, x);
    InsertedGood(es, x);
    assert GoodEntry(es[p]);
    MergeFlag(es[p], x);
    LookupAt(r, x.first, p);
  }

  /** Exactly when inserting is a map update, for every list and every new extent apart from it. */
  lemma InsertIsUpdateIff(es: seq<Entry>, x: Entry)
    requires GoodExtents(es) && GoodEntry(x) && Apart(es, x)
    ensures (forall l: nat :: Lookup(Inserted(es, x), l) == Updated(es, x, l)) <==> !LosesFlag(es, x)
  {
    if LosesFlag(es, x) {
      FlagLost(es, x);
    } else {
      forall l: nat
        ensures Lookup(Inserted(es, x), l) == Updated(es, x, l)
      {
        InsertedLookup(es, x, l);
      }
    }
  }

  /** Such insertions exist: two unwritten runs that together are 32768 blocks long. */
  lemma FlagLostWitness()
    ensures var es, x := [MakeExtent(0, 0x4000, 1, true)], MakeExtent(0x4000, 0x4000, 0x4001, true);
            GoodExtents(es) && GoodEntry(x) && Apart(es, x) && LosesFlag(es, x)
  {
    var es, x := [MakeExtent(0, 0x4000, 1, true)], MakeExtent(0x4000, 0x4000, 0x4001, true);
    assert FindSlot(es, x.first) == 0;
  }

  // ---- punching a hole ------------------------------------------------------------------------------

  predicate StrictlyInside(e: Entry, from: nat, to: nat) {
    e.first < from <= to && to + 1 < End(e)
  }

  function HeadOf(e: Entry, from: nat): Entry
    requires e.first < from < End(e)
  {
    MakeExtent(e.first, from - e.first, e.ptr, IsUnwritten(e))
  }

  function TailOf(e: Entry, to: nat): Entry
    requires e.first <= to && to + 1 < End(e) <= 0xFFFF_FFFF
  {
    MakeExtent(to + 1, End(e) - 1 - to, e.ptr + (to + 1 - e.first), IsUnwritten(e))
  }

  /** Extent `g` split into what is in front of `from` and what is behind `to`. */
  function Punched(es: seq<Entry>, g: nat, from: nat, to: nat): seq<Entry>
    requires g < |es| && StrictlyInside(es[g], from, to) && GoodEntry(es[g])
  {
    InsertAt(es[g := HeadOf(es[g], from)], g + 1, TailOf(es[g], to))
  }

  /** Both parts keep the physical run and the unwritten flag. */
  lemma PartsFacts(e: Entry, from: nat, to: nat)
    requires GoodEntry(e) && StrictlyInside(e, from, to)
    ensures var h, t := HeadOf(e, from), TailOf(e, to);
            && GoodEntry(h) && GoodEntry(t) && h.first == e.first && End(h) == from && t.first == to + 1
                && End(t) == End(e)
            && IsUnwritten(h) == IsUnwritten(t) == IsUnwritten(e) && !CanMerge(h, t)
            && h.ptr == e.ptr && t.ptr == e.ptr + (to + 1 - e.first)
  {
  }

  /** Shrinking to the head and inserting the tail is the punched list. */
  lemma PunchByInsert(es: seq<Entry>, g: nat, from: nat, to: nat)
    requires GoodExtents(es) && g < |es| && GoodEntry(es[g]) && StrictlyInside(es[g], from, to)
    ensures var hs, t := es[g := HeadOf(es[g], from)], TailOf(es[g], to);
            && GoodExtents(hs) && GoodEntry(t) && Apart(hs, t)
            && Inserted(hs, t) == Punched(es, g, from, to) && !LosesFlag(hs, t)
  {
    hide FindSlot, SortedPos, HeadOf, TailOf, CanMerge;
    PartsFacts(es[g], from, to);
    var hs, t := es[g := HeadOf(es[g], from)], TailOf(es[g], to);
    ShrunkGood(es, g, HeadOf(es[g], from));
    forall i | 0 <= i < |hs|
      ensures End(hs[i]) <= t.first || End(t) <= hs[i].first
    {
      if i < g {
        assert GoodEntry(es[i]) && End(es[i]) <= es[g].first;
      } else if i > g {
        assert End(es[g]) <= es[i].first;
      }
    }
    GoodIsSorted(hs);
    assert g + 1 < |hs| ==> End(es[g]) <= es[g + 1].first;
    FindSlotUnique(hs, t.first, g);
    SortedPosUnique(hs, t.first, g + 1);
  }

  lemma ShrunkGood(es: seq<Entry>, g: nat, h: Entry)
    requires GoodExtents(es) && g < |es| && GoodEntry(h) && h.first == es[g].first && End(h) <= End(es[g])
    ensures GoodExtents(es[g := h])
  {
    hide GoodEntry, End;
    var hs := es[g := h];
    forall i, j | 0 <= i < j < |hs|
      ensures End(hs[i]) <= hs[j].first
    {
      assert End(es[i]) <= es[j].first;
    }
  }

  /** Punching unmaps exactly the hole: the kept blocks map as before, flags included. */
  lemma PunchedLookup(es: seq<Entry>, g: nat, from: nat, to: nat, l: nat)
    requires GoodExtents(es) && g < |es| && GoodEntry(es[g]) && StrictlyInside(es[g], from, to)
    ensures GoodExtents(Punched(es, g, from, to))
    ensures Lookup(Punched(es, g, from, to), l) == if from <= l <= to then None else Lookup(es, l)
  {
    var e, hs, t := es[g], es[g := HeadOf(es[g], from)], TailOf(es[g], to);
    PunchParts(es, g, from, to, l);
    PunchByInsert(es, g, from, to);
    InsertedGood(hs, t);
    InsertedLookup(hs, t, l);
  }

  lemma PunchParts(es: seq<Entry>, g: nat, from: nat, to: nat, l: nat)
    requires GoodExtents(es) && g < |es| && GoodEntry(es[g]) && StrictlyInside(es[g], from, to)
    ensures Updated(es[g := HeadOf(es[g], from)], TailOf(es[g], to), l) == if from <= l <= to then None
            else Lookup(es, l)
  {
    hide CanMerge;
    var e, h, t := es[g], HeadOf(es[g], from), TailOf(es[g], to);
    var hs := es[g := h];
    PartsFacts(e, from, to);
    ShrunkGood(es, g, h);
    hide HeadOf, TailOf, GoodEntry;
    if Covers(e, l) {
      LookupAt(es, l, g);
      forall i | 0 <= i < |es| && i != g
        ensures !Covers(es[i], l)
      {
        if i < g {
          assert End(es[i]) <= e.first;
        } else {
          assert End(e) <= es[i].first;
        }
      }
      if Covers(h, l) {
        LookupAt(hs, l, g);
      } else {
        LookupNone(hs, l);
      }
    } else if i :| 0 <= i < |es| && Covers(es[i], l) {
      LookupAt(es, l, i);
      LookupAt(hs, l, i);
    } else {
      LookupNone(es, l);
      LookupNone(hs, l);
    }
  }
}
