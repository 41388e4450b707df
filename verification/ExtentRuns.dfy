/** Freshly allocated blocks as extents: contiguous segments, split at the longest length an extent can have. */
module ExtentRuns {
  import opened Bytes
  import opened Outcome
  import opened Records
  import opened Extents

  function MaxLen(unwritten: bool): nat {
    if unwritten then EXT_INIT_MAX_LEN - 1 else EXT_INIT_MAX_LEN
  }

  predicate Consecutive(blocks: seq<nat>) {
    forall j :: 0 <= j < |blocks| ==> blocks[j] == blocks[0] + j
  }

  /** The physically contiguous segments of an allocation. */
  function Segments(blocks: seq<nat>): seq<seq<nat>> {
    if |blocks| <= 1 then [blocks]
    else
      var s, b := Segments(blocks[..|blocks| - 1]), blocks[|blocks| - 1];
      if b == blocks[|blocks| - 2] + 1 && s != [] then s[..|s| - 1] + [s[|s| - 1] + [b]] else s + [[b]]
  }

  function Concat(segs: seq<seq<nat>>): seq<nat> {
    if segs == [] then [] else Concat(segs[..|segs| - 1]) + segs[|segs| - 1]
  }

  predicate OneRun(seg: seq<nat>) {
    seg != [] && Consecutive(seg)
  }

  lemma LongerRun(seg: seq<nat>, b: nat)
    requires OneRun(seg) && b == seg[|seg| - 1] + 1
    ensures OneRun(seg + [b])
  {
  }

  lemma ConcatLast(s: seq<seq<nat>>, seg: seq<nat>)
    ensures Concat(s + [seg]) == Concat(s) + seg
  {
    assert (s + [seg])[..|s|] == s;
  }

  /** The segments of `blocks`: each one run on disk, together the allocation, in order. */
  predicate Grouped(s: seq<seq<nat>>, blocks: seq<nat>) {
    && s != [] && blocks != [] && Concat(s) == blocks && (forall i :: 0 <= i < |s| ==> OneRun(s[i]))
    && s[|s| - 1][|s[|s| - 1]| - 1] == blocks[|blocks| - 1]
  }

  lemma GroupedLonger(s: seq<seq<nat>>, blocks: seq<nat>, b: nat)
    requires Grouped(s, blocks) && b == blocks[|blocks| - 1] + 1
    ensures Grouped(s[..|s| - 1] + [s[|s| - 1] + [b]], blocks + [b])
  {
    hide Consecutive, Concat;
    var front, last := s[..|s| - 1], s[|s| - 1];
    assert s == front + [last] && OneRun(last);
    LongerRun(last, b);
    ConcatLast(front, last);
    ConcatLast(front, last + [b]);
    assert Concat(front) + (last + [b]) == Concat(front) + last + [b];
  }

  lemma GroupedMore(s: seq<seq<nat>>, blocks: seq<nat>, b: nat)
    requires Grouped(s, blocks)
    ensures Grouped(s + [[b]], blocks + [b])
  {
    hide Consecutive, Concat;
    SingleRun([b]);
    ConcatLast(s, [b]);
  }

  lemma GroupedOne(blocks: seq<nat>)
    requires |blocks| == 1
    ensures Grouped([blocks], blocks)
  {
    SingleRun(blocks);
    assert [blocks][..0] == [] && [] + blocks == blocks;
  }

  lemma {:induction false} SegmentsFacts(blocks: seq<nat>)
    requires blocks != []
    ensures Grouped(Segments(blocks), blocks)
  {
    hide Grouped;
    if |blocks| == 1 {
      GroupedOne(blocks);
    } else {
      var init, b := blocks[..|blocks| - 1], blocks[|blocks| - 1];
      SegmentsFacts(init);
      assert blocks == init + [b];
      GroupedSome(Segments(init), init);
      if b == init[|init| - 1] + 1 {
        GroupedLonger(Segments(init), init, b);
      } else {
        GroupedMore(Segments(init), init, b);
      }
    }
  }

  /** No segment goes on where the one before it ends, so each is as long as it can be. */
  predicate Maximal(s: seq<seq<nat>>) {
    && (forall i :: 0 <= i < |s| ==> s[i] != [])
    && forall i :: 0 <= i < |s| - 1 ==> s[i + 1][0] != s[i][|s[i]| - 1] + 1
  }

  lemma {:induction false} SegmentsMaximal(blocks: seq<nat>)
    requires blocks != []
    ensures Maximal(Segments(blocks))
  {
    hide Maximal, Grouped;
    if |blocks| == 1 {
      MaximalOne(blocks);
    } else {
      var init, b := blocks[..|blocks| - 1], blocks[|blocks| - 1];
      SegmentsFacts(init);
      SegmentsMaximal(init);
      GroupedSome(Segments(init), init);
      MaximalMore(Segments(init), init, b);
    }
  }

  lemma MaximalOne(seg: seq<nat>)
    requires seg != []
    ensures Maximal([seg])
  {
  }

  lemma MaximalMore(s: seq<seq<nat>>, blocks: seq<nat>, b: nat)
    requires Grouped(s, blocks) && Maximal(s)
    ensures Maximal(s[..|s| - 1] + [s[|s| - 1] + [b]])
    ensures b != blocks[|blocks| - 1] + 1 ==> Maximal(s + [[b]])
  {
    hide Concat, OneRun;
  }

  lemma GroupedSome(s: seq<seq<nat>>, blocks: seq<nat>)
    requires Grouped(s, blocks)
    ensures s != []
  {
  }

  lemma SingleRun(seg: seq<nat>)
    requires |seg| == 1
    ensures OneRun(seg)
  {
  }

  /** A segment as extents. */
  function Split(first: nat, seg: seq<nat>, unwritten: bool): seq<Entry>
    requires first + |seg| <= 0xFFFF_FFFF
    decreases |seg|
  {
    if seg == [] then []
    else
      var n := if |seg| < MaxLen(unwritten) then |seg| else MaxLen(unwritten);
      [MakeExtent(first, n, seg[0], unwritten)] + Split(first + n, seg[n..], unwritten)
  }

  function Total(segs: seq<seq<nat>>): nat {
    if segs == [] then 0 else |segs[0]| + Total(segs[1..])
  }

  function Pieces(first: nat, segs: seq<seq<nat>>, unwritten: bool): seq<Entry>
    requires first + Total(segs) <= 0xFFFF_FFFF
    decreases |segs|
  {
    if segs == [] then [] else Split(first, segs[0], unwritten) + Pieces(first + |segs[0]|, segs[1..], unwritten)
  }

  // ---- what a list of extents describes -----------------------------------------------------------------

  /** The extents map `blocks` one after the other from `first` on. */
  ghost predicate Runs(ps: seq<Entry>, first: nat, blocks: seq<nat>, unwritten: bool)
    decreases |ps|
  {
    if ps == [] then blocks == []
    else
      var n := ActualLen(ps[0]);
      && 0 < n <= |blocks| && ps[0].first == first && ps[0].ptr == blocks[0] && IsUnwritten(ps[0]) == unwritten
      && Consecutive(blocks[..n]) && Runs(ps[1..], first + n, blocks[n..], unwritten)
  }

  /** One extent in front of a list. */
  predicate FirstRun(x: Entry, first: nat, blocks: seq<nat>, unwritten: bool) {
    var n := ActualLen(x);
    && 0 < n <= |blocks| && x.first == first && x.ptr == blocks[0] && IsUnwritten(x) == unwritten
        && Consecutive(blocks[..n])
  }

  lemma RunsCons(x: Entry, rest: seq<Entry>, first: nat, blocks: seq<nat>, unwritten: bool)
    requires FirstRun(x, first, blocks, unwritten)
    requires Runs(rest, first + ActualLen(x), blocks[ActualLen(x)..], unwritten)
    ensures Runs([x] + rest, first, blocks, unwritten)
  {
    hide Consecutive, IsUnwritten, ActualLen;
    assert ([x] + rest)[1..] == rest;
  }

  lemma ConsecutiveParts(seg: seq<nat>, n: nat)
    requires Consecutive(seg) && n <= |seg|
    ensures Consecutive(seg[..n]) && Consecutive(seg[n..])
  {
    assert forall j :: 0 <= j < |seg[n..]| ==> seg[n..][j] == seg[0] + n + j;
  }

  lemma {:induction false} SplitRuns(first: nat, seg: seq<nat>, unwritten: bool)
    requires first + |seg| <= 0xFFFF_FFFF && Consecutive(seg)
    ensures Runs(Split(first, seg, unwritten), first, seg, unwritten)
    decreases |seg|
  {
    hide Consecutive, Runs;
    if seg == [] {
      NoRuns(first, unwritten);
    } else {
      var n := if |seg| < MaxLen(unwritten) then |seg| else MaxLen(unwritten);
      ConsecutiveParts(seg, n);
      SplitRuns(first + n, seg[n..], unwritten);
      RunsCons(MakeExtent(first, n, seg[0], unwritten), Split(first + n, seg[n..], unwritten), first, seg, unwritten);
    }
  }

  lemma NoRuns(first: nat, unwritten: bool)
    ensures Runs([], first, [], unwritten)
  {
  }

  lemma {:induction false} RunsConcat(a: seq<Entry>, b: seq<Entry>, first: nat, x: seq<nat>, y: seq<nat>,
      unwritten: bool)
    requires Runs(a, first, x, unwritten) && Runs(b, first + |x|, y, unwritten)
    ensures Runs(a + b, first, x + y, unwritten)
    decreases |a|
  {
    hide Runs, FirstRun, ActualLen;
    if a == [] {
      RunsEmpty(a, first, x, unwritten);
      assert a + b == b && x + y == y;
    } else {
      RunsFirst(a, first, x, unwritten);
      var n: nat := ActualLen(a[0]);
      var rest, left := a[1..], x[n..];
      RunsConcat(rest, b, first + n, left, y, unwritten);
      FirstRunMore(a[0], first, x, y, unwritten);
      assert (x + y)[n..] == left + y;
      RunsCons(a[0], rest + b, first, x + y, unwritten);
      assert [a[0]] + (rest + b) == a + b;
    }
  }

  lemma RunsEmpty(ps: seq<Entry>, first: nat, blocks: seq<nat>, unwritten: bool)
    requires ps == [] && Runs(ps, first, blocks, unwritten)
    ensures blocks == []
  {
  }

  lemma RunsFirst(ps: seq<Entry>, first: nat, blocks: seq<nat>, unwritten: bool)
    requires ps != [] && Runs(ps, first, blocks, unwritten)
    ensures FirstRun(ps[0], first, blocks, unwritten) && ActualLen(ps[0]) <= |blocks|
    ensures Runs(ps[1..], first + ActualLen(ps[0]), blocks[ActualLen(ps[0])..], unwritten)
  {
  }

  lemma FirstRunMore(e: Entry, first: nat, x: seq<nat>, y: seq<nat>, unwritten: bool)
    requires FirstRun(e, first, x, unwritten)
    ensures FirstRun(e, first, x + y, unwritten)
  {
    assert (x + y)[..ActualLen(e)] == x[..ActualLen(e)];
  }

  function Joined(segs: seq<seq<nat>>): seq<nat> {
    if segs == [] then [] else segs[0] + Joined(segs[1..])
  }

  lemma {:induction false} JoinedLast(segs: seq<seq<nat>>, x: seq<nat>)
    ensures Joined(segs + [x]) == Joined(segs) + x
  {
    if segs == [] {
      assert ([] + [x])[1..] == [];
    } else {
      assert (segs + [x])[1..] == segs[1..] + [x];
      JoinedLast(segs[1..], x);
    }
  }

  lemma {:induction false} JoinedIsConcat(segs: seq<seq<nat>>)
    ensures Joined(segs) == Concat(segs)
  {
    if segs != [] {
      JoinedIsConcat(segs[..|segs| - 1]);
      JoinedLast(segs[..|segs| - 1], segs[|segs| - 1]);
      assert segs == segs[..|segs| - 1] + [segs[|segs| - 1]];
    }
  }

  lemma {:induction false} TotalJoined(segs: seq<seq<nat>>)
    ensures Total(segs) == |Joined(segs)|
  {
    if segs != [] {
      TotalJoined(segs[1..]);
    }
  }

  lemma {:induction false} PiecesRuns(first: nat, segs: seq<seq<nat>>, unwritten: bool)
    requires first + Total(segs) <= 0xFFFF_FFFF && forall i :: 0 <= i < |segs| ==> OneRun(segs[i])
    ensures Runs(Pieces(first, segs, unwritten), first, Joined(segs), unwritten)
    decreases |segs|
  {
    if segs != [] {
      SplitRuns(first, segs[0], unwritten);
      PiecesRuns(first + |segs[0]|, segs[1..], unwritten);
      RunsConcat(Split(first, segs[0], unwritten), Pieces(first + |segs[0]|, segs[1..], unwritten), first, segs[0],
          Joined(segs[1..]), unwritten);
    }
  }

  /** The extents an allocation becomes. */
  function BatchPieces(first: nat, blocks: seq<nat>, unwritten: bool): seq<Entry>
    requires first + |blocks| <= 0xFFFF_FFFF && blocks != []
  {
    BatchTotal(blocks);
    Pieces(first, Segments(blocks), unwritten)
  }

  lemma BatchTotal(blocks: seq<nat>)
    requires blocks != []
    ensures Total(Segments(blocks)) == |blocks| && Joined(Segments(blocks)) == blocks
  {
    SegmentsFacts(blocks);
    JoinedIsConcat(Segments(blocks));
    TotalJoined(Segments(blocks));
  }

  lemma BatchRuns(first: nat, blocks: seq<nat>, unwritten: bool)
    requires first + |blocks| <= 0xFFFF_FFFF && blocks != []
    ensures Runs(BatchPieces(first, blocks, unwritten), first, blocks, unwritten)
  {
    BatchTotal(blocks);
    SegmentsFacts(blocks);
    PiecesRuns(first, Segments(blocks), unwritten);
  }

  // ---- inserting them all ------------------------------------------------------------------------------------

  function InsertAll(es: seq<Entry>, ps: seq<Entry>): seq<Entry>
    decreases |ps|
  {
    if ps == [] then es else InsertAll(Inserted(es, ps[0]), ps[1..])
  }

  /** Some insertion of the batch makes an unwritten run of exactly 32768 blocks, and drops its flag. */
  predicate Loses(es: seq<Entry>, ps: seq<Entry>)
    decreases |ps|
  {
    ps != [] && (LosesFlag(es, ps[0]) || Loses(Inserted(es, ps[0]), ps[1..]))
  }

  /** Nothing is mapped in `[lo, hi)`. */
  predicate FreeRange(es: seq<Entry>, lo: nat, hi: nat) {
    forall i :: 0 <= i < |es| ==> End(es[i]) <= lo || hi <= es[i].first
  }

  lemma NextPiece(es: seq<Entry>, ps: seq<Entry>, first: nat, blocks: seq<nat>, unwritten: bool)
    requires GoodExtents(es) && FreeRange(es, first, first + |blocks|) && first + |blocks| <= 0xFFFF_FFFF
    requires forall j :: 0 <= j < |blocks| ==> blocks[j] > 0
    requires ps != [] && Runs(ps, first, blocks, unwritten)
    ensures GoodEntry(ps[0]) && Apart(es, ps[0]) && ps[0].first == first && 0 < ActualLen(ps[0]) <= |blocks|
    ensures GoodExtents(Inserted(es, ps[0]))
    ensures FreeRange(Inserted(es, ps[0]), first + ActualLen(ps[0]), first + |blocks|)
    ensures Runs(ps[1..], first + ActualLen(ps[0]), blocks[ActualLen(ps[0])..], unwritten)
  {
    hide FindSlot, SortedPos;
    var x := ps[0];
    assert Apart(es, x);
    InsertedGood(es, x);
    var r := Inserted(es, x);
    forall i | 0 <= i < |r|
      ensures End(r[i]) <= End(x) || first + |blocks| <= r[i].first
    {
      InsertedMember(es, x, i);
    }
  }

  /** What is in the list after an insertion was there, or is the new extent or ends with it. */
  lemma InsertedMember(es: seq<Entry>, x: Entry, i: nat)
    requires GoodExtents(es) && GoodEntry(x) && Apart(es, x) && i < |Inserted(es, x)|
    ensures Inserted(es, x)[i] in es || End(Inserted(es, x)[i]) == End(x)
  {
    hide FindSlot;
    if es != [] && CanMerge(es[FindSlot(es, x.first)], x) {
      var p := FindSlot(es, x.first);
      assert GoodEntry(es[p]);
      MergeFlag(es[p], x);
    } else if es != [] {
      SortedPosFacts(es, x.first);
    }
  }

  /** The map before, with the batch on its range. */
  function BatchUpdated(es: seq<Entry>, first: nat, blocks: seq<nat>, unwritten: bool, l: nat): Option<Mapping> {
    if first <= l < first + |blocks| then Some(Mapping(blocks[l - first], unwritten)) else Lookup(es, l)
  }

  lemma {:induction false} BatchLookup(es: seq<Entry>, ps: seq<Entry>, first: nat, blocks: seq<nat>, unwritten: bool,
      l: nat)
    requires GoodExtents(es) && FreeRange(es, first, first + |blocks|) && first + |blocks| <= 0xFFFF_FFFF
    requires forall j :: 0 <= j < |blocks| ==> blocks[j] > 0
    requires Runs(ps, first, blocks, unwritten) && !Loses(es, ps)
    ensures Lookup(InsertAll(es, ps), l) == BatchUpdated(es, first, blocks, unwritten, l)
    decreases |ps|
  {
    hide FindSlot, SortedPos, Lookup, GoodExtents, FreeRange, Inserted, LosesFlag;
    if ps != [] {
      NextPiece(es, ps, first, blocks, unwritten);
      var n := ActualLen(ps[0]);
      assert blocks[..n][0] == blocks[0];
      BatchLookup(Inserted(es, ps[0]), ps[1..], first + n, blocks[n..], unwritten, l);
      InsertedLookup(es, ps[0], l);
      if first <= l < first + n {
        assert blocks[..n][l - first] == blocks[l - first];
      }
    }
  }

  /** An initialised block never turns unwritten by an insertion elsewhere. */
  lemma InitialisedStays(es: seq<Entry>, x: Entry, l: nat)
    requires GoodExtents(es) && GoodEntry(x) && Apart(es, x) && !Covers(x, l)
    requires Lookup(es, l).Some? && !Lookup(es, l).value.unwritten
    ensures Lookup(Inserted(es, x), l) == Lookup(es, l)
  {
    if LosesFlag(es, x) {
      var p := FindSlot(es, x.first);
      var r := Inserted(es, x);
      InsertedGood(es, x);
      assert GoodEntry(es[p]);
      var i := CoveringSlot(es, l);
      LookupAt(es, l, i);
      LookupAt(r, l, i);
    } else {
      InsertedLookup(es, x, l);
    }
  }

  lemma CoveringSlot(es: seq<Entry>, l: nat) returns (i: nat)
    requires Lookup(es, l).Some?
    ensures i < |es| && Covers(es[i], l)
  {
    if j :| 0 <= j < |es| && Covers(es[j], l) {
      i := j;
    } else {
      LookupNone(es, l);
    }
  }

  lemma {:induction false} BatchKeepsInitialised(es: seq<Entry>, ps: seq<Entry>, first: nat, blocks: seq<nat>,
      unwritten: bool, l: nat)
    requires GoodExtents(es) && FreeRange(es, first, first + |blocks|) && first + |blocks| <= 0xFFFF_FFFF
    requires forall j :: 0 <= j < |blocks| ==> blocks[j] > 0
    requires Runs(ps, first, blocks, unwritten) && l < first
    requires Lookup(es, l).Some? && !Lookup(es, l).value.unwritten
    ensures Lookup(InsertAll(es, ps), l) == Lookup(es, l)
    decreases |ps|
  {
    hide FindSlot, SortedPos, Lookup, GoodExtents, FreeRange, Inserted, LosesFlag;
    if ps != [] {
      NextPiece(es, ps, first, blocks, unwritten);
      InitialisedStays(es, ps[0], l);
      var n := ActualLen(ps[0]);
      BatchKeepsInitialised(Inserted(es, ps[0]), ps[1..], first + n, blocks[n..], unwritten, l);
    }
  }

  /** A dropped flag shows: some block of the batch reads as initialised. */
  lemma {:induction false} LossShows(es: seq<Entry>, ps: seq<Entry>, first: nat, blocks: seq<nat>,
      unwritten: bool) returns (l: nat)
    requires GoodExtents(es) && FreeRange(es, first, first + |blocks|) && first + |blocks| <= 0xFFFF_FFFF
    requires forall j :: 0 <= j < |blocks| ==> blocks[j] > 0
    requires Runs(ps, first, blocks, unwritten) && Loses(es, ps)
    ensures unwritten && first <= l < first + |blocks|
    ensures Lookup(InsertAll(es, ps), l).Some? && !Lookup(InsertAll(es, ps), l).value.unwritten
    decreases |ps|
  {
    hide FindSlot, SortedPos, Lookup, GoodExtents, FreeRange, Inserted;
    NextPiece(es, ps, first, blocks, unwritten);
    var n := ActualLen(ps[0]);
    if LosesFlag(es, ps[0]) {
      l := first;
      FlagLost(es, ps[0]);
      BatchKeepsInitialised(Inserted(es, ps[0]), ps[1..], first + n, blocks[n..], unwritten, l);
    } else {
      l := LossShows(Inserted(es, ps[0]), ps[1..], first + n, blocks[n..], unwritten);
    }
  }

  /** Exactly when a batch maps every block as asked and nothing else. */
  lemma BatchIsUpdateIff(es: seq<Entry>, first: nat, blocks: seq<nat>, unwritten: bool)
    requires GoodExtents(es) && blocks != [] && FreeRange(es, first, first + |blocks|)
    requires first + |blocks| <= 0xFFFF_FFFF
    requires forall j :: 0 <= j < |blocks| ==> blocks[j] > 0
    ensures var ps := BatchPieces(first, blocks, unwritten);
            (forall l: nat :: Lookup(InsertAll(es, ps), l) == BatchUpdated(es, first, blocks, unwritten, l)) <==>
                !Loses(es, ps)
  {
    hide Lookup, GoodExtents, FreeRange, Loses, InsertAll, BatchPieces;
    var ps := BatchPieces(first, blocks, unwritten);
    BatchRuns(first, blocks, unwritten);
    if Loses(es, ps) {
      var l := LossShows(es, ps, first, blocks, unwritten);
      assert Lookup(InsertAll(es, ps), l) != BatchUpdated(es, first, blocks, unwritten, l);
    } else {
      forall l: nat
        ensures Lookup(InsertAll(es, ps), l) == BatchUpdated(es, first, blocks, unwritten, l)
      {
        BatchLookup(es, ps, first, blocks, unwritten, l);
      }
    }
  }

  /** Initialised batches always map as asked. */
  lemma {:induction false} InitialisedNeverLoses(es: seq<Entry>, ps: seq<Entry>, first: nat, blocks: seq<nat>)
    requires Runs(ps, first, blocks, false)
    ensures !Loses(es, ps)
    decreases |ps|
  {
    if ps != [] {
      var n := ActualLen(ps[0]);
      InitialisedNeverLoses(Inserted(es, ps[0]), ps[1..], first + n, blocks[n..]);
    }
  }

  /** One contiguous run of 32768 preallocated blocks: split at 32767, merged again, and no longer unwritten. */
  lemma LongRunLoses(blocks: seq<nat>, ptr: nat)
    requires |blocks| == EXT_INIT_MAX_LEN && ptr > 0 && forall j :: 0 <= j < |blocks| ==> blocks[j] == ptr + j
    ensures Loses([], BatchPieces(0, blocks, true))
  {
    hide Segments;
    OneSegment(blocks, ptr);
    var m := EXT_INIT_MAX_LEN - 1;
    var a, b := MakeExtent(0, m, ptr, true), MakeExtent(m, 1, ptr + m, true);
    BatchTotal(blocks);
    assert blocks[m..][1..] == [] && blocks[m..][0] == ptr + m;
    assert Split(0, blocks, true) == [a] + Split(m, blocks[m..], true);
    assert Split(m, blocks[m..], true) == [b] + Split(m + 1, blocks[m..][1..], true);
    assert Pieces(0, [blocks], true) == Split(0, blocks, true) + Pieces(|blocks|, [blocks][1..], true);
    assert BatchPieces(0, blocks, true) == [a, b];
    assert [a, b][1..] == [b] && Inserted([], a) == [a];
    assert FindSlot([a], b.first) == 0 && CanMerge(a, b);
    assert LosesFlag([a], b);
  }

  lemma {:induction false} OneSegment(blocks: seq<nat>, ptr: nat)
    requires blocks != [] && forall j :: 0 <= j < |blocks| ==> blocks[j] == ptr + j
    ensures Segments(blocks) == [blocks]
  {
    if |blocks| > 1 {
      OneSegment(blocks[..|blocks| - 1], ptr);
      assert blocks == blocks[..|blocks| - 1] + [blocks[|blocks| - 1]];
    }
  }

  /** Each extent of a batch starts with one of its blocks. */
  lemma {:induction false} RunsStart(ps: seq<Entry>, first: nat, blocks: seq<nat>, unwritten: bool, x: Entry)
    requires Runs(ps, first, blocks, unwritten) && x in ps
    ensures x.ptr in blocks
    decreases |ps|
  {
    if x != ps[0] {
      RunsStart(ps[1..], first + ActualLen(ps[0]), blocks[ActualLen(ps[0])..], unwritten, x);
    }
  }

  /** Nothing is mapped where no search finds anything. */
  lemma HoleIsFree(es: seq<Entry>, lo: nat, hi: nat)
    requires GoodExtents(es) && lo < hi && forall l: nat :: lo <= l < hi ==> Lookup(es, l) == None
    ensures FreeRange(es, lo, hi)
  {
    forall i | 0 <= i < |es|
      ensures End(es[i]) <= lo || hi <= es[i].first
    {
      assert GoodEntry(es[i]);
      if End(es[i]) > lo && hi > es[i].first {
        var l: nat := if es[i].first < lo then lo else es[i].first;
        LookupAt(es, l, i);
        assert false;
      }
    }
  }
}
