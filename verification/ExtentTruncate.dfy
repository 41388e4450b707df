/** Cutting off the end of a file whose extents all lie in the inode. */
module ExtentTruncate {
  import opened Bytes
  import opened Outcome
  import opened Records
  import opened Extents
  import opened TreeLevels
  import opened TreeShape
  import opened ExtentStore
  import opened ExtentTree
  import opened FileBytes
  import opened FileData
  import opened FreedRuns

  /** What is left of one extent when everything from `from` on goes. */
  function Rest(e: Entry, from: nat): seq<Entry> {
    if e.first >= from then [] else if End(e) <= from then [e] else [HeadOf(e, from)]
  }

  /** The physical blocks of one extent that go. */
  function Out(e: Entry, from: nat): seq<Run> {
    if End(e) <= from then []
    else if e.first < from then [Run(e.ptr + (from - e.first), End(e) - from)]
    else [Run(e.ptr, ActualLen(e))]
  }

  function Kept(es: seq<Entry>, from: nat): seq<Entry> {
    if es == [] then [] else Kept(es[..|es| - 1], from) + Rest(es[|es| - 1], from)
  }

  function Freed(es: seq<Entry>, from: nat): seq<Run> {
    if es == [] then [] else Freed(es[..|es| - 1], from) + Out(es[|es| - 1], from)
  }

  lemma Next(es: seq<Entry>, from: nat, i: nat)
    requires i < |es|
    ensures Kept(es[..i + 1], from) == Kept(es[..i], from) + Rest(es[i], from)
    ensures Freed(es[..i + 1], from) == Freed(es[..i], from) + Out(es[i], from)
  {
    assert es[..i + 1][..i] == es[..i];
  }

  /** What ends before the cut stays as it is. */
  lemma {:induction false} AllKept(es: seq<Entry>, from: nat, i: nat)
    requires i <= |es| && forall j :: 0 <= j < i ==> End(es[j]) <= from && GoodEntry(es[j])
    ensures Kept(es[..i], from) == es[..i] && Freed(es[..i], from) == []
  {
    hide Rest, Out, End, GoodEntry, Kept, Freed;
    if i > 0 {
      var k := i - 1;
      AllKept(es, from, k);
      Next(es, from, k);
      WholeRest(es[k], from);
      assert es[..i] == es[..k] + [es[k]];
    } else {
      NoneKept(es[..0], from);
    }
  }

  lemma NoneKept(es: seq<Entry>, from: nat)
    requires es == []
    ensures Kept(es, from) == [] && Freed(es, from) == []
  {
  }

  lemma WholeRest(e: Entry, from: nat)
    requires GoodEntry(e) && End(e) <= from
    ensures Rest(e, from) == [e] && Out(e, from) == []
  {
  }

  /** While something of an extent stays, everything in front of it stays whole. */
  lemma Position(es: seq<Entry>, from: nat, i: nat)
    requires GoodExtents(es) && i < |es| && Rest(es[i], from) != []
    ensures Kept(es[..i], from) == es[..i]
  {
    forall j | 0 <= j < i
      ensures End(es[j]) <= from && GoodEntry(es[j])
    {
      assert End(es[j]) <= es[i].first;
    }
    AllKept(es, from, i);
  }

  lemma AppendGood(ks: seq<Entry>, x: Entry)
    requires GoodExtents(ks) && GoodEntry(x) && forall i :: 0 <= i < |ks| ==> End(ks[i]) <= x.first
    ensures GoodExtents(ks + [x])
  {
    hide GoodEntry, End;
  }

  /** What stays is a list of extents again, and it ends before the cut. */
  lemma {:induction false} KeptGood(es: seq<Entry>, from: nat)
    requires GoodExtents(es)
    ensures GoodExtents(Kept(es, from)) && |Kept(es, from)| <= |es|
    ensures forall i :: 0 <= i < |Kept(es, from)| ==> End(Kept(es, from)[i]) <= from
  {
    hide HeadOf, End, GoodEntry, Rest;
    if es != [] {
      var n := |es| - 1;
      var last := es[n];
      KeptGood(es[..n], from);
      Next(es, from, n);
      assert es[..n + 1] == es && es[n] == last;
      RestKinds(last, from);
      if last.first < from {
        CutGood(last, from);
        Position(es, from, n);
        var x := Rest(last, from)[0];
        forall i | 0 <= i < n
          ensures End(es[i]) <= x.first
        {
          assert End(es[i]) <= last.first;
        }
        AppendGood(es[..n], x);
        assert Rest(last, from) == [x];
      } else {
        assert Kept(es[..n], from) + [] == Kept(es[..n], from);
      }
    }
  }

  lemma RestKinds(e: Entry, from: nat)
    ensures e.first >= from ==> Rest(e, from) == []
    ensures |Rest(e, from)| <= 1
  {
  }

  lemma CutGood(e: Entry, from: nat)
    requires GoodEntry(e) && e.first < from
    ensures Rest(e, from) != []
    ensures var x := Rest(e, from)[0];
            GoodEntry(x) && x.first == e.first && End(x) == (if End(e) <= from then End(e) else from)
                && IsUnwritten(x) == IsUnwritten(e) && x.ptr == e.ptr
  {
  }

  predicate MapsTo(es: seq<Entry>, l: nat, b: nat) {
    Lookup(es, l).Some? && Lookup(es, l).value.block == b
  }

  /** The kept blocks map as before, flags included; nothing else is mapped. */
  lemma KeptLookup(es: seq<Entry>, from: nat, l: nat)
    requires GoodExtents(es)
    ensures Lookup(Kept(es, from), l) == if l < from then Lookup(es, l) else None
  {
    hide HeadOf, Rest;
    var ks := Kept(es, from);
    KeptGood(es, from);
    if l >= from {
      LookupNone(ks, l);
    } else if i :| 0 <= i < |es| && Covers(es[i], l) {
      LookupAt(es, l, i);
      KeptAt(es, from, i);
      LookupAt(ks, l, i);
    } else {
      forall i | 0 <= i < |ks|
        ensures !Covers(ks[i], l)
      {
        KeptFrom(es, from, i);
      }
      LookupNone(es, l);
      LookupNone(ks, l);
    }
  }

  /** An extent that starts before the cut is kept in its place, whole or cut. */
  lemma {:induction false} KeptAt(es: seq<Entry>, from: nat, i: nat)
    requires GoodExtents(es) && i < |es| && es[i].first < from
    ensures i < |Kept(es, from)|
    ensures var x := Kept(es, from)[i];
            x.first == es[i].first && End(x) == (if End(es[i]) <= from then End(es[i]) else from)
                && IsUnwritten(x) == IsUnwritten(es[i]) && x.ptr == es[i].ptr
    decreases |es|
  {
    hide HeadOf, End, GoodEntry, Rest, IsUnwritten;
    var n := |es| - 1;
    Next(es, from, n);
    assert es[..n + 1] == es && GoodEntry(es[i]);
    if i < n {
      KeptAt(es[..n], from, i);
    } else {
      CutGood(es[i], from);
      RestKinds(es[i], from);
      Position(es, from, i);
      assert Kept(es, from)[i] == Rest(es[i], from)[0];
    }
  }

  lemma {:induction false} KeptFrom(es: seq<Entry>, from: nat, i: nat)
    requires GoodExtents(es) && i < |Kept(es, from)|
    ensures i < |es| && es[i].first < from
    ensures Kept(es, from)[i].first == es[i].first && End(Kept(es, from)[i]) <= End(es[i])
    decreases |es|
  {
    hide HeadOf, End, GoodEntry, Rest, IsUnwritten;
    var n := |es| - 1;
    Next(es, from, n);
    assert es[..n + 1] == es && GoodEntry(es[n]);
    if i < |Kept(es[..n], from)| {
      KeptFrom(es[..n], from, i);
    } else {
      RestKinds(es[n], from);
      Position(es, from, n);
      CutGood(es[n], from);
      assert Kept(es, from)[i] == Rest(es[n], from)[0];
    }
  }

  /** The runs cut off hold exactly the physical blocks of the logical blocks from the cut on. */
  lemma FreedMeaning(es: seq<Entry>, from: nat, b: nat)
    requires GoodExtents(es)
    ensures InRuns(Freed(es, from), b) <==> BehindCut(es, from, b)
  {
    hide Lookup;
    if InRuns(Freed(es, from), b) {
      var i := FreedSource(es, from, b);
      assert GoodEntry(es[i]);
      var l: nat := es[i].first + (b - es[i].ptr);
      LookupAt(es, l, i);
      assert l >= from && MapsTo(es, l, b);
    }
    if l: nat :| l >= from && MapsTo(es, l, b) {
      var i := MappedSlot(es, l);
      LookupAt(es, l, i);
      FreedAt(es, from, i, b);
    }
  }

  lemma MappedSlot(es: seq<Entry>, l: nat) returns (i: nat)
    requires Lookup(es, l).Some?
    ensures i < |es| && Covers(es[i], l)
  {
    if j :| 0 <= j < |es| && Covers(es[j], l) {
      i := j;
    } else {
      LookupNone(es, l);
    }
  }

  /** Block `b` is one of those extent `e` loses. */
  predicate Lost(e: Entry, from: nat, b: nat) {
    e.ptr <= b < e.ptr + ActualLen(e) && e.first + (b - e.ptr) >= from
  }

  lemma OutMeaning(e: Entry, from: nat, b: nat)
    ensures InRuns(Out(e, from), b) <==> Lost(e, from, b)
  {
    if Lost(e, from, b) {
      assert InRun(Out(e, from)[0], b);
    }
  }

  lemma {:induction false} FreedSource(es: seq<Entry>, from: nat, b: nat) returns (i: nat)
    requires InRuns(Freed(es, from), b)
    ensures i < |es| && Lost(es[i], from, b)
  {
    hide Out;
    var n := |es| - 1;
    RunsConcat(Freed(es[..n], from), Out(es[n], from), b);
    OutMeaning(es[n], from, b);
    if Lost(es[n], from, b) {
      i := n;
    } else {
      i := FreedSource(es[..n], from, b);
    }
  }

  lemma {:induction false} FreedAt(es: seq<Entry>, from: nat, i: nat, b: nat)
    requires i < |es| && Lost(es[i], from, b)
    ensures InRuns(Freed(es, from), b)
  {
    hide Out;
    var n := |es| - 1;
    RunsConcat(Freed(es[..n], from), Out(es[n], from), b);
    OutMeaning(es[n], from, b);
    if i < n {
      FreedAt(es[..n], from, i, b);
    }
  }

  // ---- what reaches the allocator ---------------------------------------------------------------------------------

  /** Exactly the blocks that are unmapped by a cut at `from` are in these runs. */
  ghost predicate ExactlyFreed(es: seq<Entry>, from: nat, rs: seq<Run>) {
    forall b: nat :: InRuns(rs, b) <==> BehindCut(es, from, b)
  }

  ghost predicate BehindCut(es: seq<Entry>, from: nat, b: nat) {
    exists l: nat :: l >= from && MapsTo(es, l, b)
  }

  /** Two extents that lose the same block map two logical blocks to it. */
  lemma LostOnce(es: seq<Entry>, from: nat, i: nat, j: nat, b: nat)
    requires GoodExtents(es) && Injective(es) && i < j < |es| && Lost(es[i], from, b)
    ensures !Lost(es[j], from, b)
  {
    hide Lookup, Injective;
    assert GoodEntry(es[i]) && GoodEntry(es[j]) && End(es[i]) <= es[j].first;
    if Lost(es[j], from, b) {
      var l: nat, m: nat := es[i].first + (b - es[i].ptr), es[j].first + (b - es[j].ptr);
      LookupAt(es, l, i);
      LookupAt(es, m, j);
      SharedOnce(es, l, m);
    }
  }

  lemma SharedOnce(es: seq<Entry>, l: nat, m: nat)
    requires Injective(es) && SameBlock(es, l, m)
    ensures l == m
  {
  }

  lemma FreedLens(es: seq<Entry>, from: nat, i: nat)
    requires GoodExtents(es) && i < |es|
    ensures |Out(es[i], from)| <= 1
    ensures Out(es[i], from) != [] ==> Out(es[i], from)[0].len > 0
  {
    assert GoodEntry(es[i]);
  }

  /** While no two logical blocks share a physical one, neither do the runs cut off. */
  lemma {:induction false} FreedSeparate(es: seq<Entry>, from: nat, i: nat)
    requires GoodExtents(es) && Injective(es) && i <= |es|
    ensures AllSeparate(Freed(es[..i], from))
  {
    hide Out, Freed, Injective, GoodExtents, Lost, InRun, InRuns;
    if i == 0 {
      NoneKept(es[..0], from);
    } else {
      var k := i - 1;
      FreedSeparate(es, from, k);
      Next(es, from, k);
      FreedLens(es, from, k);
      var rs, more := Freed(es[..k], from), Out(es[k], from);
      forall a, b: nat | 0 <= a < |rs| && more != [] && InRun(rs[a], b)
        ensures !InRun(more[0], b)
      {
        MemberOf(rs, a, b);
        var j := FreedSource(es[..k], from, b);
        LostOnce(es, from, j, k, b);
        OutMeaning(es[k], from, b);
        NotIn(more, b);
      }
    }
  }

  lemma MemberOf(rs: seq<Run>, i: nat, b: nat)
    requires i < |rs| && InRun(rs[i], b)
    ensures InRuns(rs, b)
  {
  }

  lemma NotIn(rs: seq<Run>, b: nat)
    requires rs != [] && !InRuns(rs, b)
    ensures !InRun(rs[0], b)
  {
  }

  /**
   What the allocator is handed is what the cut unmaps if every run starts below 2^32; and where no two logical blocks
   share a physical one, only then.
   */
  lemma NarrowedMeaning(es: seq<Entry>, from: nat)
    requires GoodExtents(es)
    ensures var rs := Freed(es, from);
            && (Narrowed(rs) == rs <==> AllLow(rs))
            && (AllLow(rs) ==> ExactlyFreed(es, from, Narrowed(rs)))
            && (Injective(es) ==> (ExactlyFreed(es, from, Narrowed(rs)) <==> AllLow(rs)))
  {
    hide Freed, GoodExtents, Injective, InRuns, AllLow, Narrowed, BehindCut;
    var rs := Freed(es, from);
    LowSame(rs);
    forall b: nat
      ensures InRuns(rs, b) <==> BehindCut(es, from, b)
    {
      FreedMeaning(es, from, b);
    }
    if Injective(es) {
      assert es[..|es|] == es;
      FreedSeparate(es, from, |es|);
      NarrowExact(rs);
    }
  }

  /** Where nothing is mapped behind the cut, nothing is freed. */
  lemma NothingFreed(es: seq<Entry>, from: nat)
    requires GoodExtents(es) && forall l: nat :: l >= from ==> Lookup(es, l) == None
    ensures Freed(es, from) == [] && Narrowed([]) == [] && AllLow([]) && ExactlyFreed(es, from, [])
  {
    hide Lookup;
    forall i | 0 <= i < |es|
      ensures End(es[i]) <= from && GoodEntry(es[i])
    {
      assert GoodEntry(es[i]);
      LookupAt(es, End(es[i]) - 1, i);
    }
    AllKept(es, from, |es|);
    assert es[..|es|] == es;
    NarrowedMeaning(es, from);
  }

  const HIGH: seq<Entry> := [Entry(0, 2, 0x1_0000_0000)]

  lemma HighMap(l: nat)
    ensures GoodExtents(HIGH)
    ensures Lookup(HIGH, l) == if l < 2 then Some(MappingOf(HIGH[0], l)) else None
  {
    if l < 2 {
      LookupAt(HIGH, l, 0);
    } else {
      LookupNone(HIGH, l);
    }
  }

  /** A block number that needs 33 bits: its low half is freed in its place, and it is not. */
  lemma HighBlockLeaks()
    ensures GoodExtents(HIGH) && Injective(HIGH) && Narrowed(Freed(HIGH, 1)) == [Run(1, 1)]
    ensures MapsTo(HIGH, 1, 0x1_0000_0001) && forall l: nat :: !MapsTo(HIGH, l, 1)
  {
    hide Lookup, GoodExtents;
    HighMap(1);
    forall l: nat, m: nat | SameBlock(HIGH, l, m)
      ensures l == m
    {
      HighMap(l);
      HighMap(m);
    }
    forall l: nat
      ensures !MapsTo(HIGH, l, 1)
    {
      HighMap(l);
    }
    assert HIGH[..0] == [];
    assert Freed(HIGH, 1) == Freed([], 1) + Out(HIGH[0], 1) == [Run(0x1_0000_0001, 1)];
  }

  /** Block `b` belongs to one of the logical blocks from `from` to `to`. */
  ghost predicate InRange(es: seq<Entry>, from: nat, to: nat, b: nat) {
    exists l: nat :: from <= l <= to && MapsTo(es, l, b)
  }

  /** A range inside one extent: the run handed over is the range's own blocks exactly while it starts below 2^32. */
  lemma PunchedExact(es: seq<Entry>, g: nat, from: nat, to: nat)
    requires GoodExtents(es) && g < |es| && StrictlyInside(es[g], from, to)
    ensures var run := Run(MappingOf(es[g], from).block, to - from + 1);
            (forall b: nat :: InRun(Narrow(run), b) <==> InRange(es, from, to, b)) <==> run.start < PBLOCK_LOW
  {
    hide Lookup, GoodExtents;
    var run := Run(MappingOf(es[g], from).block, to - from + 1);
    forall b: nat
      ensures InRun(run, b) <==> InRange(es, from, to, b)
    {
      RangeBlock(es, g, from, to, b);
    }
    if forall b: nat :: InRun(Narrow(run), b) <==> InRange(es, from, to, b) {
      assert InRun(run, run.start + run.len - 1);
    }
  }

  lemma RangeBlock(es: seq<Entry>, g: nat, from: nat, to: nat, b: nat)
    requires GoodExtents(es) && g < |es| && StrictlyInside(es[g], from, to)
    ensures InRun(Run(MappingOf(es[g], from).block, to - from + 1), b) <==> InRange(es, from, to, b)
  {
    hide Lookup;
    var first := MappingOf(es[g], from).block;
    if InRun(Run(first, to - from + 1), b) {
      var l: nat := from + (b - first);
      LookupAt(es, l, g);
      assert MapsTo(es, l, b);
    }
    if l: nat :| from <= l <= to && MapsTo(es, l, b) {
      LookupAt(es, l, g);
    }
  }

  // ---- the operation --------------------------------------------------------------------------------------------

  /** Every list of extents that fits makes a tree of its own. */
  lemma RootOnly(L: Levels, cap: Capacity, root: seq<Entry>, store: Store, free: seq<nat>, es: seq<Entry>)
    requires Tree(L, cap) && Matches(L, 0, root, store) && FreeOk(L, free) && GoodExtents(es) && |es| <= |root|
    ensures Flat(Leaves(L)) == root
    ensures var now := [[Node(0, es)]];
            Tree(now, cap) && Matches(now, 0, es, store) && FreeOk(now, free) && Flat(Leaves(now)) == es
  {
    FlatOne(Node(0, root));
    FlatOne(Node(0, es));
    assert L[0] == [Node(0, root)];
    GoodIsSorted(es);
    var now := [[Node(0, es)]];
    forall i | 0 <= i < |free|
      ensures Unused(now, free[i])
    {
      assert 0 < free[i];
    }
  }

  /**
   Remove everything from block `from` to the end. The walk starts at the extent found for `from`; extents in front of
   the cut stay, the one across it is shortened, those behind it go. Returns the physical runs given back.
   */
  method RemoveTail(tree: ExtentTree, from: u32) returns (freed: seq<Run>)
    requires tree.Valid() && tree.depth == 0 && tree.root != []
    modifies tree
    ensures tree.Valid() && tree.Exts() == Kept(old(tree.Exts()), from)
    ensures freed == Narrowed(Freed(old(tree.Exts()), from))
    ensures forall l: nat :: Lookup(tree.Exts(), l) == if l < from then Lookup(old(tree.Exts()), l) else None
    ensures AllLow(Freed(old(tree.Exts()), from)) ==> ExactlyFreed(old(tree.Exts()), from, freed)
    ensures Injective(old(tree.Exts())) ==>
              (ExactlyFreed(old(tree.Exts()), from, freed) <==> AllLow(Freed(old(tree.Exts()), from)))
  {
    hide Tree, Matches, FreeOk, Rest, HeadOf, Lookup, GoodEntry, FindSlot, Unused, Distinct, GoodExtents;
    hide ExactlyFreed, Injective, AllLow, Narrowed, Freed, Kept;
    ghost var es := tree.root;
    RootGood(tree);
    GoodIsSorted(es);
    var pos := BinarySearch(tree.root, from);
    SearchedPrefix(es, from, pos);
    var slots;
    slots, freed := CutSlots(tree.root, from, pos);
    KeptGood(es, from);
    RootOnly(tree.levels, tree.Cap(), tree.root, tree.store, tree.free, slots);
    tree.root := slots;
    tree.levels := [[Node(0, slots)]];
    forall l: nat
      ensures Lookup(tree.Exts(), l) == if l < from then Lookup(es, l) else None
    {
      KeptLookup(es, from, l);
    }
    NarrowedMeaning(es, from);
  }

  /**
   Shorten a file: it cannot grow this way, the blocks beyond the new end are unmapped, and exactly these are given back
   while their runs start below 2^32.
   */
  method Truncate(tree: ExtentTree, bs: nat, size: nat, newSize: nat) returns (r: Result<seq<Run>>)
    requires tree.Valid() && tree.depth == 0 && tree.root != [] && bs > 0 && RoundUp(size, bs) <= 0xFFFF_FFFF
    requires forall l: nat :: l >= RoundUp(size, bs) ==> Lookup(tree.Exts(), l) == None
    modifies tree
    ensures r.Err? <==> newSize > size
    ensures r.Err? ==> r.errno == EINVAL && tree.root == old(tree.root) && tree.levels == old(tree.levels)
    ensures tree.Valid()
    ensures r.Ok? ==>
            forall l: nat :: Lookup(tree.Exts(), l) == if l < RoundUp(newSize, bs) then Lookup(old(tree.Exts()), l)
                else None
    ensures r.Ok? ==> r.value == Narrowed(Freed(old(tree.Exts()), RoundUp(newSize, bs)))
    ensures r.Ok? && AllLow(Freed(old(tree.Exts()), RoundUp(newSize, bs))) ==>
              ExactlyFreed(old(tree.Exts()), RoundUp(newSize, bs), r.value)
    ensures r.Ok? && Injective(old(tree.Exts())) ==>
              (ExactlyFreed(old(tree.Exts()), RoundUp(newSize, bs), r.value) <==>
               AllLow(Freed(old(tree.Exts()), RoundUp(newSize, bs))))
  {
    ghost var es := tree.Exts();
    hide Lookup, RoundUp, ExtentTree.Valid, ExactlyFreed, Injective, AllLow, Narrowed, Freed;
    if newSize > size {
      return Err(EINVAL);
    }
    RootGood(tree);
    RoundUpMonotone(newSize, size, bs);
    if RoundUp(newSize, bs) == RoundUp(size, bs) {
      NothingFreed(es, RoundUp(newSize, bs));
    }
    if newSize == size {
      return Ok([]);
    }
    var newBlocks, oldBlocks := RoundUp(newSize, bs), RoundUp(size, bs);
    if oldBlocks - newBlocks > 0 {
      var freed := RemoveTail(tree, newBlocks);
      return Ok(freed);
    }
    return Ok([]);
  }

  /** The walk over the slots of the root, from `pos` on. */
  method CutSlots(es: seq<Entry>, from: u32, pos: nat) returns (r: seq<Entry>, freed: seq<Run>)
    requires GoodExtents(es) && pos < |es| && Kept(es[..pos], from) == es[..pos] && Freed(es[..pos], from) == []
    ensures r == Kept(es, from) && freed == Narrowed(Freed(es, from))
  {
    hide CutState, GoodExtents, Kept, Freed, Narrowed;
    var slots, count := es, |es|;
    var to := End(slots[count - 1]) - 1;
    freed := [];
    CutStart(es, from, pos);
    for i := pos to |es|
      invariant CutState(es, from, i, slots, count, freed)
    {
      CutSlot(es, from, i, slots, count, freed);
      var ex := slots[i];
      if ex.first > to {
        assert false;
      }
      if End(ex) <= from {
        continue;
      }
      if ex.first < from {
        freed := freed + [Run(FreedStart(ex, from), End(ex) - from)];
        slots := slots[i := MakeExtent(ex.first, from - ex.first, ex.ptr, IsUnwritten(ex))];
      } else {
        freed := freed + [Run(FreedStart(ex, ex.first), ActualLen(ex))];
        count := count - 1;
      }
    }
    CutDone(es, from, slots, count, freed);
    r := slots[..count];
  }

  /** The slots before `i` have been looked at. */
  ghost predicate CutState(es: seq<Entry>, from: nat, i: nat, slots: seq<Entry>, count: int, freed: seq<Run>)
    requires i <= |es|
  {
    var ks := Kept(es[..i], from);
    && |slots| == |es| && slots[i..] == es[i..] && |ks| <= i && slots[..|ks|] == ks
    && count == |es| - (i - |ks|) && freed == Narrowed(Freed(es[..i], from))
  }

  lemma CutStart(es: seq<Entry>, from: nat, pos: nat)
    requires pos < |es| && Kept(es[..pos], from) == es[..pos] && Freed(es[..pos], from) == []
    ensures CutState(es, from, pos, es, |es|, [])
  {
  }

  lemma CutDone(es: seq<Entry>, from: nat, slots: seq<Entry>, count: int, freed: seq<Run>)
    requires CutState(es, from, |es|, slots, count, freed)
    ensures 0 <= count <= |slots| && slots[..count] == Kept(es, from) && freed == Narrowed(Freed(es, from))
  {
    assert es[..|es|] == es;
  }

  /** The run of one extent, as the walk hands it over. */
  lemma OutNarrowed(es: seq<Entry>, from: nat, i: nat)
    requires GoodExtents(es) && i < |es|
    ensures var e, was := es[i], Freed(es[..i], from);
            && (End(e) <= from ==> Narrowed(was + Out(e, from)) == Narrowed(was))
            && (e.first < from < End(e) ==>
                  Narrowed(was + Out(e, from)) == Narrowed(was) + [Run(FreedStart(e, from), End(e) - from)])
            && (e.first >= from ==>
                  Narrowed(was + Out(e, from)) == Narrowed(was) + [Run(FreedStart(e, e.first), ActualLen(e))])
  {
    hide GoodExtents, Kept, Freed, Rest;
    StepFacts(es, from, i);
    var was := Freed(es[..i], from);
    if Out(es[i], from) != [] {
      NarrowedMore(was, Out(es[i], from)[0]);
    } else {
      assert was + [] == was;
    }
  }

  /** What each case of the walk does to the state. */
  lemma CutSlot(es: seq<Entry>, from: nat, i: nat, slots: seq<Entry>, count: int, freed: seq<Run>)
    requires GoodExtents(es) && i < |es| && CutState(es, from, i, slots, count, freed)
    ensures |slots| == |es| && slots[i] == es[i] && es[i].first <= End(es[|es| - 1]) - 1
    ensures var e := es[i];
            && (End(e) <= from ==> CutState(es, from, i + 1, slots, count, freed))
            && (e.first < from < End(e) ==>
                  CutState(es, from, i + 1, slots[i := MakeExtent(e.first, from - e.first, e.ptr, IsUnwritten(e))],
                      count, freed + [Run(FreedStart(e, from), End(e) - from)]))
            && (e.first >= from ==>
                  CutState(es, from, i + 1, slots, count - 1, freed + [Run(FreedStart(e, e.first), ActualLen(e))]))
  {
    hide GoodExtents, Kept, Freed, Rest, Out, MakeExtent, Narrowed;
    Next(es, from, i);
    StepFacts(es, from, i);
    OutNarrowed(es, from, i);
    assert slots[i] == slots[i..][0] == es[i..][0];
    var e, ks, more := es[i], Kept(es[..i], from), Kept(es[..i + 1], from);
    assert forall k :: i + 1 <= k < |es| ==> slots[k] == slots[i..][k - i] && es[k] == es[i..][k - i];
    if e.first < from {
      assert ks == es[..i];
      var x := Rest(e, from)[0];
      assert more == ks + [x];
      assert slots[i := x][..i + 1] == ks + [x] && slots[..i + 1] == ks + [slots[i]];
    } else {
      assert more == ks;
    }
  }

  lemma RootGood(tree: ExtentTree)
    requires tree.Valid() && tree.depth == 0
    ensures GoodExtents(tree.root) && tree.Exts() == tree.root
  {
    hide GoodExtents, Tree;
    FlatOne(Node(0, tree.root));
    assert tree.levels[0] == [Node(0, tree.root)];
  }

  /** Everything in front of the slot the search finds stays whole. */
  lemma SearchedPrefix(es: seq<Entry>, from: nat, pos: nat)
    requires GoodExtents(es) && es != [] && pos == FindSlot(es, from)
    ensures pos < |es| && Kept(es[..pos], from) == es[..pos] && Freed(es[..pos], from) == []
  {
    FindSlotFacts(es, from);
    forall j | 0 <= j < pos
      ensures End(es[j]) <= from && GoodEntry(es[j])
    {
      assert End(es[j]) <= es[pos].first;
    }
    AllKept(es, from, pos);
  }

  /** One extent: what the loop's cases amount to. */
  lemma StepFacts(es: seq<Entry>, from: nat, i: nat)
    requires GoodExtents(es) && i < |es|
    ensures es[i].first <= End(es[|es| - 1]) - 1
    ensures Rest(es[i], from) != [] ==> Kept(es[..i], from) == es[..i]
    ensures End(es[i]) <= from ==> Rest(es[i], from) == [es[i]] && Out(es[i], from) == []
    ensures End(es[i]) <= from ==> es[i].first < from
    ensures es[i].first < from < End(es[i]) ==>
              Rest(es[i], from) == [MakeExtent(es[i].first, from - es[i].first, es[i].ptr, IsUnwritten(es[i]))]
    ensures es[i].first < from ==> |Rest(es[i], from)| == 1
    ensures es[i].first < from < End(es[i]) ==>
            Out(es[i], from) == [Run(es[i].ptr + (from - es[i].first), End(es[i]) - from)]
    ensures es[i].first >= from ==>
            Rest(es[i], from) == [] && Out(es[i], from) == [Run(es[i].ptr, ActualLen(es[i]))] && End(es[i]) > from
  {
    assert GoodEntry(es[i]) && GoodEntry(es[|es| - 1]);
    if i < |es| - 1 {
      assert End(es[i]) <= es[|es| - 1].first;
    }
    if Rest(es[i], from) != [] {
      Position(es, from, i);
    }
  }
}
