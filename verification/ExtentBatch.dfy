/** Mapping a batch of allocated blocks into an extent tree. */
module ExtentBatch {
  import opened Bytes
  import opened Outcome
  import opened Records
  import opened Extents
  import opened ExtentTree
  import opened ExtentRuns

  lemma NextSegment(blocks: seq<nat>, i: nat, segs: seq<seq<nat>>, current: seq<nat>)
    requires 1 <= i < |blocks| && segs + [current] == Segments(blocks[..i])
    ensures Segments(blocks[..i + 1])
         == if blocks[i] == blocks[i - 1] + 1 then segs + [current + [blocks[i]]] else segs + [current] + [[blocks[i]]]
  {
    var all := blocks[..i + 1];
    assert all[..i] == blocks[..i] && all[i] == blocks[i] && all[i - 1] == blocks[i - 1];
    assert (segs + [current])[..|segs|] == segs;
  }

  /** Group the allocated blocks into physically contiguous segments. */
  method GroupSegments(blocks: seq<nat>) returns (segs: seq<seq<nat>>)
    requires blocks != []
    ensures segs == Segments(blocks)
  {
    hide Segments;
    segs := [];
    var current := [blocks[0]];
    OneSegment(blocks);
    for i := 1 to |blocks|
      invariant segs + [current] == Segments(blocks[..i])
    {
      NextSegment(blocks, i, segs, current);
      if blocks[i] == blocks[i - 1] + 1 {
        current := current + [blocks[i]];
      } else {
        segs := segs + [current];
        current := [blocks[i]];
      }
    }
    assert blocks[..|blocks|] == blocks;
    segs := segs + [current];
  }

  lemma OneSegment(blocks: seq<nat>)
    requires blocks != []
    ensures Segments(blocks[..1]) == [[blocks[0]]]
  {
    assert blocks[..1] == [blocks[0]];
  }

  predicate ValidExtent(e: Entry) {
    e.first < 0xFFFF_FFFF && 0 < e.count <= EXT_INIT_MAX_LEN && e.first + e.count <= 0xFFFF_FFFF && e.ptr > 0
  }

  /**
   The search of the leaf in front of a hole reads these extents instead; none of them may continue into the batch.
   */
  predicate NoneMerges(block0: seq<Entry>, ps: seq<Entry>) {
    forall e, x :: e in block0 && x in ps ==> !CanMerge(e, x)
  }

  /** What is still to be inserted fits what is there. */
  ghost predicate Pending(es: seq<Entry>, rest: seq<Entry>, cur: nat, left: seq<nat>, unwritten: bool,
      block0: seq<Entry>) {
    && GoodExtents(es) && FreeRange(es, cur, cur + |left|) && cur + |left| <= 0xFFFF_FFFF
    && (forall j :: 0 <= j < |left| ==> left[j] > 0)
    && Runs(rest, cur, left, unwritten) && NoneMerges(block0, rest)
  }

  lemma PendingStep(es: seq<Entry>, rest: seq<Entry>, cur: nat, left: seq<nat>, unwritten: bool, block0: seq<Entry>)
    requires Pending(es, rest, cur, left, unwritten, block0) && rest != []
    ensures var x := rest[0];
            && GoodEntry(x) && Apart(es, x) && 0 < ActualLen(x) <= |left|
                && (forall e :: e in block0 ==> !CanMerge(e, x))
            && Pending(Inserted(es, x), rest[1..], cur + ActualLen(x), left[ActualLen(x)..], unwritten, block0)
            && InsertAll(es, rest) == InsertAll(Inserted(es, x), rest[1..])
  {
    hide Lookup, GoodExtents, FreeRange, Inserted, CanMerge, Consecutive;
    NextPiece(es, rest, cur, left, unwritten);
  }

  lemma PendingStart(es: seq<Entry>, first: nat, blocks: seq<nat>, unwritten: bool, block0: seq<Entry>)
    requires GoodExtents(es) && blocks != [] && first + |blocks| <= 0xFFFF_FFFF && forall j :: 0 <= j < |blocks| ==>
             blocks[j] > 0
    requires FreeRange(es, first, first + |blocks|) && NoneMerges(block0, BatchPieces(first, blocks, unwritten))
    ensures Pending(es, BatchPieces(first, blocks, unwritten), first, blocks, unwritten, block0)
  {
    hide GoodExtents, FreeRange, NoneMerges, BatchPieces;
    BatchRuns(first, blocks, unwritten);
  }

  lemma SplitHead(cur: nat, seg: seq<nat>, unwritten: bool)
    requires seg != [] && cur + |seg| <= 0xFFFF_FFFF
    ensures var n := if MaxLen(unwritten) < |seg| then MaxLen(unwritten) else |seg|;
            && Split(cur, seg, unwritten) == [MakeExtent(cur, n, seg[0], unwritten)]
                + Split(cur + n, seg[n..], unwritten)
            && ActualLen(MakeExtent(cur, n, seg[0], unwritten)) == n
  {
  }

  /** Insert the next extent. */
  method InsertPiece(tree: ExtentTree, cur: nat, n: nat, ptr: nat, unwritten: bool, block0: seq<Entry>,
      ghost rest: seq<Entry>, ghost left: seq<nat>)
    returns (r: Result<()>)
    requires tree.Valid() && Pending(tree.Exts(), rest, cur, left, unwritten, block0) && rest != []
    requires cur <= 0xFFFF_FFFF && 0 < n <= MaxLen(unwritten) && rest[0] == MakeExtent(cur, n, ptr, unwritten)
    modifies tree
    ensures r.Ok? ==>
            tree.Valid() && n <= |left| && Pending(tree.Exts(), rest[1..], cur + n, left[n..], unwritten, block0)
    ensures r.Ok? ==> InsertAll(tree.Exts(), rest[1..]) == InsertAll(old(tree.Exts()), rest)
    ensures r.Ok? ==> Lasts(old(tree.depth), old(tree.free), tree.depth, tree.free, 1)
    ensures r.Err? ==> r == Err(ENOSPC) && |old(tree.free)| < NodesFor(1, old(tree.depth))
  {
    hide Lookup, Inserted, CanMerge, Pending, InsertAll, Apart, NoneMerges, FreeRange, LosesFlag, GoodExtents, Lasts;
    PendingStep(tree.Exts(), rest, cur, left, unwritten, block0);
    var x := Entry(cur, n, ptr);
    assert ValidExtent(x);
    if unwritten {
      x := MarkUnwritten(x);
    }
    r := tree.InsertExtent(x, block0);
    if r.Ok? {
      LastsOne(old(tree.depth), old(tree.free), tree.depth, tree.free);
    }
  }

  /** Insert the extents of one contiguous segment; `more` are those of the segments behind it. */
  method MapSegment(tree: ExtentTree, cur: nat, seg: seq<nat>, unwritten: bool, block0: seq<Entry>,
      ghost more: seq<Entry>, ghost left: seq<nat>)
    returns (r: Result<()>)
    requires tree.Valid() && cur + |seg| <= 0xFFFF_FFFF
    requires Pending(tree.Exts(), Split(cur, seg, unwritten) + more, cur, left, unwritten, block0)
    modifies tree
    ensures r.Ok? ==>
            tree.Valid() && |seg| <= |left| && Pending(tree.Exts(), more, cur + |seg|, left[|seg|..], unwritten, block0)
    ensures r.Ok? ==> InsertAll(tree.Exts(), more) == InsertAll(old(tree.Exts()), Split(cur, seg, unwritten) + more)
    ensures r.Ok? ==>
              Lasts(old(tree.depth), old(tree.free), tree.depth, tree.free, |Split(cur, seg, unwritten)|)
    ensures r.Err? ==>
              r == Err(ENOSPC) && |old(tree.free)| < NodesFor(|Split(cur, seg, unwritten)|, old(tree.depth))
  {
    hide Lookup, Inserted, Pending, Split, InsertAll, MakeExtent, Lasts, NodesFor, GoodExtents;
    var start := 0;
    ghost var d0, f0, all, done: nat := tree.depth, tree.free, |Split(cur, seg, unwritten)|, 0;
    LastsNone(d0, f0);
    ghost var rest := Split(cur, seg, unwritten) + more;
    assert seg[0..] == seg && left[0..] == left;
    while start < |seg|
      invariant 0 <= start <= |seg| && start <= |left| && tree.Valid()
      invariant rest == Split(cur + start, seg[start..], unwritten) + more
      invariant Pending(tree.Exts(), rest, cur + start, left[start..], unwritten, block0)
      invariant InsertAll(tree.Exts(), rest) == InsertAll(old(tree.Exts()), Split(cur, seg, unwritten) + more)
      invariant done + |Split(cur + start, seg[start..], unwritten)| == all
      invariant Lasts(d0, f0, tree.depth, tree.free, done)
    {
      var n := if MaxLen(unwritten) < |seg| - start then MaxLen(unwritten) else |seg| - start;
      SplitHead(cur + start, seg[start..], unwritten);
      DropMore(seg, start, n);
      DropHead(MakeExtent(cur + start, n, seg[start], unwritten), Split(cur + start + n, seg[start + n..], unwritten),
          more);
      ghost var d1, f1 := tree.depth, tree.free;
      r := InsertPiece(tree, cur + start, n, seg[start], unwritten, block0, rest, left[start..]);
      if r.Err? {
        TooFew(d0, f0, d1, f1, done, 1, all);
        return;
      }
      LastsOn(d0, f0, d1, f1, tree.depth, tree.free, done, 1);
      done := done + 1;
      DropMore(left, start, n);
      rest := rest[1..];
      start := start + n;
    }
    EmptySplit(cur + start, seg[start..], unwritten);
    assert rest == more;
    return Ok(());
  }

  /**
   Insert one extent per contiguous run of at most the longest length. All blocks end up mapped in order, with the
   flag asked for, unless some merge makes an unwritten run of 32768 blocks; nothing else changes. It fails only when
   there are fewer free nodes than so many insertions may take.
   */
  method MapBatch(tree: ExtentTree, first: u32, blocks: seq<nat>, unwritten: bool,
      block0: seq<Entry>) returns (r: Result<()>)
    requires tree.Valid() && blocks != [] && first + |blocks| <= 0xFFFF_FFFF && forall j :: 0 <= j < |blocks| ==>
             blocks[j] > 0
    requires FreeRange(tree.Exts(), first, first + |blocks|)
    requires NoneMerges(block0, BatchPieces(first, blocks, unwritten))
    modifies tree
    ensures r.Ok? ==> tree.Valid() && tree.Exts() == InsertAll(old(tree.Exts()), BatchPieces(first, blocks, unwritten))
    ensures r.Ok? ==>
              ((forall l: nat :: Lookup(tree.Exts(), l) == BatchUpdated(old(tree.Exts()), first, blocks, unwritten, l))
                <==> !Loses(old(tree.Exts()), BatchPieces(first, blocks, unwritten)))
    ensures r.Ok? ==>
              Lasts(old(tree.depth), old(tree.free), tree.depth, tree.free, |BatchPieces(first, blocks, unwritten)|)
    ensures r.Err? ==>
              && r == Err(ENOSPC)
              && |old(tree.free)| < NodesFor(|BatchPieces(first, blocks, unwritten)|, old(tree.depth))
  {
    hide Lookup, Loses, Segments, Pending, Split, InsertAll, NoneMerges, FreeRange, GoodExtents, Lasts, NodesFor;
    ghost var d0, f0, done: nat := tree.depth, tree.free, 0;
    LastsNone(d0, f0);
    ghost var es, goal := tree.Exts(), BatchPieces(first, blocks, unwritten);
    BatchIsUpdateIff(es, first, blocks, unwritten);
    PendingStart(es, first, blocks, unwritten, block0);
    BatchTotal(blocks);
    var segs := GroupSegments(blocks);
    var cur: nat := first;
    ghost var rest, left := goal, blocks;
    assert segs[0..] == segs;
    for i := 0 to |segs|
      invariant tree.Valid() && Pending(tree.Exts(), rest, cur, left, unwritten, block0)
      invariant cur + Total(segs[i..]) == first + |blocks| && rest == Pieces(cur, segs[i..], unwritten)
      invariant InsertAll(tree.Exts(), rest) == InsertAll(es, goal)
      invariant done + |rest| == |goal| && Lasts(d0, f0, tree.depth, tree.free, done)
    {
      var seg := segs[i];
      assert segs[i..][0] == seg && segs[i..][1..] == segs[i + 1..];
      ghost var more := Pieces(cur + |seg|, segs[i + 1..], unwritten);
      ghost var d1, f1, n := tree.depth, tree.free, |Split(cur, seg, unwritten)|;
      r := MapSegment(tree, cur, seg, unwritten, block0, more, left);
      if r.Err? {
        TooFew(d0, f0, d1, f1, done, n, |goal|);
        return;
      }
      LastsOn(d0, f0, d1, f1, tree.depth, tree.free, done, n);
      done := done + n;
      rest, left := more, left[|seg|..];
      cur := cur + |seg|;
    }
    assert segs[|segs|..] == [] && rest == [];
    NothingLeft(tree.Exts());
    return Ok(());
  }

  lemma DropMore(s: seq<nat>, i: nat, n: nat)
    requires i + n <= |s|
    ensures s[i..][n..] == s[i + n..]
  {
  }

  lemma DropHead(x: Entry, rest: seq<Entry>, more: seq<Entry>)
    ensures ([x] + rest + more)[1..] == rest + more && ([x] + rest + more)[0] == x
  {
  }

  lemma EmptySplit(cur: nat, seg: seq<nat>, unwritten: bool)
    requires seg == [] && cur <= 0xFFFF_FFFF
    ensures Split(cur, seg, unwritten) == []
  {
  }

  lemma NothingLeft(es: seq<Entry>)
    ensures InsertAll(es, []) == es
  {
  }
}
