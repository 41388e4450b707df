/** The extent tree of an inode: search, and insertion in place through merges, splits and growth. */
module ExtentTree {
  import opened Bytes
  import opened Outcome
  import opened Records
  import opened Extents
  import opened TreeLevels
  import opened TreeShape
  import opened ExtentStore

  /** One step of a search: the node (0 is the inode), the slot taken there, and at the leaf what was found. */
  datatype PathNode = PathNode(node: nat, position: nat, entries: nat, extent: Option<Entry>, pblock: nat)

  /** The path visits, level by level, the nodes and slots a search for `l` takes. */
  ghost predicate Routed(L: Levels, path: seq<PathNode>, l: nat) {
    |path| == |L| && forall m: nat :: m < |L| ==> RoutedAt(L, path[m], m, l)
  }

  ghost predicate RoutedAt(L: Levels, step: PathNode, m: nat, l: nat)
    requires m < |L|
  {
    && L[m] != [] && NonEmpty(L[m])
    && step.node == L[m][ChosenAt(L, m, l)].block && step.position == SlotAt(L, m, l)
    && step.entries == |L[m][ChosenAt(L, m, l)].entries|
  }

  /** The steps up to level `k` of a path, over a tree whose lower levels may have changed since the search. */
  ghost predicate Chain(L: Levels, path: seq<PathNode>, cs: seq<nat>, k: nat) {
    && k < |L| && k < |path| && k < |cs|
    && (forall m: nat :: m <= k ==>
          InTree(L, m, cs[m]) && path[m].node == L[m][cs[m]].block && path[m].position < |L[m][cs[m]].entries|)
    && (forall m: nat :: m < k ==> cs[m + 1] == Offset(L[m], cs[m]) + path[m].position)
  }

  /** Only `x` is missing, behind the slot the path points at in level `k`. */
  ghost predicate PathDangles(L: Levels, cap: Capacity, path: seq<PathNode>, cs: seq<nat>, k: nat, x: Entry) {
    Chain(L, path, cs, k) && Dangling(L, cap, k, Offset(L[k], cs[k]) + path[k].position, x)
  }

  /** The root in the inode has room for four entries. */
  const ROOT_MAX: nat := 4

  /** The low half of a child's block number, the only half a search follows. */
  function LeafLo(ptr: nat): nat {
    ptr % 0x1_0000_0000
  }

  class ExtentTree {
    const nodeMax: nat
    var depth: nat
    var root: seq<Entry>
    var store: Store
    var free: seq<nat>
    ghost var levels: Levels

    ghost predicate Stored()
      reads this
    {
      nodeMax >= 84 && Matches(levels, depth, root, store) && FreeOk(levels, free)
    }

    /** The index is complete. */
    ghost predicate Whole()
      reads this
    {
      Stored() && Tree(levels, Cap())
    }

    ghost predicate Valid()
      reads this
    {
      Whole() && GoodExtents(Exts())
    }

    function Cap(): Capacity {
      Capacity(ROOT_MAX, nodeMax)
    }

    /** All extents of the file, in order. */
    ghost function Exts(): seq<Entry>
      requires Stored()
      reads this
    {
      Flat(Leaves(levels))
    }

    /** The tree of an empty file. */
    constructor (nodeMax: nat, free: seq<nat>)
      requires nodeMax >= 84
      requires forall i :: 0 <= i < |free| ==> 0 < free[i] < 0x1_0000_0000
      requires forall i, j :: 0 <= i < j < |free| ==> free[i] != free[j]
      ensures Valid() && Exts() == []
    {
      this.nodeMax, depth, root, store, this.free, levels := nodeMax, 0, [], map[], free, [[Node(0, [])]];
      new;
      FlatOne(Node(0, []));
    }

    /** Take the next block from the allocator. */
    method Allocate() returns (r: Result<nat>)
      modifies this`free
      ensures r.Ok? <==> old(free) != []
      ensures r.Ok? ==> old(free) == [r.value] + free
      ensures r.Err? ==> r == Err(ENOSPC) && free == old(free)
    {
      if free == [] {
        return Err(ENOSPC);
      }
      r := Ok(free[0]);
      free := free[1..];
    }

    /** The entries of a node, from the inode or from its block. */
    function ReadSlots(node: nat): seq<Entry>
      requires node == 0 || node in store
      reads this
    {
      if node == 0 then root else store[node].entries
    }

    // ---- search ----------------------------------------------------------------------------------------

    /** Descend from the root to the leaf that holds, or would hold, block `l`. */
    method FindExtent(l: u32) returns (path: seq<PathNode>)
      requires Valid()
      ensures |path| == depth + 1
      ensures root == [] ==> depth == 0 && path == [PathNode(0, 0, 0, None, 0)]
      ensures root != [] ==>
                && Routed(levels, path, l) && Exts() != []
                && path[depth].extent == Some(Exts()[FindSlot(Exts(), l)])
                && path[depth].pblock == (if Lookup(Exts(), l).Some? then Lookup(Exts(), l).value.block else 0)
    {
      hide Tree, FreeOk, ChosenAt, SlotAt, FindSlot, Flat, Lookup, Matches, Routed, SortedKeys;
      path := [];
      RootFacts(levels, Cap(), depth, root, store);
      if root == [] {
        return [PathNode(0, 0, 0, None, 0)];
      }
      ghost var c := ChosenAt(levels, 0, l);
      var node, entries, d := 0, root, depth;
      NoSteps(levels, path, l);
      while d > 0
        invariant 0 <= d <= depth && |path| == depth - d
        invariant NodeAt(levels, depth - d, l, node, entries)
        invariant RoutedUpTo(levels, path, l)
      {
        hide NodeAt, RoutedUpTo;
        ghost var m := depth - d;
        StepFacts(levels, Cap(), depth, root, store, m, l, node, entries);
        var pos;
        if node == 0 {
          pos := BinarySearch(entries, l);
        } else {
          pos := BinarySearchFromZero(entries, l);
        }
        RoutedMore(levels, path, l, PathNode(node, pos, |entries|, None, entries[pos].ptr), entries);
        path := path + [PathNode(node, pos, |entries|, None, entries[pos].ptr)];
        node := LeafLo(entries[pos].ptr);
        entries := store[node].entries;
        d := d - 1;
      }
      LeafFacts(levels, Cap(), l, node, entries);
      var pos := BinarySearch(entries, l);
      var ex := entries[pos];
      FindSlotLookup(Exts(), l);
      var pblock := if Covers(ex, l) then ex.ptr + (l - ex.first) else 0;
      RoutedMore(levels, path, l, PathNode(node, pos, |entries|, Some(ex), pblock), entries);
      path := path + [PathNode(node, pos, |entries|, Some(ex), pblock)];
      RoutedWhole(levels, path, l);
    }

    // ---- changing nodes ----------------------------------------------------------------------------------

    /** Insert a record into the slots read from a node block, keeping them sorted. */
    method PlaceInSlots(slots: seq<Entry>, x: Entry) returns (r: seq<Entry>)
      ensures r == SortedInsert(slots, x)
    {
      var pos := 0;
      SortedPosFacts(slots, x.first);
      while pos < |slots| && slots[pos].first <= x.first
        invariant pos <= SortedPos(slots, x.first)
      {
        pos := pos + 1;
      }
      r := slots[..pos] + [x] + slots[pos..];
    }

    /** Insert a record into the inode's slots: find its place, shift the tail right by one, drop it in. */
    method PlaceInRoot(x: Entry)
      modifies this`root
      ensures root == SortedInsert(old(root), x)
    {
      var entries := |root|;
      ghost var before := root;
      SortedPosFacts(root, x.first);
      var pos := entries;
      for i := 0 to entries
        invariant i <= SortedPos(before, x.first) && pos == entries
      {
        if root[i].first > x.first {
          pos := i;
          break;
        }
      }
      assert pos == SortedPos(before, x.first);
      hide SortedPos;
      root := root + [x];
      var i := entries;
      while i > pos
        invariant pos <= i <= entries && Shifted(before, root, i)
      {
        hide Shifted;
        i := i - 1;
        ShiftOne(before, root, i);
        root := root[i + 1 := root[i]];
      }
      root := root[pos := x];
    }

    /** Rewrite a node block. */
    method WriteNodeSlots(node: nat, nodeDepth: nat, slots: seq<Entry>)
      requires |slots| <= nodeMax
      modifies this`store
      ensures store == old(store)[node := NodeBlock(nodeDepth, slots)]
    {
      store := store[node := NodeBlock(nodeDepth, slots)];
    }

    /** Correct the keys that route to the leftmost leaf, from level `k` up to the root. */
    method CorrectParentIndex(path: seq<PathNode>, k: nat, key: u32)
      requires Stored() && Distinct(levels) && k < depth && k < |path|
      requires forall m: nat :: m <= k ==> LeftStep(levels, path[m], m)
      modifies this`root, this`store, this`levels
      ensures Stored() && depth == old(depth) && free == old(free)
      ensures forall m: nat :: m <= k ==> old(levels)[m] != [] && old(levels)[m][0].entries != []
      ensures levels == Lowered(old(levels), k, key)
      decreases k
    {
      hide Matches, FreeOk, PutAt, Lowered, Distinct;
      var node, ipos := path[k].node, path[k].position;
      ghost var L := levels;
      LeftSteps(levels, path, k);
      LoweredStep(levels, k, key);
      ghost var es := LowerEntry(levels[k][0].entries, key);
      NodeFacts(levels, depth, root, store, k, 0);
      if node == 0 {
        MatchesRoot(levels, depth, root, store, es);
        root := root[ipos := root[ipos].(first := key)];
        FreeOne(levels, k, 0, es, free);
        levels := PutAt(levels, k, 0, [Node(0, es)]);
        return;
      }
      MatchesNode(levels, depth, root, store, k, 0, es);
      var slots := store[node].entries;
      store := store[node := NodeBlock(store[node].depth, slots[ipos := slots[ipos].(first := key)])];
      FreeOne(levels, k, 0, es, free);
      DistinctOne(levels, k, 0, es);
      levels := PutAt(levels, k, 0, [Node(node, es)]);
      if ipos == 0 {
        LeftStepsKept(L, path, k, es);
        CorrectParentIndex(path, k - 1, key);
      }
    }

    // ---- putting an index entry in ---------------------------------------------------------------------------

    /** Move the root's entries into a new block and leave one index entry that points there. */
    method GrowInDepth() returns (r: Result<()>)
      requires Stored() && Distinct(levels) && root != []
      modifies this
      ensures r.Ok? ==> Stored() && depth == old(depth) + 1 && |root| == 1
                        && old(free) != [] && old(levels) != [] && |old(levels)[0]| == 1
                            && old(levels)[0][0].entries != []
                        && levels == Grown(old(levels), old(free)[0]) && root[0].ptr == old(free)[0]
      ensures r.Err? ==> r == Err(ENOSPC) && root == old(root) && store == old(store) && depth == old(depth)
      ensures r.Ok? <==> old(free) != []
      ensures r.Ok? ==> free == old(free)[1..]
    {
      hide FreeOk, Grown, Distinct, Unused;
      ghost var before := free;
      var nb :- Allocate();
      RootIs(levels, depth, root, store);
      FreeGrown(levels, nb, free);
      MatchesGrown(levels, depth, root, store, nb);
      store := store[nb := NodeBlock(depth, root)];
      root := [Entry(root[0].first, 0, nb)];
      depth := depth + 1;
      levels := Grown(levels, nb);
      return Ok(());
    }

    /** Insert a separator into the root, growing the tree first when the root is full. */
    method AddIndexToRoot(x: Entry, ghost p: nat) returns (r: Result<()>)
      requires Stored() && p < |root| && Dangling(levels, Cap(), 0, p, x)
      modifies this
      ensures r.Ok? ==> Whole() && Exts() == old(Exts()) && TookNodes(old(depth), depth, old(free), free, 1)
      ensures r.Ok? ==> LevelTook(old(levels), levels, 0, 0, x, Cap(), old(free))
      ensures r.Err? ==> r == Err(ENOSPC) && old(free) == []
    {
      hide FreeOk, Dangling, Tree, Matches, Grown, PutAt, SortedInsert, SortedPos, Unused, Distinct;
      hide LevelTook;
      RootIs(levels, depth, root, store);
      ghost var L := levels;
      if |root| < ROOT_MAX {
        RootFill(L, Cap(), p, x);
        MatchesRoot(L, depth, root, store, SortedInsert(root, x));
        FreeOne(L, 0, 0, SortedInsert(root, x), free);
        TookFits(L, 0, 0, x, Cap(), free);
        PlaceInRoot(x);
        levels := PutAt(L, 0, 0, [Node(0, root)]);
        return Ok(());
      }
      DanglingFacts(L, Cap(), 0, p, x);
      ghost var f := free;
      var _ :- GrowInDepth();
      ghost var G: Levels := levels;
      FreeFirst(L, f);
      GrownFill(L, Cap(), p, x, f[0]);
      var child := root[0].ptr;
      NodeFacts(G, depth, root, store, 1, 0);
      TookGrown(L, x, Cap(), f);
      var slots := PlaceInSlots(store[child].entries, x);
      MatchesNode(G, depth, root, store, 1, 0, slots);
      FreeOne(G, 1, 0, slots, free);
      WriteNodeSlots(child, store[child].depth, slots);
      levels := PutAt(G, 1, 0, [Node(child, slots)]);
      return Ok(());
    }

    /** Insert a separator into the node at level `k` of the path, splitting upward as long as nodes overflow. */
    method InsertIndexAtLevel(path: seq<PathNode>, k: nat, x: Entry, ghost cs: seq<nat>) returns (r: Result<()>)
      requires Stored() && Chain(levels, path, cs, k)
      requires Dangling(levels, Cap(), k, Offset(levels[k], cs[k]) + path[k].position, x)
      modifies this
      ensures r.Ok? ==> Whole() && Exts() == old(Exts()) && TookNodes(old(depth), depth, old(free), free, k + 1)
      ensures r.Ok? ==> LevelTook(old(levels), levels, k, cs[k], x, Cap(), old(free))
      ensures r.Err? ==> r == Err(ENOSPC) && |old(free)| <= k
      decreases k
    {
      hide FreeOk, Dangling, Tree, Matches, PutAt, SortedInsert, SortedPos, Unused, Distinct, Chain, Offset;
      hide LevelTook;
      ChainFacts(levels, path, cs, k);
      ghost var L, c: nat, p: nat := levels, cs[k], path[k].position;
      DanglingFacts(L, Cap(), k, Offset(L[k], c) + p, x);
      NodeFacts(L, depth, root, store, k, c);
      RootIs(L, depth, root, store);
      var node := path[k].node;
      if node == 0 {
        RootOffset(L);
        r := AddIndexToRoot(x, p);
        return;
      }
      var nodeDepth := store[node].depth;
      var slots := PlaceInSlots(store[node].entries, x);
      PlaceFacts(L, Cap(), k, c, p, x);
      if |slots| <= nodeMax {
        FillFits(L, Cap(), k, c, p, x);
        TookFits(L, k, c, x, Cap(), free);
        MatchesNode(L, depth, root, store, k, c, slots);
        FreeOne(L, k, c, slots, free);
        WriteNodeSlots(node, nodeDepth, slots);
        levels := PutAt(L, k, c, [Node(node, slots)]);
        return Ok(());
      }
      var h := |slots| / 2;
      ghost var f := free;
      var nb :- Allocate();
      FreeTwo(L, k, c, Node(node, slots[..h]), Node(nb, slots[h..]), free);
      FillSplits(L, Cap(), k, c, p, x, nb, h);
      MatchesSplit(L, depth, root, store, k, c, Node(node, slots[..h]), Node(nb, slots[h..]));
      WriteNodeSlots(node, nodeDepth, slots[..h]);
      WriteNodeSlots(nb, nodeDepth, slots[h..]);
      levels := PutAt(L, k, c, [Node(node, slots[..h]), Node(nb, slots[h..])]);
      ChainUp(L, path, cs, k, [Node(node, slots[..h]), Node(nb, slots[h..])]);
      r := InsertIndexAtLevel(path, k - 1, Entry(slots[h].first, 0, nb), cs);
      if r.Ok? {
        TookSplits(L, k, c, x, Cap(), f, levels, cs[k - 1], Entry(slots[h].first, 0, nb));
      }
    }

    // ---- inserting an extent ---------------------------------------------------------------------------------

    /** Overwrite slot `position` of leaf `c` with an extent that starts at the same logical block. */
    method SetExtent(node: nat, position: nat, e: Entry, ghost c: nat)
      requires Valid() && InTree(levels, depth, c) && node == levels[depth][c].block
      requires position < |levels[depth][c].entries| && levels[depth][c].entries[position].first == e.first
      requires Offset(Leaves(levels), c) + position < |Exts()|
      requires GoodExtents(Exts()[Offset(Leaves(levels), c) + position := e])
      modifies this`root, this`store, this`levels
      ensures Valid() && Exts() == old(Exts()[Offset(Leaves(levels), c) + position := e])
    {
      hide FreeOk, Tree, Matches, PutAt, Unused, Distinct, Offset, GoodExtents;
      ghost var L, es := levels, levels[depth][c].entries[position := e];
      RootIs(L, depth, root, store);
      TreeDistinct(L, Cap());
      NodeFacts(L, depth, root, store, depth, c);
      GoodIsSorted(Exts()[Offset(Leaves(L), c) + position := e]);
      LeafUpdated(L, Cap(), c, position, e);
      FreeOne(L, depth, c, es, free);
      if node == 0 {
        MatchesRoot(L, depth, root, store, es);
        root := root[position := e];
      } else {
        MatchesNode(L, depth, root, store, depth, c, es);
        store := store[node := NodeBlock(store[node].depth, store[node].entries[position := e])];
      }
      levels := PutAt(L, depth, c, [Node(node, es)]);
    }

    /** Put a new extent into a leaf that has room, and correct the keys above if it became the smallest. */
    method InsertNewExtent(path: seq<PathNode>, x: Entry)
      requires Valid() && GoodEntry(x) && Apart(Exts(), x) && |path| == depth + 1
      requires root != [] ==> Routed(levels, path, x.first)
      requires if depth == 0 then |root| < ROOT_MAX else path[depth].entries < nodeMax
      modifies this`root, this`store, this`levels
      ensures Valid() && Exts() == SortedInsert(old(Exts()), x)
    {
      hide FreeOk, Tree, Matches, PutAt, Unused, Distinct, Offset, GoodExtents, SortedInsert, SortedPos, Apart, Routed;
      hide Lowered, FindSlot, Flat;
      ghost var L := levels;
      ApartIsNew(Exts(), x);
      SortedInsertGood(Exts(), x);
      RootIs(L, depth, root, store);
      TreeDistinct(L, Cap());
      if depth == 0 {
        RootInsert(L, Cap(), root, x);
        MatchesRoot(L, depth, root, store, SortedInsert(root, x));
        FreeOne(L, 0, 0, SortedInsert(root, x), free);
        PlaceInRoot(x);
        levels := PutAt(L, 0, 0, [Node(0, root)]);
        return;
      }
      RootFacts(L, Cap(), depth, root, store);
      LeafRoute(L, Cap(), path, x.first);
      ghost var c := ChosenLeaf(L, x.first);
      NodeFacts(L, depth, root, store, depth, c);
      var leaf := path[depth].node;
      var slots := store[leaf].entries;
      var origFirst := slots[0].first;
      var more := PlaceInSlots(slots, x);
      LeafFirst(L, x);
      MatchesNode(L, depth, root, store, depth, c, more);
      FreeOne(L, depth, c, more, free);
      DistinctOne(L, depth, c, more);
      WriteNodeSlots(leaf, 0, more);
      levels := PutAt(L, depth, c, [Node(leaf, more)]);
      if more[0].first < origFirst {
        LeafFitsMin(L, Cap(), x);
        RouteLeft(L, Cap(), path, x.first, [Node(leaf, more)]);
        CorrectParentIndex(path, depth - 1, x.first);
      } else {
        SmallestKey(L, x);
        LeafFits(L, Cap(), x);
      }
    }

    /** Move the upper half of a full leaf, with a new extent in it, to a new leaf that has no index entry yet. */
    method HalveLeaf(path: seq<PathNode>, x: Entry) returns (r: Result<Entry>)
      requires Valid() && GoodEntry(x) && Apart(Exts(), x) && depth > 0 && Routed(levels, path, x.first)
      requires path[depth].entries == nodeMax && |levels| == depth + 1
      requires forall m: nat :: m < |levels| ==> levels[m] != [] && NonEmpty(levels[m])
      modifies this
      ensures r.Err? ==> r == Err(ENOSPC) && old(free) == []
      ensures r.Ok? ==> Stored() && depth == old(depth) && old(free) != [] && free == old(free)[1..]
      ensures r.Ok? ==> Exts() == SortedInsert(old(Exts()), x)
      ensures r.Ok? ==> LeafHalved(old(levels), levels, ChosenLeaf(old(levels), x.first), x, old(free))
      ensures r.Ok? ==> PathDangles(levels, Cap(), path, RouteNodes(old(levels), x.first), depth - 1, r.value)
    {
      hide FreeOk, Tree, Matches, PutAt, Unused, Distinct, Offset, GoodExtents, SortedInsert, SortedPos, Apart, Routed;
      hide Lowered, FindSlot, Flat, Dangling, Chain;
      ghost var L: Levels := levels;
      ApartIsNew(Exts(), x);
      SortedInsertGood(Exts(), x);
      RootIs(L, depth, root, store);
      TreeDistinct(L, Cap());
      LeafRoute(L, Cap(), path, x.first);
      ghost var c := ChosenLeaf(L, x.first);
      NodeFacts(L, depth, root, store, depth, c);
      var leaf := path[depth].node;
      var origFirst := store[leaf].entries[0].first;
      var slots := PlaceInSlots(store[leaf].entries, x);
      var h := |slots| / 2;
      var sep, leftFirst := slots[h].first, slots[0].first;
      LeafFirst(L, x);
      var nb :- Allocate();
      ghost var a, b := Node(leaf, slots[..h]), Node(nb, slots[h..]);
      FreeTwo(L, depth, c, a, b, free);
      MatchesSplit(L, depth, root, store, depth, c, a, b);
      DistinctTwo(L, depth, c, a, b);
      WriteNodeSlots(leaf, 0, slots[..h]);
      WriteNodeSlots(nb, 0, slots[h..]);
      levels := PutAt(L, depth, c, [a, b]);
      if leftFirst < origFirst {
        LeafSplitsMin(L, Cap(), x, nb, h);
        RouteLeft(L, Cap(), path, x.first, [a, b]);
        CorrectParentIndex(path, depth - 1, leftFirst);
        LeftChain(L, Cap(), path, x.first, [a, b], leftFirst);
      } else {
        SmallestKey(L, x);
        LeafSplits(L, Cap(), x, nb, h);
        RouteChain(L, Cap(), path, x.first, [a, b]);
      }
      HalvedIs(L, levels, c, x, [nb] + free, a, b);
      return Ok(Entry(sep, 0, nb));
    }

    /** Split a full leaf around a new extent and index the new leaf in the levels above. */
    method SplitLeaf(path: seq<PathNode>, x: Entry) returns (r: Result<()>)
      requires Valid() && GoodEntry(x) && Apart(Exts(), x) && depth > 0 && Routed(levels, path, x.first)
      requires path[depth].entries == nodeMax
      modifies this
      ensures r.Ok? ==> Valid() && Exts() == SortedInsert(old(Exts()), x)
      ensures r.Ok? ==> TookLeaf(old(levels), levels, x, nodeMax, old(free))
      ensures r.Ok? ==> TookNodes(old(depth), depth, old(free), free, old(depth) + 1)
      ensures r.Err? ==> r == Err(ENOSPC) && |old(free)| <= old(depth)
    {
      hide FreeOk, Tree, Matches, GoodExtents, SortedInsert, Apart, Routed, Flat, Dangling, Chain, LevelTook, TookIn;
      hide LeafHalved, FindSlot, ChosenLeaf;
      ghost var L: Levels, f := levels, free;
      SortedInsertGood(Exts(), x);
      RootIs(L, depth, root, store);
      RoutedLevels(L, path, x.first);
      LeafRoute(L, Cap(), path, x.first);
      var indexed :- HalveLeaf(path, x);
      ghost var P: Levels, rest, cs := levels, free, RouteNodes(L, x.first);
      r := InsertIndexAtLevel(path, depth - 1, indexed, cs);
      if r.Ok? {
        LeafTook(L, P, levels, x, Cap(), f, cs[Last(L) - 1], indexed, rest);
      }
    }

    /** Make room for a new extent: deepen a full root leaf and retry, or split a full leaf block. */
    method CreateNewLeaf(path: seq<PathNode>, x: Entry, block0: seq<Entry>) returns (r: Result<()>)
      requires Valid() && GoodEntry(x) && Apart(Exts(), x) && root != [] && Routed(levels, path, x.first)
      requires if depth == 0 then |root| == ROOT_MAX else path[depth].entries == nodeMax
      requires !CanMerge(Exts()[FindSlot(Exts(), x.first)], x)
      requires forall e :: e in block0 ==> !CanMerge(e, x)
      modifies this
      ensures r.Ok? ==> Valid() && Exts() == SortedInsert(old(Exts()), x)
      ensures r.Ok? ==> TookNodes(old(depth), depth, old(free), free, old(depth) + 1)
      ensures r.Ok? && old(depth) > 0 ==> TookLeaf(old(levels), levels, x, nodeMax, old(free))
      ensures r.Err? ==> r == Err(ENOSPC) && |old(free)| <= old(depth)
      decreases if depth == 0 then 1 else 0, 0
    {
      hide TookIn;
      hide FreeOk, Tree, Matches, Unused, Distinct, GoodExtents, SortedInsert, Apart, Routed, Grown, FindSlot, CanMerge;
      hide Flat;
      if depth == 0 {
        ghost var L, f := levels, free;
        RootIs(L, depth, root, store);
        TreeDistinct(L, Cap());
        RootFacts(L, Cap(), depth, root, store);
        FlatOne(Node(0, root));
        assert |Exts()| == ROOT_MAX;
        var _ :- GrowInDepth();
        FreeFirst(L, f);
        GrownTree(L, Cap(), f[0]);
        assert |Exts()| == ROOT_MAX;
        r := InsertExtent(x, block0);
        return;
      }
      r := SplitLeaf(path, x);
    }

    /**
     Insert an extent apart from all others. `block0` is what the neighbour checks find when they read a
     node from the found extent's physical block, which is block 0 for a hole.
     */
    method InsertExtent(x: Entry, block0: seq<Entry>) returns (r: Result<()>)
      requires Valid() && GoodEntry(x) && Apart(Exts(), x)
      requires forall e :: e in block0 ==> !CanMerge(e, x)
      modifies this
      ensures r.Ok? ==> Valid() && Exts() == Inserted(old(Exts()), x)
      ensures r.Ok? && !LosesFlag(old(Exts()), x) ==> forall l: nat :: Lookup(Exts(), l) == Updated(old(Exts()), x, l)
      ensures r.Ok? ==> TookNodes(old(depth), depth, old(free), free, old(depth) + 1)
      ensures r.Err? ==> r == Err(ENOSPC) && |old(free)| <= old(depth)
      ensures old(depth) > 0 && |old(Exts())| < nodeMax ==> r.Ok? && free == old(free) && depth == old(depth)
      decreases if depth == 0 then 1 else 0, 1
    {
      hide FreeOk, Tree, Matches, Unused, Distinct, GoodExtents, SortedInsert, Apart, Routed, Lookup, FindSlot;
      hide CanMerge, Flat, Offset, Merge, End, Updated, LosesFlag;
      ghost var es := Exts();
      TreeDistinct(levels, Cap());
      InsertIsUpdateIff(es, x);
      var path := FindExtent(x.first);
      var leaf := path[depth];
      RootFacts(levels, Cap(), depth, root, store);
      if leaf.entries == 0 {
        EmptyRoot(levels, Cap(), depth, root, store, path, x);
        InsertNewExtent(path, x);
        return Ok(());
      }
      assert root != [];
      LeafRoute(levels, Cap(), path, x.first);
      LeafSearch(levels, Cap(), x.first);
      var ex, pos := leaf.extent.value, leaf.position;
      if CanMerge(ex, x) {
        MergeGood(es, x);
        SetExtent(leaf.node, pos, Merge(ex, x), ChosenLeaf(levels, x.first));
        return Ok(());
      }
      if pos + 1 < leaf.entries && End(ex) < x.first && pos + 1 < |block0| && CanMerge(block0[pos + 1], x) {
        assert false;
      }
      // The left-neighbour check wants the new extent to end before the one found starts.
      LeftNeverTaken(levels, Cap(), x.first, pos);
      if leaf.entries < (if depth == 0 then ROOT_MAX else nodeMax) {
        InsertNewExtent(path, x);
        return Ok(());
      }
      LeafSizes(levels, Cap(), x.first, depth, root, store);
      r := CreateNewLeaf(path, x, block0);
    }

    /**
     The branch of a removal that lies strictly inside one extent: shrink it to its head, insert its tail.
     Returns the physical run handed back to the allocator, its start in 32 bits.
     */
    method PunchInside(from: u32, to: u32, block0: seq<Entry>) returns (r: Result<(nat, nat)>)
      requires Valid() && root != [] && Exts() != []
      requires var e := Exts()[FindSlot(Exts(), from)];
               && GoodEntry(e) && StrictlyInside(e, from, to)
               && forall s :: s in block0 ==> !CanMerge(s, TailOf(e, to))
      modifies this
      ensures r.Ok? ==> Valid() && Exts() == Punched(old(Exts()), FindSlot(old(Exts()), from), from, to)
      ensures r.Ok? ==> forall l: nat :: Lookup(Exts(), l) == if from <= l <= to then None else Lookup(old(Exts()), l)
      ensures r.Ok? ==> var e := old(Exts())[FindSlot(old(Exts()), from)];
                        r.value == (MappingOf(e, from).block % PBLOCK_LOW, to - from + 1)
      ensures r.Ok? ==> TookNodes(old(depth), depth, old(free), free, old(depth) + 1)
      ensures r.Err? ==> r == Err(ENOSPC) && |old(free)| <= old(depth)
    {
      hide FreeOk, Tree, Matches, Unused, Distinct, GoodExtents, Apart, Routed, Lookup, FindSlot, CanMerge, Flat;
      hide Offset, Inserted, HeadOf, TailOf, Punched, Updated, LosesFlag;
      ghost var es := Exts();
      ghost var g := FindSlot(es, from);
      var path := FindExtent(from);
      RootFacts(levels, Cap(), depth, root, store);
      TreeDistinct(levels, Cap());
      LeafRoute(levels, Cap(), path, from);
      LeafSearch(levels, Cap(), from);
      var leaf := path[depth];
      var ex := leaf.extent.value;
      forall l: nat
        ensures Lookup(Punched(es, g, from, to), l) == if from <= l <= to then None else Lookup(es, l)
      {
        PunchedLookup(es, g, from, to, l);
      }
      var start := FreedStart(ex, from);
      PartsFacts(ex, from, to);
      PunchByInsert(es, g, from, to);
      SetExtent(leaf.node, leaf.position, HeadOf(ex, from), ChosenLeaf(levels, from));
      var _ :- InsertExtent(TailOf(ex, to), block0);
      return Ok((start, to - from + 1));
    }
  }

  /** At most `n` nodes were taken from the free ones, and the tree is at most one level deeper. */
  predicate TookNodes(was: nat, depth: nat, before: seq<nat>, free: seq<nat>, n: nat) {
    |before| <= |free| + n && |free| <= |before| && was <= depth <= was + 1
  }

  /** What `n` insertions in a row take at most, the tree being `depth` deep before the first. */
  function NodesFor(n: nat, depth: nat): nat {
    if n == 0 then 0 else depth + 1 + NodesFor(n - 1, depth + 1)
  }

  lemma {:induction false} NodesMore(n: nat, m: nat, d: nat, e: nat)
    requires n <= m && d <= e
    ensures NodesFor(n, d) <= NodesFor(m, e)
  {
    if n > 0 {
      NodesMore(n - 1, m - 1, d + 1, e + 1);
    }
  }

  /** Free nodes that last for `n` insertions and some more still last for the others after those `n`. */
  ghost predicate Lasts(was: nat, before: seq<nat>, depth: nat, free: seq<nat>, n: nat) {
    forall m: nat :: |before| >= NodesFor(n + m, was) ==> |free| >= NodesFor(m, depth)
  }

  lemma LastsNone(depth: nat, free: seq<nat>)
    ensures Lasts(depth, free, depth, free, 0)
  {
  }

  lemma LastsOne(was: nat, before: seq<nat>, depth: nat, free: seq<nat>)
    requires TookNodes(was, depth, before, free, was + 1)
    ensures Lasts(was, before, depth, free, 1)
  {
    forall m: nat | |before| >= NodesFor(1 + m, was)
      ensures |free| >= NodesFor(m, depth)
    {
      NodesMore(m, m, depth, was + 1);
    }
  }

  lemma LastsOn(d0: nat, f0: seq<nat>, d1: nat, f1: seq<nat>, d2: nat, f2: seq<nat>, n: nat, m: nat)
    requires Lasts(d0, f0, d1, f1, n) && Lasts(d1, f1, d2, f2, m)
    ensures Lasts(d0, f0, d2, f2, n + m)
  {
    hide NodesFor;
    forall k: nat | |f0| >= NodesFor(n + m + k, d0)
      ensures |f2| >= NodesFor(k, d2)
    {
      assert |f1| >= NodesFor(m + k, d1);
    }
  }

  lemma LastsMore(was: nat, before: seq<nat>, depth: nat, free: seq<nat>, n: nat, m: nat)
    requires Lasts(was, before, depth, free, n) && n <= m
    ensures Lasts(was, before, depth, free, m)
  {
    hide NodesFor;
    forall k: nat | |before| >= NodesFor(m + k, was)
      ensures |free| >= NodesFor(k, depth)
    {
      NodesMore(n + k, m + k, was, was);
      assert |before| >= NodesFor(n + k, was);
    }
  }

  /** If the nodes did not last for `m` more, they were too few for all of them. */
  lemma TooFew(d0: nat, f0: seq<nat>, d1: nat, f1: seq<nat>, n: nat, m: nat, all: nat)
    requires Lasts(d0, f0, d1, f1, n) && |f1| < NodesFor(m, d1) && n + m <= all
    ensures |f0| < NodesFor(all, d0)
  {
    NodesMore(n + m, all, d0, d0);
    assert |f0| >= NodesFor(n + m, d0) ==> |f1| >= NodesFor(m, d1);
  }

  // ---- search, step by step ------------------------------------------------------------------------------

  ghost predicate NodeAt(L: Levels, m: nat, l: nat, node: nat, entries: seq<Entry>) {
    && m < |L| && L[m] != [] && NonEmpty(L[m])
    && L[m][ChosenAt(L, m, l)] == Node(node, entries)
  }

  ghost predicate RoutedUpTo(L: Levels, path: seq<PathNode>, l: nat) {
    |path| <= |L| && forall m: nat :: m < |path| ==> RoutedAt(L, path[m], m, l)
  }

  lemma RootFacts(L: Levels, cap: Capacity, depth: nat, root: seq<Entry>, store: Store)
    requires Tree(L, cap) && Matches(L, depth, root, store)
    ensures |L| == depth + 1 && L[0] == [Node(0, root)]
    ensures root == [] ==> depth == 0
    ensures root != [] ==> NonEmpty(L[0]) && forall l: nat :: NodeAt(L, 0, l, 0, root)
  {
    hide Distinct, LinkedBut, GoodExtents, Flat, FindSlot;
  }

  lemma NoSteps(L: Levels, path: seq<PathNode>, l: nat)
    requires path == []
    ensures RoutedUpTo(L, path, l)
  {
  }

  lemma StepFacts(L: Levels, cap: Capacity, depth: nat, root: seq<Entry>, store: Store, m: nat, l: nat, node: nat,
      entries: seq<Entry>)
    requires Tree(L, cap) && Matches(L, depth, root, store) && m < depth && NodeAt(L, m, l, node, entries)
    ensures SortedKeys(entries) && entries != []
    ensures var next := LeafLo(entries[FindSlot(entries, l)].ptr);
            next in store && NodeAt(L, m + 1, l, next, store[next].entries)
  {
    hide Distinct, LinkedBut, GoodExtents, Flat, FindSlot, Shape, SortedKeys, Heads, Offset;
    StepDown(L, cap, m, l);
    var c := ChosenAt(L, m + 1, l);
    assert InTree(L, m + 1, c);
    assert HoldsNode(store, L[m + 1][c], depth - (m + 1));
  }

  lemma RoutedMore(L: Levels, path: seq<PathNode>, l: nat, step: PathNode, entries: seq<Entry>)
    requires RoutedUpTo(L, path, l) && NodeAt(L, |path|, l, step.node, entries)
    requires entries != [] && step.position == FindSlot(entries, l) && step.entries == |entries|
    ensures RoutedUpTo(L, path + [step], l)
  {
    hide FindSlot, Heads;
  }

  lemma LeafFacts(L: Levels, cap: Capacity, l: nat, node: nat, entries: seq<Entry>)
    requires Tree(L, cap) && L != [] && NodeAt(L, Last(L), l, node, entries)
    ensures SortedKeys(entries) && entries != []
    ensures Flat(Leaves(L)) != []
    ensures Flat(Leaves(L))[FindSlot(Flat(Leaves(L)), l)] == entries[FindSlot(entries, l)]
  {
    hide Distinct, LinkedBut, GoodExtents, Flat, FindSlot, SortedKeys, Heads, Offset;
    LeafSearch(L, cap, l);
  }

  lemma RoutedWhole(L: Levels, path: seq<PathNode>, l: nat)
    requires RoutedUpTo(L, path, l) && |path| == |L|
    ensures Routed(L, path, l)
  {
  }

  // ---- changing nodes, step by step ------------------------------------------------------------------------

  ghost predicate LeftStep(L: Levels, step: PathNode, m: nat) {
    && m < |L| && L[m] != [] && L[m][0].entries != []
    && step.node == L[m][0].block && step.position == 0
  }

  lemma LeftSteps(L: Levels, path: seq<PathNode>, k: nat)
    requires k < |path| && forall m: nat :: m <= k ==> LeftStep(L, path[m], m)
    ensures forall m: nat :: m <= k ==> m < |L| && L[m] != [] && L[m][0].entries != []
    ensures InTree(L, k, 0) && path[k].node == L[k][0].block && path[k].position == 0
  {
    forall m: nat | m <= k
      ensures m < |L| && L[m] != [] && L[m][0].entries != []
    {
      assert LeftStep(L, path[m], m);
    }
    assert LeftStep(L, path[k], k);
  }

  lemma LeftStepsKept(L: Levels, path: seq<PathNode>, k: nat, es: seq<Entry>)
    requires 0 < k < |path| && forall m: nat :: m <= k ==> LeftStep(L, path[m], m)
    ensures InTree(L, k, 0)
    ensures forall m: nat :: m <= k - 1 ==> LeftStep(PutAt(L, k, 0, [Node(L[k][0].block, es)]), path[m], m)
  {
    assert LeftStep(L, path[k], k);
    forall m: nat | m <= k - 1
      ensures LeftStep(PutAt(L, k, 0, [Node(L[k][0].block, es)]), path[m], m)
    {
      assert LeftStep(L, path[m], m);
    }
  }

  /** A node of the tree can be read back. */
  lemma NodeFacts(L: Levels, depth: nat, root: seq<Entry>, store: Store, k: nat, c: nat)
    requires Matches(L, depth, root, store) && InTree(L, k, c)
    ensures L[k][c].block == 0 <==> k == 0
    ensures k == 0 ==> c == 0 && L[0][0].entries == root
    ensures k > 0 ==> L[k][c].block in store && store[L[k][c].block] == NodeBlock(depth - k, L[k][c].entries)
  {
    if k > 0 {
      assert HoldsNode(store, L[k][c], depth - k);
    }
  }

  // ---- putting an index entry in, step by step ---------------------------------------------------------------

  lemma RootIs(L: Levels, depth: nat, root: seq<Entry>, store: Store)
    requires Matches(L, depth, root, store)
    ensures |L| == depth + 1 && |L[0]| == 1 && L[0][0] == Node(0, root)
  {
  }

  lemma FreeFirst(L: Levels, free: seq<nat>)
    requires FreeOk(L, free) && free != []
    ensures Unused(L, free[0]) && 0 < free[0] < 0x1_0000_0000
  {
  }

  lemma ChainFacts(L: Levels, path: seq<PathNode>, cs: seq<nat>, k: nat)
    requires Chain(L, path, cs, k)
    ensures k < |L| && k < |path| && k < |cs| && InTree(L, k, cs[k])
    ensures path[k].node == L[k][cs[k]].block && path[k].position < |L[k][cs[k]].entries|
  {
  }

  lemma ChainUp(L: Levels, path: seq<PathNode>, cs: seq<nat>, k: nat, news: Level)
    requires Chain(L, path, cs, k) && k >= 1
    ensures k - 1 < |L| && Chain(PutAt(L, k, cs[k], news), path, cs, k - 1)
    ensures cs[k] == Offset(PutAt(L, k, cs[k], news)[k - 1], cs[k - 1]) + path[k - 1].position
  {
    hide Offset, Put;
    var r := PutAt(L, k, cs[k], news);
    forall m: nat | m <= k - 1
      ensures r[m] == L[m] && InTree(L, m, cs[m])
    {
    }
  }

  /** The slots from `i` on have moved right by one; slot `i` itself is free. */
  predicate Shifted(before: seq<Entry>, now: seq<Entry>, i: nat) {
    i <= |before| && |now| == |before| + 1 && now[..i] == before[..i] && now[i + 1..] == before[i..]
  }

  lemma ShiftOne(before: seq<Entry>, now: seq<Entry>, i: nat)
    requires Shifted(before, now, i + 1)
    ensures i + 1 < |now| && Shifted(before, now[i + 1 := now[i]], i)
  {
    var next := now[i + 1 := now[i]];
    assert now[i] == now[..i + 1][i] == before[i];
    assert next[i + 1..] == [before[i]] + now[i + 2..];
    assert before[i..] == [before[i]] + before[i + 1..];
    assert next[..i] == now[..i + 1][..i] == before[..i];
  }

  // ---- inserting an extent, step by step ----------------------------------------------------------------------

  /** A root leaf with room. */
  lemma RootInsert(L: Levels, cap: Capacity, root: seq<Entry>, x: Entry)
    requires Tree(L, cap) && |L| == 1 && L[0] == [Node(0, root)] && |root| < cap.root
    requires NewKey(Flat(Leaves(L)), x.first)
    ensures InTree(L, 0, 0)
    ensures var r := PutAt(L, 0, 0, [Node(0, SortedInsert(root, x))]);
            Tree(r, cap) && r != [] && Flat(Leaves(r)) == SortedInsert(Flat(Leaves(L)), x)
  {
    hide Distinct, SortedKeys, SortedInsert, NewKey, FindSlot;
    var r := PutAt(L, 0, 0, [Node(0, SortedInsert(root, x))]);
    assert r[0] == [Node(0, SortedInsert(root, x))];
    FlatOne(L[0][0]);
    FlatOne(r[0][0]);
    SortedInsertSorted(root, x);
    DistinctOne(L, 0, 0, SortedInsert(root, x));
  }

  /** The leaf of a path is the one the key is routed to. */
  lemma LeafRoute(L: Levels, cap: Capacity, path: seq<PathNode>, l: nat)
    requires Tree(L, cap) && L != [] && Routed(L, path, l)
    ensures |path| == |L| && Leaves(L) != [] && NonEmpty(Leaves(L)) && InTree(L, Last(L), ChosenLeaf(L, l))
    ensures var n := Leaves(L)[ChosenLeaf(L, l)];
            n.entries != [] && path[Last(L)].node == n.block && path[Last(L)].entries == |n.entries|
    ensures path[Last(L)].position == FindSlot(Leaves(L)[ChosenLeaf(L, l)].entries, l)
  {
    assert RoutedAt(L, path[Last(L)], Last(L), l);
  }

  lemma SmallestKey(L: Levels, x: Entry)
    requires L != [] && Leaves(L) != [] && NonEmpty(Leaves(L)) && GoodExtents(Flat(Leaves(L)))
    requires GoodEntry(x) && Apart(Flat(Leaves(L)), x)
    requires var es := Leaves(L)[ChosenLeaf(L, x.first)].entries;
             SortedInsert(es, x)[0].first >= es[0].first
    ensures SortedPos(Leaves(L)[ChosenLeaf(L, x.first)].entries, x.first) > 0
  {
    hide Flat, FindSlot, GoodExtents, Apart;
    var es := Leaves(L)[ChosenLeaf(L, x.first)].entries;
    SortedPosFacts(es, x.first);
    LeafFirst(L, x);
  }

  /** A route into the first leaf is a left path, whatever was put in that leaf's place. */
  lemma RouteLeft(L: Levels, cap: Capacity, path: seq<PathNode>, l: nat, news: Level)
    requires Tree(L, cap) && |L| > 1 && Routed(L, path, l)
    requires Leaves(L) != [] && NonEmpty(Leaves(L)) && ChosenLeaf(L, l) == 0
    ensures forall m: nat :: m <= Last(L) - 1 ==> LeftStep(PutAt(L, Last(L), 0, news), path[m], m)
  {
    hide FindSlot, Heads, Tree;
    forall m: nat | m < |L|
      ensures L[m] != [] && NonEmpty(L[m])
    {
      assert RoutedAt(L, path[m], m, l);
    }
    forall m: nat | m <= Last(L) - 1
      ensures LeftStep(PutAt(L, Last(L), 0, news), path[m], m)
    {
      assert RoutedAt(L, path[m], m, l);
      LeftRoute(L, cap, l, m);
    }
  }

  /** The nodes a route goes through, by their index in each level. */
  function RouteNodes(L: Levels, l: nat): (cs: seq<nat>)
    requires forall m: nat :: m < |L| ==> L[m] != [] && NonEmpty(L[m])
    ensures |cs| == |L| && forall m: nat :: m < |L| ==> cs[m] == ChosenAt(L, m, l)
  {
    seq(|L|, m requires 0 <= m < |L| => ChosenAt(L, m, l))
  }

  lemma RoutedLevels(L: Levels, path: seq<PathNode>, l: nat)
    requires Routed(L, path, l)
    ensures forall m: nat :: m < |L| ==> L[m] != [] && NonEmpty(L[m])
  {
    forall m: nat | m < |L|
      ensures L[m] != [] && NonEmpty(L[m])
    {
      assert RoutedAt(L, path[m], m, l);
    }
  }

  /** Above a replaced leaf the route is still a chain, and it ends at that leaf. */
  lemma RouteChain(L: Levels, cap: Capacity, path: seq<PathNode>, l: nat, news: Level)
    requires Tree(L, cap) && |L| > 1 && Routed(L, path, l)
    requires forall m: nat :: m < |L| ==> L[m] != [] && NonEmpty(L[m])
    ensures var cs, k := RouteNodes(L, l), Last(L) - 1;
            var r := PutAt(L, Last(L), ChosenLeaf(L, l), news);
            Chain(r, path, cs, k) && Offset(r[k], cs[k]) + path[k].position == ChosenLeaf(L, l)
  {
    hide FindSlot, Heads, Tree, Offset, ChosenAt, SlotAt, Put;
    var cs, k := RouteNodes(L, l), Last(L) - 1;
    var r := PutAt(L, Last(L), ChosenLeaf(L, l), news);
    assert cs[Last(L)] == ChosenLeaf(L, l) by { LastChosen(L, l); }
    forall m: nat | m <= k
      ensures InTree(r, m, cs[m]) && path[m].node == r[m][cs[m]].block && path[m].position < |r[m][cs[m]].entries|
      ensures cs[m + 1] == Offset(r[m], cs[m]) + path[m].position
    {
      assert RoutedAt(L, path[m], m, l);
      assert r[m] == L[m];
      StepDown(L, cap, m, l);
    }
  }

  lemma LastChosen(L: Levels, l: nat)
    requires L != [] && Leaves(L) != [] && NonEmpty(Leaves(L))
    ensures ChosenAt(L, Last(L), l) == ChosenLeaf(L, l)
  {
  }

  /** After the keys of a left path are lowered it is still a chain. */
  lemma LeftChain(L: Levels, cap: Capacity, path: seq<PathNode>, l: nat, news: Level, key: u32)
    requires Tree(L, cap) && |L| > 1 && Routed(L, path, l)
    requires forall m: nat :: m < |L| ==> L[m] != [] && NonEmpty(L[m])
    requires ChosenLeaf(L, l) == 0
    requires forall m: nat :: m <= Last(L) - 1 ==>
             PutAt(L, Last(L), 0, news)[m] != [] && PutAt(L, Last(L), 0, news)[m][0].entries != []
    ensures var cs, k := RouteNodes(L, l), Last(L) - 1;
            var r := Lowered(PutAt(L, Last(L), 0, news), k, key);
            Chain(r, path, cs, k) && Offset(r[k], cs[k]) + path[k].position == 0
  {
    hide FindSlot, Heads, Tree, ChosenAt, SlotAt, Put, Flat;
    var cs, k := RouteNodes(L, l), Last(L) - 1;
    var r := Lowered(PutAt(L, Last(L), 0, news), k, key);
    LastChosen(L, l);
    forall m: nat | m <= k
      ensures InTree(r, m, cs[m]) && path[m].node == r[m][cs[m]].block && path[m].position < |r[m][cs[m]].entries|
      ensures cs[m] == 0 && path[m].position == 0 && Offset(r[m], 0) == 0
    {
      assert RoutedAt(L, path[m], m, l);
      LeftRoute(L, cap, l, m);
      FirstOffset(r[m]);
    }
  }

  /** An empty leaf can only be an empty root. */
  lemma EmptyRoot(L: Levels, cap: Capacity, depth: nat, root: seq<Entry>, store: Store, path: seq<PathNode>, x: Entry)
    requires Tree(L, cap) && Matches(L, depth, root, store) && |path| == depth + 1 && path[depth].entries == 0
    requires root != [] ==> Routed(L, path, x.first)
    ensures root == [] && depth == 0 && Flat(Leaves(L)) == []
    ensures SortedInsert([], x) == [x]
  {
    hide FindSlot, Distinct, GoodExtents, Routed;
    RoutedEntries(L, path, root, x.first);
    FlatOne(L[0][0]);
  }

  lemma RoutedEntries(L: Levels, path: seq<PathNode>, root: seq<Entry>, l: nat)
    requires L != [] && |path| == |L| && (root != [] ==> Routed(L, path, l))
    ensures root != [] ==> path[|path| - 1].entries > 0
  {
    hide FindSlot;
    if root != [] {
      assert RoutedAt(L, path[Last(L)], Last(L), l);
    }
  }

  lemma MergeGood(es: seq<Entry>, x: Entry)
    requires es != [] && GoodExtents(es) && GoodEntry(x) && Apart(es, x) && CanMerge(es[FindSlot(es, x.first)], x)
    ensures var p := FindSlot(es, x.first);
            && Inserted(es, x) == es[p := Merge(es[p], x)] && GoodExtents(Inserted(es, x))
                && Merge(es[p], x).first == es[p].first
  {
    hide GoodExtents, FindSlot;
    InsertedGood(es, x);
  }

  /** The slot a search takes is slot 0, or its key is at most the one searched for. */
  lemma LeftNeverTaken(L: Levels, cap: Capacity, l: nat, pos: nat)
    requires Tree(L, cap) && L != [] && Leaves(L) != [] && NonEmpty(Leaves(L))
    requires var es := Leaves(L)[ChosenLeaf(L, l)].entries;
             pos == FindSlot(es, l)
    ensures pos > 0 ==> !(l < Leaves(L)[ChosenLeaf(L, l)].entries[pos].first)
  {
    FindSlotFacts(Leaves(L)[ChosenLeaf(L, l)].entries, l);
  }

  lemma LeafSizes(L: Levels, cap: Capacity, l: nat, depth: nat, root: seq<Entry>, store: Store)
    requires Tree(L, cap) && Matches(L, depth, root, store) && Leaves(L) != [] && NonEmpty(Leaves(L))
    ensures |Leaves(L)[ChosenLeaf(L, l)].entries| <= if depth == 0 then cap.root else cap.node
    ensures depth == 0 ==> Leaves(L)[ChosenLeaf(L, l)].entries == root
    ensures |Leaves(L)[ChosenLeaf(L, l)].entries| <= |Flat(Leaves(L))|
  {
    LeafSize(L, cap, ChosenLeaf(L, l));
    FlatPut(Leaves(L), ChosenLeaf(L, l), []);
  }
}
