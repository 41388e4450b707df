/** Removing a range that holds no extent: what a write does to a hole that reads as preallocated. */
module ExtentHole {
  import opened Bytes
  import opened Outcome
  import opened Records
  import opened Extents
  import opened TreeLevels
  import opened TreeShape
  import opened ExtentStore
  import opened ExtentRuns
  import opened ExtentTree

  /**
   The search answers a hole with the extent in front of it, so its blocks are reported unwritten when that
   extent is.
   */
  predicate Reported(es: seq<Entry>, l: nat) {
    es != [] && IsUnwritten(es[FindSlot(es, l)])
  }

  /** A mapped block is reported unwritten exactly when it is. */
  lemma ReportedMapped(es: seq<Entry>, l: nat)
    requires GoodExtents(es) && Lookup(es, l).Some?
    ensures Reported(es, l) <==> Lookup(es, l).value.unwritten
  {
    hide FindSlot;
    if es == [] {
      LookupNone([], l);
    } else {
      FindSlotLookup(es, l);
    }
  }

  /** Reporting a hole as unwritten happens: one preallocated block, and the hole behind it. */
  lemma HoleReported()
    ensures var es := [MakeExtent(0, 1, 1, true)]; GoodExtents(es) && Lookup(es, 5) == None && Reported(es, 5)
  {
    var es := [MakeExtent(0, 1, 1, true)];
    LookupNone(es, 5);
  }

  /** Every entry ends before the range or starts behind it. */
  predicate Clear(es: seq<Entry>, from: nat, to: nat) {
    forall i :: 0 <= i < |es| ==> End(es[i]) <= from || es[i].first > to
  }

  /** The walk over a leaf's slots: nothing is cut, nothing is dropped. */
  method WalkLeaf(slots: seq<Entry>, pos: nat, from: nat, to: nat) returns (r: seq<Entry>)
    requires pos <= |slots| && Clear(slots, from, to)
    ensures r == slots
  {
    r := slots;
    for i := pos to |slots|
      invariant r == slots
    {
      if r[i].first > to {
        break;
      }
      if End(r[i]) <= from {
        continue;
      }
      assert false;
    }
  }

  /**
   Is there another index entry to visit? `lastFirst` is what device block 0 holds where the node's last key would
   be.
   */
  predicate MoreToRemove(entries: nat, position: nat, first: nat, lastFirst: nat, to: nat) {
    entries != 1 && position < entries && first <= lastFirst && first <= to
  }

  /** The leaf a search ends in holds only entries clear of a hole. */
  lemma LeafClear(tree: ExtentTree, path: seq<PathNode>, from: u32, to: u32)
    requires tree.Valid() && from <= to && tree.root != [] && Routed(tree.levels, path, from)
    requires |path| == tree.depth + 1
    requires forall l: nat :: from <= l <= to ==> Lookup(tree.Exts(), l) == None
    ensures var node := path[tree.depth].node;
            && (node == 0 <==> tree.depth == 0) && (node == 0 || node in tree.store)
            && Clear(tree.ReadSlots(node), from, to) && tree.ReadSlots(node) != []
            && (node != 0 ==> tree.store[node] == NodeBlock(0, tree.ReadSlots(node)))
            && path[tree.depth].position < |tree.ReadSlots(node)|
                && End(tree.ReadSlots(node)[|tree.ReadSlots(node)| - 1]) > 0
  {
    hide Tree, FreeOk, Lookup, FindSlot, Flat, Offset, Routed;
    var L := tree.levels;
    RootFacts(L, tree.Cap(), tree.depth, tree.root, tree.store);
    LeafRoute(L, tree.Cap(), path, from);
    var c := ChosenLeaf(L, from);
    NodeFacts(L, tree.depth, tree.root, tree.store, tree.depth, c);
    var es := L[tree.depth][c].entries;
    var up: nat := to + 1;
    HoleIsFree(tree.Exts(), from, up);
    forall i | 0 <= i < |es|
      ensures End(es[i]) <= from || es[i].first > to
    {
      FlatAt(Leaves(L), c, i);
    }
    FlatAt(Leaves(L), c, |es| - 1);
    assert GoodEntry(Flat(Leaves(L))[Offset(Leaves(L), c) + (|es| - 1)]);
  }

  /**
   The removal of a range without extents, in a tree of at most one level of index nodes: the leaf is walked and
   written back, once for each index entry that still looks worth a visit, and nothing changes.
   */
  method RemoveHole(tree: ExtentTree, from: u32, to: u32, lastFirst: u32)
    requires tree.Valid() && from <= to && tree.root != [] && tree.depth <= 1
    requires forall l: nat :: from <= l <= to ==> Lookup(tree.Exts(), l) == None
    modifies tree`root, tree`store
    ensures tree.root == old(tree.root) && tree.store == old(tree.store)
  {
    hide Lookup, FindSlot, Tree, FreeOk, Matches, GoodExtents, Routed, Flat;
    var path := tree.FindExtent(from);
    var leaf := path[tree.depth];
    LeafClear(tree, path, from, to);
    OutsideHole(tree.Exts(), from, to);
    var ex := leaf.extent.value;
    if ex.first < from && to + 1 < End(ex) {
      assert false;
    }
    var slots := tree.ReadSlots(leaf.node);
    var last := End(slots[|slots| - 1]) - 1;
    var leafFrom := if slots[0].first < from then from else slots[0].first;
    var leafTo := if last > to then to else last;
    ghost var was := tree.store;
    ClearNarrower(slots, from, to, leafFrom, leafTo);
    WriteLeaf(tree, leaf, slots, leafFrom, leafTo);
    if tree.depth == 1 {
      ParentSlot(tree, path, from);
      var position := path[0].position + 1;
      var first := if leaf.position == 0 then ex.first else tree.root[path[0].position].first;
      while MoreToRemove(path[0].entries, position, first, lastFirst, to)
        invariant tree.root == old(tree.root) && tree.store == old(tree.store)
        decreases path[0].entries - position
      {
        WriteLeaf(tree, leaf, slots, leafFrom, leafTo);
        position := position + 1;
      }
    }
  }

  /** Walk a leaf and write back what is left of it. */
  method WriteLeaf(tree: ExtentTree, leaf: PathNode, slots: seq<Entry>, from: nat, to: int)
    requires (leaf.node == 0 || leaf.node in tree.store) && leaf.position <= |slots|
    requires slots == tree.ReadSlots(leaf.node) && (leaf.node != 0 ==> tree.store[leaf.node] == NodeBlock(0, slots))
    requires to >= 0 && Clear(slots, from, to)
    modifies tree`root, tree`store
    ensures tree.root == old(tree.root) && tree.store == old(tree.store)
  {
    var kept := WalkLeaf(slots, leaf.position, from, to);
    if leaf.node == 0 {
      tree.root := kept;
    } else {
      tree.store := tree.store[leaf.node := NodeBlock(0, kept)];
    }
  }

  /** No extent reaches into the hole, so none has it strictly inside. */
  lemma OutsideHole(es: seq<Entry>, from: nat, to: nat)
    requires GoodExtents(es) && es != [] && from <= to && forall l: nat :: from <= l <= to ==> Lookup(es, l) == None
    ensures var e := es[FindSlot(es, from)]; !(e.first < from && to + 1 < End(e))
  {
    hide FindSlot;
    FindSlotLookup(es, from);
  }

  lemma ClearNarrower(slots: seq<Entry>, from: nat, to: nat, leafFrom: nat, leafTo: int)
    requires Clear(slots, from, to) && leafFrom >= from && leafTo <= to
    ensures leafTo >= 0 ==> Clear(slots, leafFrom, leafTo)
  {
  }

  lemma ParentSlot(tree: ExtentTree, path: seq<PathNode>, l: u32)
    requires tree.Valid() && tree.depth == 1 && tree.root != [] && Routed(tree.levels, path, l)
    ensures path[0].position < |tree.root|
  {
    hide Tree, FreeOk, GoodExtents, Flat, FindSlot;
    RootFacts(tree.levels, tree.Cap(), tree.depth, tree.root, tree.store);
    assert RoutedAt(tree.levels, path[0], 0, l);
  }
}
