/** What the hash index of a directory means: which entry a search for a name finds. */
module HashIndex {
  import opened Bytes
  import opened Outcome
  import opened Records
  import opened TreeLevels
  import opened TreeShape
  import opened HashLeaves
  import opened HashStore

  type LeafMap = map<nat, seq<Item>>

  predicate Ready(L: Levels) {
    L != [] && Leaves(L) != [] && NonEmpty(Leaves(L))
  }

  /** Every entry is in the leaf its hash is routed to. */
  ghost predicate Placed(L: Levels, hash: Hash, leaves: LeafMap)
    requires Ready(L)
  {
    forall i: nat, x: Item :: i < |Leaves(L)| && HasItem(leaves, Leaves(L)[i].block, x) ==>
        ChosenLeaf(L, hash(x.name)) == i
  }

  predicate HasItem(leaves: LeafMap, b: nat, x: Item) {
    b in leaves && x in leaves[b]
  }

  function ScanLeaf(leaves: LeafMap, b: nat, n: Name): Option<Item> {
    if b in leaves then FirstNamed(leaves[b], n) else None
  }

  /** Search by the index: the leaf the hash is routed to, scanned for the name. */
  function FindIn(L: Levels, hash: Hash, leaves: LeafMap, n: Name): Option<Item>
    requires Ready(L)
  {
    ScanLeaf(leaves, Leaves(L)[ChosenLeaf(L, hash(n))].block, n)
  }

  /** Search without the index: the leaves in any order, one after the other. */
  function ScanBlocks(leaves: LeafMap, order: seq<nat>, n: Name): Option<Item> {
    if order == [] then None
    else if ScanLeaf(leaves, order[0], n).Some? then ScanLeaf(leaves, order[0], n)
    else ScanBlocks(leaves, order[1..], n)
  }

  predicate IsLeaf(L: Levels, b: nat)
    requires L != []
  {
    exists i :: 0 <= i < |Leaves(L)| && Leaves(L)[i].block == b
  }

  lemma OnlyThere(L: Levels, hash: Hash, leaves: LeafMap, i: nat, n: Name)
    requires Ready(L) && Placed(L, hash, leaves) && i < |Leaves(L)| && i != ChosenLeaf(L, hash(n))
    ensures ScanLeaf(leaves, Leaves(L)[i].block, n) == None
  {
    hide FirstNamed, ChosenLeaf;
    var b := Leaves(L)[i].block;
    if b in leaves {
      forall k | 0 <= k < |leaves[b]|
        ensures leaves[b][k].name != n
      {
        assert HasItem(leaves, b, leaves[b][k]);
      }
      NotNamed(leaves[b], n);
    }
  }

  /** The index agrees with a plain scan of all leaves, in whatever order they are read. */
  lemma {:induction false} IndexAgreesWithScan(L: Levels, hash: Hash, leaves: LeafMap, order: seq<nat>, n: Name)
    requires Ready(L) && Placed(L, hash, leaves)
    requires forall b :: b in order ==> IsLeaf(L, b)
    requires Leaves(L)[ChosenLeaf(L, hash(n))].block in order || FindIn(L, hash, leaves, n) == None
    ensures ScanBlocks(leaves, order, n) == FindIn(L, hash, leaves, n)
    decreases |order|
  {
    hide Placed, ChosenLeaf, ScanLeaf;
    if order != [] {
      assert order[0] in order && IsLeaf(L, order[0]);
      var i :| 0 <= i < |Leaves(L)| && Leaves(L)[i].block == order[0];
      if i != ChosenLeaf(L, hash(n)) {
        OnlyThere(L, hash, leaves, i, n);
      }
      if ScanLeaf(leaves, order[0], n).None? {
        assert forall b :: b in order[1..] ==> b in order;
        assert forall b :: b in order ==> b == order[0] || b in order[1..];
        IndexAgreesWithScan(L, hash, leaves, order[1..], n);
      }
    }
  }

  // ---- splitting a leaf -----------------------------------------------------------------------------

  function SplitLevels(L: Levels, c: nat, nb: nat, key: u32): Levels
    requires L != [] && c < |Leaves(L)|
  {
    PutAt(L, Last(L), c, [Leaves(L)[c], Node(nb, [Entry(key, 0, 0)])])
  }

  /** A key strictly inside the range of leaf `c`. */
  predicate Inside(L: Levels, c: nat, key: u32)
    requires Ready(L) && c < |Leaves(L)|
  {
    Heads(Leaves(L))[c].first < key && (c + 1 < |Leaves(L)| ==> key < Heads(Leaves(L))[c + 1].first)
  }

  lemma SplitReady(L: Levels, c: nat, nb: nat, key: u32)
    requires Ready(L) && c < |Leaves(L)|
    ensures Ready(SplitLevels(L, c, nb, key))
    ensures Heads(Leaves(SplitLevels(L, c, nb, key))) == InsertAt(Heads(Leaves(L)), c + 1, Entry(key, 0, nb))
  {
    var n := Node(nb, [Entry(key, 0, 0)]);
    HeadsTwo(Leaves(L), c, Leaves(L)[c], n);
    assert Heads(Leaves(L))[c := Head(Leaves(L)[c])] == Heads(Leaves(L));
  }

  lemma InsertSorted(es: seq<Entry>, c: nat, x: Entry)
    requires SortedKeys(es) && c < |es| && es[c].first < x.first && (c + 1 < |es| ==> x.first < es[c + 1].first)
    ensures SortedKeys(InsertAt(es, c + 1, x))
  {
    var r := InsertAt(es, c + 1, x);
    assert forall i :: 0 <= i < |r| ==> r[i] == if i <= c then es[i] else if i == c + 1 then x else es[i - 1];
  }

  /** Where a hash is routed after the split. */
  lemma SplitChosen(L: Levels, c: nat, nb: nat, key: u32, h: nat)
    requires Ready(L) && c < |Leaves(L)| && SortedKeys(Heads(Leaves(L))) && Inside(L, c, key)
    ensures Ready(SplitLevels(L, c, nb, key))
    ensures var f := ChosenLeaf(L, h);
            ChosenLeaf(SplitLevels(L, c, nb, key), h)
            == if f < c then f else if f == c then (if h < key then c else c + 1) else f + 1
  {
    hide FindSlot, SortedKeys;
    SplitReady(L, c, nb, key);
    InsertSorted(Heads(Leaves(L)), c, Entry(key, 0, nb));
    FindAfterInsert(Heads(Leaves(L)), c, Entry(key, 0, nb), h);
  }

  lemma SplitLeaves(L: Levels, c: nat, nb: nat, key: u32, i: nat)
    requires L != [] && c < |Leaves(L)| && i < |Leaves(SplitLevels(L, c, nb, key))|
    ensures |Leaves(SplitLevels(L, c, nb, key))| == |Leaves(L)| + 1
    ensures Leaves(SplitLevels(L, c, nb, key))[i]
         == if i <= c then Leaves(L)[i] else if i == c + 1 then Node(nb, [Entry(key, 0, 0)]) else Leaves(L)[i - 1]
  {
  }

  /** The entries of leaf `c` cut in two by hash. */
  function SplitMap(leaves: LeafMap, b: nat, nb: nat, lower: seq<Item>, upper: seq<Item>): LeafMap {
    leaves[b := lower][nb := upper]
  }

  predicate CutAt(hash: Hash, items: seq<Item>, lower: seq<Item>, upper: seq<Item>, key: u32) {
    && (forall x :: x in lower ==> x in items && hash(x.name) < key)
    && (forall x :: x in upper ==> x in items && hash(x.name) >= key)
  }

  /** The leaf blocks are distinct, and `nb` is none of them. */
  ghost predicate LeafBlocks(L: Levels, nb: nat)
    requires L != []
  {
    && (forall i, j :: 0 <= i < |Leaves(L)| && 0 <= j < |Leaves(L)| && Leaves(L)[i].block == Leaves(L)[j].block ==>
        i == j)
    && (forall i :: 0 <= i < |Leaves(L)| ==> Leaves(L)[i].block != nb)
  }

  lemma DistinctLeaves(L: Levels, nb: nat)
    requires L != [] && Distinct(L) && Unused(L, nb)
    ensures LeafBlocks(L, nb)
  {
    forall i, j | 0 <= i < |Leaves(L)| && 0 <= j < |Leaves(L)| && Leaves(L)[i].block == Leaves(L)[j].block
      ensures i == j
    {
      assert InTree(L, Last(L), i) && InTree(L, Last(L), j);
    }
    forall i | 0 <= i < |Leaves(L)|
      ensures Leaves(L)[i].block != nb
    {
      assert InTree(L, Last(L), i);
    }
  }

  lemma SplitPlaced(L: Levels, hash: Hash, leaves: LeafMap, c: nat, nb: nat, key: u32, lower: seq<Item>,
      upper: seq<Item>)
    requires Ready(L) && Placed(L, hash, leaves) && SortedKeys(Heads(Leaves(L))) && LeafBlocks(L, nb)
    requires c < |Leaves(L)| && Inside(L, c, key) && Leaves(L)[c].block in leaves
    requires CutAt(hash, leaves[Leaves(L)[c].block], lower, upper, key)
    ensures Ready(SplitLevels(L, c, nb, key))
    ensures Placed(SplitLevels(L, c, nb, key), hash, SplitMap(leaves, Leaves(L)[c].block, nb, lower, upper))
  {
    hide ChosenLeaf, SplitLevels, SortedKeys, Inside;
    SplitChosen(L, c, nb, key, 0);
    var r, M := SplitLevels(L, c, nb, key), SplitMap(leaves, Leaves(L)[c].block, nb, lower, upper);
    forall i: nat, x: Item | i < |Leaves(r)| && HasItem(M, Leaves(r)[i].block, x)
      ensures ChosenLeaf(r, hash(x.name)) == i
    {
      SplitChosen(L, c, nb, key, hash(x.name));
      SplitLeaves(L, c, nb, key, i);
      if i <= c {
        assert HasItem(leaves, Leaves(L)[i].block, x);
      } else if i == c + 1 {
        assert HasItem(leaves, Leaves(L)[c].block, x);
      } else {
        assert HasItem(leaves, Leaves(L)[i - 1].block, x);
      }
    }
  }

  /** No search notices the split. */
  lemma SplitFinds(L: Levels, hash: Hash, leaves: LeafMap, c: nat, nb: nat, key: u32, lower: seq<Item>,
      upper: seq<Item>, n: Name)
    requires Ready(L) && SortedKeys(Heads(Leaves(L))) && LeafBlocks(L, nb)
    requires c < |Leaves(L)| && Inside(L, c, key) && Leaves(L)[c].block in leaves
    requires FirstNamed(leaves[Leaves(L)[c].block], n) == FirstNamed(if hash(n) < key then lower else upper, n)
    ensures Ready(SplitLevels(L, c, nb, key))
    ensures FindIn(SplitLevels(L, c, nb, key), hash, SplitMap(leaves, Leaves(L)[c].block, nb, lower, upper), n)
         == FindIn(L, hash, leaves, n)
  {
    hide ChosenLeaf, SplitLevels, SortedKeys, Inside, FirstNamed;
    SplitChosen(L, c, nb, key, hash(n));
    SplitLeaves(L, c, nb, key, ChosenLeaf(SplitLevels(L, c, nb, key), hash(n)));
  }

  // ---- inserting an entry ------------------------------------------------------------------------------

  lemma InsertPlaced(L: Levels, hash: Hash, leaves: LeafMap, x: Item, items: seq<Item>, nb: nat)
    requires Ready(L) && Placed(L, hash, leaves) && LeafBlocks(L, nb)
    requires var b := Leaves(L)[ChosenLeaf(L, hash(x.name))].block;
             b in leaves && forall y :: y in items ==> y in leaves[b] || y == x
    ensures Placed(L, hash, leaves[Leaves(L)[ChosenLeaf(L, hash(x.name))].block := items])
  {
    hide ChosenLeaf;
    var b := Leaves(L)[ChosenLeaf(L, hash(x.name))].block;
    var M := leaves[b := items];
    forall i: nat, y: Item | i < |Leaves(L)| && HasItem(M, Leaves(L)[i].block, y)
      ensures ChosenLeaf(L, hash(y.name)) == i
    {
      if y != x || Leaves(L)[i].block != b {
        assert HasItem(leaves, Leaves(L)[i].block, y);
      }
    }
  }

  /** Inserting a new name changes the search for that name only. */
  lemma InsertFinds(L: Levels, hash: Hash, leaves: LeafMap, x: Item, p: nat, n: Name, nb: nat)
    requires Ready(L) && LeafBlocks(L, nb) && FindIn(L, hash, leaves, x.name) == None
    requires Leaves(L)[ChosenLeaf(L, hash(x.name))].block in leaves
    ensures var b := Leaves(L)[ChosenLeaf(L, hash(x.name))].block;
            FindIn(L, hash, leaves[b := PutItem(leaves[b], p, x)], n) == if n == x.name then Some(x)
                else FindIn(L, hash, leaves, n)
  {
    hide ChosenLeaf, FirstNamed, PutItem;
    var b := Leaves(L)[ChosenLeaf(L, hash(x.name))].block;
    PutItemFirst(leaves[b], p, x, n);
  }

  // ---- the split key ------------------------------------------------------------------------------------

  predicate Bounds(level: Level) {
    forall i :: 0 <= i < |level| ==> IsBound(level[i].entries)
  }

  /** The leaf level has one entry per leaf: its flat keys are the leaves' lowest hashes. */
  lemma {:induction false} BoundsFlat(level: Level)
    requires Bounds(level)
    ensures |Flat(level)| == |level| && forall i :: 0 <= i < |level| ==> Flat(level)[i] == level[i].entries[0]
    decreases |level|
  {
    if level != [] {
      BoundsFlat(level[1..]);
      assert IsBound(level[0].entries);
      assert forall i :: 1 <= i < |level| ==> level[i] == level[1..][i - 1];
    }
  }

  /** The first hash of the upper half lies strictly inside the leaf's range. */
  lemma KeyInside(L: Levels, hash: Hash, leaves: LeafMap, c: nat, items: seq<Item>, mid: nat)
    requires Ready(L) && Placed(L, hash, leaves) && c < |Leaves(L)| && Leaves(L)[c].block in leaves
    requires Heads(Leaves(L))[0].first == 0 && multiset(items) == multiset(leaves[Leaves(L)[c].block])
    requires 0 < mid < |items| && hash(items[mid - 1].name) < hash(items[mid].name)
    ensures Inside(L, c, hash(items[mid].name))
  {
    hide FindSlot;
    var b := Leaves(L)[c].block;
    forall x | x in items
      ensures ChosenLeaf(L, hash(x.name)) == c
    {
      assert x in multiset(items) && x in multiset(leaves[b]);
      assert HasItem(leaves, b, x);
    }
    assert items[mid - 1] in items && items[mid] in items;
    FindSlotFacts(Heads(Leaves(L)), hash(items[mid - 1].name));
    FindSlotFacts(Heads(Leaves(L)), hash(items[mid].name));
  }

  /** A key inside a leaf's range is routed to it and is no leaf's lowest hash. */
  lemma InsideChosen(L: Levels, c: nat, key: u32)
    requires Ready(L) && Bounds(Leaves(L)) && SortedKeys(Heads(Leaves(L))) && c < |Leaves(L)| && Inside(L, c, key)
    ensures ChosenLeaf(L, key) == c && NewKey(Flat(Leaves(L)), key) && SortedPos(Leaves(L)[c].entries, key) == 1
  {
    var hs := Heads(Leaves(L));
    FindSlotUnique(hs, key, c);
    BoundsFlat(Leaves(L));
    forall i | 0 <= i < |Flat(Leaves(L))|
      ensures Flat(Leaves(L))[i].first != key
    {
      assert hs[i].first == Flat(Leaves(L))[i].first;
      if i < c {
        assert hs[i].first < hs[c].first;
      } else if i > c + 1 {
        assert hs[c + 1].first < hs[i].first;
      }
    }
    assert IsBound(Leaves(L)[c].entries);
    SortedPosUnique(Leaves(L)[c].entries, key, 1);
  }

  /** Splitting a leaf leaves the index short of exactly the new leaf's entry. */
  lemma SplitDangles(L: Levels, cap: Capacity, c: nat, nb: nat, key: u32)
    requires Tree(L, cap) && |L| > 1 && Ready(L) && Bounds(Leaves(L)) && c < |Leaves(L)| && Inside(L, c, key)
    requires Unused(L, nb) && cap.node >= 1
    ensures Dangling(SplitLevels(L, c, nb, key), cap, Last(L) - 1, c, Entry(key, 0, nb))
    ensures SortedKeys(Heads(Leaves(L)))
  {
    hide Flat, FindSlot, SortedPos, Dangling, Inside, Shape, LinkedBut, Distinct, Unused, NewKey;
    HeadsSorted(Leaves(L));
    InsideChosen(L, c, key);
    var x, lower := Entry(key, 0, 0), Leaves(L)[c].entries;
    assert IsBound(lower);
    LeafSplits(L, cap, x, nb, 1);
    assert SortedInsert(lower, x) == [lower[0], x];
    assert [lower[0], x][..1] == lower && [lower[0], x][1..] == [x];
    assert Node(Leaves(L)[c].block, lower) == Leaves(L)[c];
  }
}
