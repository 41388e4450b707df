/** The indexed directory: probing, and adding entries through leaf splits, node splits and growth. */
module HashTree {
  import opened Bytes
  import opened Outcome
  import opened Records
  import opened TreeLevels
  import opened TreeShape
  import opened HashLeaves
  import opened HashStore
  import opened HashIndex

  /** The index blocks without the leaves. */
  function IndexPart(L: Levels): Levels
    requires L != []
  {
    L[..|L| - 1]
  }

  /** The route of a probe: the block visited at each index level. */
  ghost predicate FramesOk(L: Levels, frames: seq<nat>, h: nat) {
    |frames| < |L| && forall m: nat :: m < |frames| ==> FrameAt(L, frames[m], m, h)
  }

  ghost predicate FrameAt(L: Levels, block: nat, m: nat, h: nat)
    requires m < |L|
  {
    L[m] != [] && NonEmpty(L[m]) && block == L[m][ChosenAt(L, m, h)].block
  }

  /** The frames up to level `k` lead from node to node through the slots `ps`. */
  ghost predicate Chain(L: Levels, frames: seq<nat>, cs: seq<nat>, ps: seq<nat>, k: nat) {
    && k < |L| && k < |frames| && k < |cs| && k < |ps|
    && (forall m: nat :: m <= k ==>
        InTree(L, m, cs[m]) && frames[m] == L[m][cs[m]].block && ps[m] < |L[m][cs[m]].entries|)
    && (forall m: nat :: m < k ==> cs[m + 1] == Offset(L[m], cs[m]) + ps[m])
  }

  /** The child whose range covers the hash: linear from slot 1, slot 0 covers the lowest range. */
  method LookupSlot(stored: seq<Entry>, target: u32, ghost es: seq<Entry>) returns (p: nat)
    requires Kept(stored, es) && SortedKeys(es) && es != []
    ensures p == FindSlot(es, target)
  {
    p := 0;
    var i := 1;
    while i < |stored| && stored[i].first <= target
      invariant 1 <= i <= |stored| && p == i - 1
      invariant p > 0 ==> es[p].first <= target
    {
      p := i;
      i := i + 1;
    }
    FindSlotUnique(es, target, p);
  }

  /** Insert a record behind all those with smaller keys; slot 0 has no key of its own. */
  method PlaceKept(stored: seq<Entry>, x: Entry, ghost es: seq<Entry>) returns (r: seq<Entry>)
    requires Kept(stored, es) && SortedPos(es, x.first) > 0
    ensures Kept(r, SortedInsert(es, x)) && |r| == |stored| + 1
  {
    SortedPosFacts(es, x.first);
    ghost var sp := SortedPos(es, x.first);
    var pos := |stored|;
    for i := 1 to |stored|
      invariant i <= sp && pos == |stored|
    {
      if stored[i].first > x.first {
        pos := i;
        break;
      }
    }
    assert pos == sp;
    r := stored[..pos] + [x] + stored[pos..];
    forall i | 0 <= i < |r|
      ensures r[i] == if i < sp then stored[i] else if i == sp then x else stored[i - 1]
    {
    }
  }

  /** The entries of an index block as a splitter reads them: the first hash counts as 0. */
  function ReadEntries(stored: seq<Entry>): (r: seq<Entry>)
    requires stored != []
    ensures |r| == |stored|
  {
    stored[0 := stored[0].(first := 0)]
  }

  lemma ReadKept(stored: seq<Entry>, es: seq<Entry>)
    requires Kept(stored, es) && stored != []
    ensures Kept(ReadEntries(stored), es)
  {
  }

  /** In a node about to be split all hashes differ, so the middle is a boundary. */
  lemma MiddleBoundary(ents: seq<Entry>, es: seq<Entry>, hs: seq<u32>)
    requires Kept(ents, es) && SortedKeys(es) && |es| >= 2 && |hs| == |es| && ents[0].first == 0
    requires forall i :: 0 <= i < |hs| ==> hs[i] == ents[i].first
    ensures Ascending(hs) && Boundary(hs, |hs| / 2)
  {
    forall i, j | 0 <= i < j < |hs|
      ensures hs[i] < hs[j]
    {
      assert es[i].first < es[j].first && hs[j] == es[j].first;
    }
  }

  class HashTree {
    const cap: Capacity
    const hash: Hash
    var indirect: nat
    var root: seq<Entry>
    var blocks: Blocks
    var spare: nat
    ghost var levels: Levels

    /** Everything is where the levels say. */
    ghost predicate Stored()
      reads this
    {
      2 <= cap.root < cap.node && Matches(levels, indirect, root, blocks)
    }

    /** The index is complete. */
    ghost predicate Whole()
      reads this
    {
      Stored() && Tree(levels, cap) && Ready(levels)
    }

    ghost predicate Valid()
      reads this
    {
      Whole() && Placed(levels, hash, blocks.leaves) && Heads(Leaves(levels))[0].first == 0
    }

    /** The entry a search by the index ends at. */
    ghost function Found(n: Name): Option<Item>
      requires Whole()
      reads this
    {
      FindIn(levels, hash, blocks.leaves, n)
    }

    /** A single-block directory converted: its entries move to leaf 1, and block 0 becomes the root. */
    constructor (cap: Capacity, hash: Hash, items: seq<Item>, spare: nat)
      requires 2 <= cap.root < cap.node
      ensures Valid() && this.hash == hash && this.cap == cap
      ensures forall n :: Found(n) == FirstNamed(items, n)
    {
      this.cap, this.hash, this.spare := cap, hash, spare;
      indirect, root, blocks := 0, [Entry(0, 0, 1)], Blocks(map[], map[1 := items], 2);
      levels := FirstLevels();
      new;
      FirstTree(cap);
      hide Tree, FirstLevels, FindSlot, Heads;
      ConvertedStored(items);
      ConvertedFinds(hash, items);
    }

    /** Append a block to the directory file. */
    method Append() returns (r: Result<nat>)
      modifies this`blocks, this`spare
      ensures r.Ok? ==> r.value == old(blocks).size && blocks == old(blocks).(size := old(blocks).size + 1)
      ensures r.Err? ==> r == Err(ENOSPC) && blocks == old(blocks)
      ensures r.Ok? <==> old(spare) > 0
      ensures r.Ok? ==> spare == old(spare) - 1
    {
      if spare == 0 {
        return Err(ENOSPC);
      }
      spare := spare - 1;
      r := Ok(blocks.size);
      blocks := blocks.(size := blocks.size + 1);
    }

    /** Every index block from the root down to the leaf's parent, and the leaf, for a hash. */
    method ProbeFrames(h: u32) returns (frames: seq<nat>, leaf: nat)
      requires Stored() && Tree(IndexPart(levels), cap) && root != []
      ensures |frames| == indirect + 1 && FramesOk(levels, frames, h) && FrameAt(levels, frames[indirect], indirect, h)
      ensures var c := ChosenAt(levels, indirect, h);
              leaf == levels[indirect][c].entries[SlotAt(levels, indirect, h)].ptr
    {
      hide Matches, Tree, Kept, ChosenAt, SlotAt, FindSlot, SortedKeys, FramesOk, Flat;
      frames := [];
      ProbeStart(levels, cap, indirect, root, blocks, h);
      var stored, lblk, lv := root, 0, indirect;
      while true
        invariant 0 <= lv <= indirect && |frames| == indirect - lv
        invariant FramesOk(levels, frames, h) && AtNode(levels, indirect - lv, h, lblk, stored)
        decreases lv
      {
        ghost var m := indirect - lv;
        ghost var es := ProbeNode(levels, cap, indirect, root, blocks, m, h, lblk, stored);
        var p := LookupSlot(stored, h, es);
        var child := stored[p].ptr;
        ProbeFrame(levels, indirect, frames, m, h, lblk, stored);
        frames := frames + [lblk];
        if lv == 0 {
          assert FrameAt(levels, lblk, m, h) by { LastFrame(levels, frames, h, m); }
          return frames, child;
        }
        ProbeStep(levels, cap, indirect, root, blocks, m, h, lblk, stored);
        stored := blocks.nodes[child];
        lblk := child;
        lv := lv - 1;
      }
    }

    // ---- the index ----------------------------------------------------------------------------------------

    /** Insert `x` into the full node, keep the lower half, move the upper half to a new node. */
    method SplitNode(node: nat, x: Entry, ghost es: seq<Entry>) returns (r: Result<(u32, nat)>)
      requires node in blocks.nodes && node < blocks.size && Kept(blocks.nodes[node], es) && es != []
      requires SortedPos(es, x.first) > 0 && SortedKeys(SortedInsert(es, x))
      modifies this`blocks, this`spare
      ensures r.Err? ==> r == Err(ENOSPC) && old(spare) == 0
      ensures r.Ok? ==> spare == old(spare) - 1
      ensures r.Ok? ==>
                var all, h, B := SortedInsert(es, x), (|es| + 1) / 2, old(blocks);
                && r.value == (all[h].first, B.size) && 1 <= h < |all|
                && node in blocks.nodes && B.size in blocks.nodes
                && Kept(blocks.nodes[node], all[..h]) && Kept(blocks.nodes[B.size], all[h..])
                && blocks == Blocks(B.nodes[node := blocks.nodes[node]][B.size := blocks.nodes[B.size]], B.leaves,
                    B.size + 1)
    {
      hide SortedPos, SortedInsert;
      ghost var all := SortedInsert(es, x);
      ReadKept(blocks.nodes[node], es);
      var ents := PlaceKept(ReadEntries(blocks.nodes[node]), x, es);
      FirstKept(ReadEntries(blocks.nodes[node]), x, es, ents);
      ents := ReadEntries(ents);
      var hs := seq(|ents|, i requires 0 <= i < |ents| => ents[i].first);
      MiddleBoundary(ents, all, hs);
      var mid := SplitPoint(hs);
      if mid.None? {
        return Err(ENOSPC);
      }
      var h := mid.value;
      var nb :- Append();
      blocks := blocks.(nodes := blocks.nodes[node := ents[..h]][nb := ents[h..]]);
      return Ok((ents[h].first, nb));
    }

    /** Move all root entries into a new node and point the root at it; at most one indirect level. */
    method GrowDepth() returns (r: Result<()>)
      requires Stored() && root != []
      modifies this
      ensures r.Err? ==> r == Err(ENOSPC)
      ensures r.Ok? <==> old(indirect) == 0 && old(spare) > 0
      ensures r.Ok? ==> old(indirect) == 0 && indirect == 1 && Stored() && |root| == 1
                        && old(levels) != [] && |old(levels)[0]| == 1 && old(levels)[0][0].entries != []
                        && levels == Grown(old(levels), old(blocks).size) && blocks.leaves == old(blocks).leaves
    {
      hide Grown, Kept;
      if indirect >= 1 {
        return Err(ENOSPC);
      }
      RootKept(levels, indirect, root, blocks);
      ghost var B := blocks;
      var ents := ReadEntries(root);
      ReadKept(root, levels[0][0].entries);
      var nb :- Append();
      blocks := blocks.(nodes := blocks.nodes[nb := ents]);
      MatchesGrown(levels, indirect, root, B, ents, [Entry(root[0].first, 0, nb)]);
      root := [Entry(root[0].first, 0, nb)];
      indirect := indirect + 1;
      levels := Grown(levels, nb);
      return Ok(());
    }

    /** Insert an index entry at `level`, splitting nodes or growing the tree as needed. */
    method AddToIndex(frames: seq<nat>, level: nat, x: Entry, ghost cs: seq<nat>,
        ghost ps: seq<nat>) returns (r: Result<()>)
      requires Stored() && level <= indirect && Chain(levels, frames, cs, ps, level)
      requires Dangling(levels, cap, level, Offset(levels[level], cs[level]) + ps[level], x)
      modifies this
      ensures r.Err? ==>
                && r == Err(ENOSPC) && |old(levels[level][cs[level]].entries)| >= cap.At(level)
                && IndexFull(cap, old(indirect), |old(root)|, old(spare), level)
      ensures r.Ok? ==>
              Stored() && Tree(levels, cap) && levels != [] && Leaves(levels) == Leaves(old(levels))
                  && blocks.leaves == old(blocks).leaves
      decreases if indirect == 0 then 1 else 0, level
    {
      hide Dangling, Tree, Matches, PutAt, SortedInsert, SortedPos, Unused, Distinct, Chain, Offset, Kept, FramesOk;
      hide FrameAt, ChosenAt, SlotAt;
      ChainFacts(levels, frames, cs, ps, level);
      ghost var L, B, c: nat, p: nat := levels, blocks, cs[level], ps[level];
      DanglingFacts(L, cap, level, Offset(L[level], c) + p, x);
      NodeFacts(L, indirect, root, B, level, c);
      RootKept(L, indirect, root, B);
      PlaceFacts(L, cap, level, c, p, x);
      InsertPos(L, cap, level, c, p, x);
      ghost var es := L[level][c].entries;
      var lblk := frames[level];
      var stored := if level == 0 then root else blocks.nodes[lblk];
      SameLength(stored, es);
      if |stored| < cap.At(level) {
        var more := PlaceKept(stored, x, es);
        FillFits(L, cap, level, c, p, x);
        if level == 0 {
          MatchesRoot(L, indirect, root, B, SortedInsert(es, x), more);
          root := more;
        } else {
          MatchesNode(L, indirect, root, B, level, c, SortedInsert(es, x), more);
          blocks := blocks.(nodes := blocks.nodes[lblk := more]);
        }
        levels := PutAt(L, level, c, [Node(lblk, SortedInsert(es, x))]);
        PutLast(L, level, c, [Node(lblk, SortedInsert(es, x))]);
        return Ok(());
      }
      if level == 0 {
        RootFull(L, cap, x, p);
        RootOffset(L);
        NextUnused(L, indirect, root, B);
        var _ :- GrowDepth();
        GrownDangling(L, cap, p, x, B.size);
        GrownChain(L, B.size, p);
        IndexOfDangling(levels, cap, p, x);
        var newFrames, _ := ProbeFrames(x.first);
        GrownFrames(L, B.size, newFrames, x.first, p);
        r := AddToIndex(newFrames, 1, x, [0, 0], [0, p]);
        return;
      }
      NodeFull(L, cap, level, c);
      AllSorted(L, cap, level, c, p, x);
      NextUnused(L, indirect, root, B);
      var halves :- SplitNode(lblk, x, es);
      var median, nb := halves.0, halves.1;
      ghost var all, h := SortedInsert(es, x), (|es| + 1) / 2;
      ghost var low, high := Node(lblk, all[..h]), Node(nb, all[h..]);
      FillSplits(L, cap, level, c, p, x, nb, h);
      MatchesNodeSplit(L, indirect, root, B, level, c, low, high, blocks.nodes[lblk], blocks.nodes[nb]);
      levels := PutAt(L, level, c, [low, high]);
      PutLast(L, level, c, [low, high]);
      ChainUp(L, frames, cs, ps, level, [low, high]);
      r := AddToIndex(frames, level - 1, Entry(median, 0, nb), cs, ps);
    }

    // ---- names ----------------------------------------------------------------------------------------------

    /** Search by the index: probe, then scan the leaf. */
    method FindEntry(n: Name) returns (r: Option<Item>)
      requires Valid()
      ensures r == Found(n)
    {
      hide Tree, Matches, FramesOk, FrameAt, FindSlot, Placed, FirstNamed;
      var leaf := Probe(hash(n));
      return FirstNamed(blocks.leaves[leaf], n);
    }

    /** The leaf the hash is routed to. */
    method Probe(h: u32) returns (leaf: nat)
      requires Whole()
      ensures leaf == Leaves(levels)[ChosenLeaf(levels, h)].block && leaf in blocks.leaves
    {
      hide Tree, Matches, FramesOk, FrameAt, FindSlot, Heads, Flat, Offset;
      WholeFacts(levels, cap, indirect, root, blocks, h);
      var frames;
      frames, leaf := ProbeFrames(h);
    }

    /** Split the full leaf by hash; no search notices, but the index lacks the new leaf's entry. */
    method SplitLeaf(leaf: nat, ghost c: nat) returns (r: Result<(u32, nat)>)
      requires Valid() && c < |Leaves(levels)| && leaf == Leaves(levels)[c].block
      modifies this`blocks, this`spare, this`levels
      ensures leaf in old(blocks).leaves
      ensures r.Err? ==> r == Err(ENOSPC) && (old(spare) == 0 || OneHash(hash, old(blocks).leaves[leaf]))
      ensures r.Ok? ==> spare == old(spare) - 1
      ensures r.Ok? ==> Stored() && old(levels) != [] && c < |Leaves(old(levels))|
                        && levels == SplitLevels(old(levels), c, r.value.1, r.value.0)
                        && Dangling(levels, cap, indirect, c, Entry(r.value.0, 0, r.value.1))
                        && Ready(levels) && Placed(levels, hash, blocks.leaves) && Heads(Leaves(levels))[0].first == 0
                        && forall n :: FindIn(levels, hash, blocks.leaves, n) == old(Found(n))
    {
      hide Tree, Matches, FindSlot, SortByHash, FirstNamed, FindIn, Placed, Inside, ChosenLeaf, SplitLevels, Dangling;
      hide InHashOrder, Distinct, Unused, Flat, Heads;
      ghost var L: Levels, B := levels, blocks;
      LeafFacts(L, cap, indirect, root, B, c);
      if |blocks.leaves[leaf]| < 2 {
        return Err(ENOSPC);
      }
      var items := SortByHash(hash, blocks.leaves[leaf]);
      SortFacts(hash, blocks.leaves[leaf]);
      var hs := HashesOf(hash, items);
      SortedHashes(hash, items, hs);
      var split := SplitPoint(hs);
      if split.None? {
        AllOneHash(hash, blocks.leaves[leaf], items, hs);
        return Err(ENOSPC);
      }
      var mid := split.value;
      var key := hs[mid];
      var nb :- Append();
      SplitWorks(L, cap, hash, B.leaves, c, nb, items, mid);
      SplitStored(L, indirect, root, B, c, key, items[..mid], items[mid..]);
      blocks := blocks.(leaves := blocks.leaves[leaf := items[..mid]][nb := items[mid..]]);
      levels := SplitLevels(L, c, nb, key);
      return Ok((key, nb));
    }

    /** Put an entry into a leaf at the gap found for it. */
    method PutInLeaf(leaf: nat, p: nat, x: Item)
      requires Valid() && leaf == Leaves(levels)[ChosenLeaf(levels, hash(x.name))].block && leaf in blocks.leaves
      modifies this`blocks
      ensures Valid()
      ensures old(Found(x.name)) == None ==> forall n :: Found(n) == if n == x.name then Some(x) else old(Found(n))
    {
      hide Tree, Matches, FindSlot, FindIn, Placed, ChosenLeaf, Distinct, Unused, Flat, Heads, PutItem;
      ghost var B := blocks;
      TreeDistinct(levels, cap);
      NextUnused(levels, indirect, root, B);
      DistinctLeaves(levels, B.size);
      PutItemMembers(B.leaves[leaf], p, x);
      InsertPlaced(levels, hash, B.leaves, x, PutItem(B.leaves[leaf], p, x), B.size);
      MatchesLeaf(levels, indirect, root, B, leaf, PutItem(B.leaves[leaf], p, x));
      if FindIn(levels, hash, B.leaves, x.name) == None {
        forall n
          ensures FindIn(levels, hash, B.leaves[leaf := PutItem(B.leaves[leaf], p, x)], n)
               == if n == x.name then Some(x) else FindIn(levels, hash, B.leaves, n)
        {
          InsertFinds(levels, hash, B.leaves, x, p, n, B.size);
        }
      }
      blocks := blocks.(leaves := blocks.leaves[leaf := PutItem(blocks.leaves[leaf], p, x)]);
    }

    /**
     Add an entry. `first` and `second` say where the leaf has a gap for it, before and after a split, if
     it has one: that depends on the record lengths.
     */
    method AddEntry(x: Item, first: Option<nat>, second: Option<nat>) returns (r: Result<()>)
      requires Valid()
      modifies this
      ensures r.Err? ==> r == Err(ENOSPC)
      ensures first.Some? ==> r.Ok?
      ensures var leaf := old(Leaves(levels)[ChosenLeaf(levels, hash(x.name))].block);
              && leaf in old(blocks).leaves
              && (r.Err? ==>
                    || second.None? || old(spare) == 0 || OneHash(hash, old(blocks).leaves[leaf])
                    || IndexFull(cap, old(indirect), |old(root)|, old(spare) - 1, old(indirect)))
      ensures r.Ok? ==> Valid()
      ensures r.Ok? && old(Found(x.name)) == None ==>
              forall n :: Found(n) == if n == x.name then Some(x) else old(Found(n))
    {
      hide Tree, Matches, FindSlot, FindIn, Placed, FramesOk, FrameAt, SplitLevels, Dangling, Flat, Heads, Offset;
      var h := hash(x.name);
      ghost var L: Levels, c := levels, ChosenLeaf(levels, h);
      WholeFacts(L, cap, indirect, root, blocks, h);
      var frames, leaf := ProbeFrames(h);
      if first.Some? {
        PutInLeaf(leaf, first.value, x);
        return Ok(());
      }
      ghost var cs, ps := RouteNodes(L, h), RouteSlots(L, h);
      var split :- SplitLeaf(leaf, c);
      RouteChain(L, cap, frames, h, c, split.1, split.0);
      ghost var M: Levels := levels;
      var _ :- AddToIndex(frames, indirect, Entry(split.0, 0, split.1), cs, ps);
      LeavesDecide(M, levels, hash, blocks.leaves);
      var leaf2 := Probe(h);
      if second.None? {
        return Err(ENOSPC);
      }
      PutInLeaf(leaf2, second.value, x);
      return Ok(());
    }
  }

  /**
   An entry put into a full node at `level` finds no place: too few spare blocks for the nodes that split or for a new
   one below the root, or a full root that may grow no further.
   */
  predicate IndexFull(cap: Capacity, indirect: nat, rootLen: nat, spare: int, level: nat) {
    spare < (if indirect == 0 then 1 else level) || (indirect >= 1 && rootLen >= cap.root)
  }

  /** All the names in a leaf have the same hash, so it cannot be split. */
  predicate OneHash(hash: Hash, items: seq<Item>) {
    forall i, j :: 0 <= i < |items| && 0 <= j < |items| ==> hash(items[i].name) == hash(items[j].name)
  }

  lemma AllOneHash(hash: Hash, items: seq<Item>, sorted: seq<Item>, hs: seq<u32>)
    requires multiset(sorted) == multiset(items) && |hs| == |sorted| && Ascending(hs) && |hs| >= 2
    requires forall i :: 0 <= i < |hs| ==> hs[i] == hash(sorted[i].name)
    requires hs[0] == hs[|hs| - 1]
    ensures OneHash(hash, items)
  {
    forall i | 0 <= i < |items|
      ensures hash(items[i].name) == hs[0]
    {
      assert items[i] in multiset(sorted);
      var k :| 0 <= k < |sorted| && sorted[k] == items[i];
    }
  }

  // ---- probing, step by step --------------------------------------------------------------------------

  ghost predicate AtNode(L: Levels, m: nat, h: nat, lblk: nat, stored: seq<Entry>) {
    && m < |L| && L[m] != [] && NonEmpty(L[m])
    && L[m][ChosenAt(L, m, h)].block == lblk && Kept(stored, L[m][ChosenAt(L, m, h)].entries)
  }

  lemma ProbeStart(L: Levels, cap: Capacity, indirect: nat, root: seq<Entry>, B: Blocks, h: nat)
    requires Matches(L, indirect, root, B) && Tree(IndexPart(L), cap) && root != []
    ensures FramesOk(L, [], h) && AtNode(L, 0, h, 0, root)
  {
    hide FindSlot, LinkedBut, Distinct, SortedKeys, Flat;
    assert L[0] == [L[0][0]];
  }

  lemma ProbeNode(L: Levels, cap: Capacity, indirect: nat, root: seq<Entry>, B: Blocks, m: nat, h: nat, lblk: nat,
                  stored: seq<Entry>) returns (es: seq<Entry>)
    requires Matches(L, indirect, root, B) && Tree(IndexPart(L), cap) && m <= indirect && AtNode(L, m, h, lblk, stored)
    ensures es == L[m][ChosenAt(L, m, h)].entries && Kept(stored, es) && SortedKeys(es) && es != []
    ensures FindSlot(es, h) == SlotAt(L, m, h)
    ensures |L| == indirect + 2 && |stored| == |es| && forall p: nat :: p < |es| ==> stored[p].ptr == es[p].ptr
  {
    hide FindSlot, Distinct, SortedKeys, Flat, LinkedBut, Shape, Heads;
    var I := IndexPart(L);
    es := L[m][ChosenAt(L, m, h)].entries;
    assert I[m] == L[m];
    IndexSorted(I, cap, m);
    NodeSorted(I[m], ChosenAt(L, m, h));
  }

  lemma IndexSorted(I: Levels, cap: Capacity, m: nat)
    requires Tree(I, cap) && m < |I|
    ensures SortedKeys(Flat(I[m]))
  {
    hide Flat, SortedKeys, Shape, LinkedBut, Distinct;
    LevelSorted(I, cap, -1, m);
  }

  lemma ProbeFrame(L: Levels, indirect: nat, frames: seq<nat>, m: nat, h: nat, lblk: nat, stored: seq<Entry>)
    requires |L| == indirect + 2 && m <= indirect && |frames| == m && FramesOk(L, frames, h)
    requires AtNode(L, m, h, lblk, stored)
    ensures FramesOk(L, frames + [lblk], h)
  {
    hide FindSlot, Heads;
  }

  lemma LastFrame(L: Levels, frames: seq<nat>, h: nat, m: nat)
    requires FramesOk(L, frames, h) && m < |frames|
    ensures FrameAt(L, frames[m], m, h)
  {
  }

  lemma ProbeStep(L: Levels, cap: Capacity, indirect: nat, root: seq<Entry>, B: Blocks, m: nat, h: nat, lblk: nat,
      stored: seq<Entry>)
    requires Matches(L, indirect, root, B) && Tree(IndexPart(L), cap) && m < indirect && AtNode(L, m, h, lblk, stored)
    ensures SlotAt(L, m, h) < |stored|
    ensures var child := stored[SlotAt(L, m, h)].ptr;
            child in B.nodes && AtNode(L, m + 1, h, child, B.nodes[child])
  {
    hide FindSlot, Distinct, SortedKeys, Flat, LinkedBut, Shape, Heads, Offset;
    var I := IndexPart(L);
    assert I[m] == L[m] && I[m + 1] == L[m + 1];
    StepDown(I, cap, m, h);
    assert ChosenAt(I, m, h) == ChosenAt(L, m, h) && ChosenAt(I, m + 1, h) == ChosenAt(L, m + 1, h);
    assert InTree(L, m + 1, ChosenAt(L, m + 1, h));
    NodeFacts(L, indirect, root, B, m + 1, ChosenAt(L, m + 1, h));
  }

  /** Leaving out the leaves of a whole or dangling tree leaves a whole index. */
  lemma IndexOfTree(L: Levels, cap: Capacity)
    requires Tree(L, cap) && |L| >= 2
    ensures Tree(IndexPart(L), cap)
  {
    hide Flat, SortedKeys, Heads;
    LevelSorted(L, cap, -1, |L| - 2);
    IndexRest(L, cap, -1);
  }

  lemma IndexRest(L: Levels, cap: Capacity, k: int)
    requires Shape(L, cap) && LinkedBut(L, k) && Distinct(L) && |L| >= 2 && (k == -1 || k == |L| - 2)
    ensures Shape(IndexPart(L), cap) && LinkedBut(IndexPart(L), -1) && Distinct(IndexPart(L))
  {
    hide Flat, Heads;
    var I := IndexPart(L);
    assert forall m: nat :: m < |I| ==> I[m] == L[m];
    forall m: nat | m + 1 < |I|
      ensures Linked(I, m)
    {
      assert Linked(L, m);
    }
    forall m: nat, i: nat, n: nat, j: nat | InTree(I, m, i) && InTree(I, n, j) && I[m][i].block == I[n][j].block
      ensures m == n && i == j
    {
      assert InTree(L, m, i) && InTree(L, n, j);
    }
  }

  lemma IndexOfDangling(L: Levels, cap: Capacity, g: nat, x: Entry)
    requires |L| >= 2 && Dangling(L, cap, |L| - 2, g, x)
    ensures Tree(IndexPart(L), cap)
  {
    hide Flat, Heads, NonEmpty;
    var k := |L| - 2;
    IndexRest(L, cap, k);
    LevelSorted(L, cap, k, k + 1);
    HeadsSorted(L[k + 1]);
    var es, h := Flat(L[k]), InsertAt(Flat(L[k]), g + 1, x);
    forall i, j | 0 <= i < j < |es|
      ensures es[i].first < es[j].first
    {
      assert h[if i <= g then i else i + 1] == es[i] && h[if j <= g then j else j + 1] == es[j];
    }
  }

  // ---- the index, step by step -------------------------------------------------------------------------

  lemma FirstKept(stored: seq<Entry>, x: Entry, es: seq<Entry>, ents: seq<Entry>)
    requires Kept(ents, SortedInsert(es, x))
    ensures ents != [] && |ents| == |es| + 1 && Kept(ReadEntries(ents), SortedInsert(es, x))
  {
    ReadKept(ents, SortedInsert(es, x));
  }

  lemma RootKept(L: Levels, indirect: nat, root: seq<Entry>, B: Blocks)
    requires Matches(L, indirect, root, B)
    ensures |L| == indirect + 2 && |L[0]| == 1 && L[0][0].block == 0 && Kept(root, L[0][0].entries)
    ensures |root| == |L[0][0].entries|
    ensures B.size > 0
  {
  }

  lemma SameLength(stored: seq<Entry>, es: seq<Entry>)
    requires Kept(stored, es)
    ensures |stored| == |es|
  {
  }

  lemma ChainFacts(L: Levels, frames: seq<nat>, cs: seq<nat>, ps: seq<nat>, k: nat)
    requires Chain(L, frames, cs, ps, k)
    ensures k < |L| && k < |frames| && k < |cs| && k < |ps| && InTree(L, k, cs[k])
    ensures frames[k] == L[k][cs[k]].block && ps[k] < |L[k][cs[k]].entries|
  {
  }

  /** The missing entry never goes in front of slot 0. */
  lemma InsertPos(L: Levels, cap: Capacity, k: nat, c: nat, p: nat, x: Entry)
    requires InTree(L, k, c) && p < |L[k][c].entries|
    requires Dangling(L, cap, k, Offset(L[k], c) + p, x)
    ensures SortedPos(L[k][c].entries, x.first) == p + 1
  {
    hide Dangling;
    DanglingPlace(L, cap, k, c, p, x);
  }

  lemma PutLast(L: Levels, k: nat, c: nat, news: Level)
    requires k + 1 < |L| && c < |L[k]|
    ensures L != [] && PutAt(L, k, c, news) != [] && Leaves(PutAt(L, k, c, news)) == Leaves(L)
  {
  }

  lemma RootFull(L: Levels, cap: Capacity, x: Entry, p: nat)
    requires Shape(L, cap) && |L| > 1
    ensures L[0][0].entries != [] && |L[0][0].entries| <= cap.root
  {
  }

  lemma NodeFull(L: Levels, cap: Capacity, k: nat, c: nat)
    requires Shape(L, cap) && 1 <= k && InTree(L, k, c)
    ensures 0 < |L[k][c].entries| <= cap.node
  {
    assert GoodLevel(L[k], cap.node);
  }

  /** The new root entry leads to the one new node. */
  lemma GrownChain(L: Levels, nb: nat, p: nat)
    requires L != [] && |L[0]| == 1 && L[0][0].entries != []
    ensures var G := Grown(L, nb);
            && |G| == |L| + 1 && |G[0]| == 1 && |G[1]| == 1 && G[0][0].block == 0 && |G[0][0].entries| == 1
            && G[1][0] == Node(nb, L[0][0].entries) && Offset(G[0], 0) == 0 && Offset(G[1], 0) == 0
  {
  }

  lemma GrownFrames(L: Levels, nb: nat, frames: seq<nat>, h: nat, p: nat)
    requires L != [] && |L[0]| == 1 && p < |L[0][0].entries|
    requires FramesOk(Grown(L, nb), frames, h) && |frames| == 2
    ensures Chain(Grown(L, nb), frames, [0, 0], [0, p], 1)
  {
    hide FindSlot;
    GrownChain(L, nb, p);
    assert FrameAt(Grown(L, nb), frames[0], 0, h) && FrameAt(Grown(L, nb), frames[1], 1, h);
  }

  /** With the missing entry the node is still sorted. */
  lemma AllSorted(L: Levels, cap: Capacity, k: nat, c: nat, p: nat, x: Entry)
    requires InTree(L, k, c) && p < |L[k][c].entries|
    requires Dangling(L, cap, k, Offset(L[k], c) + p, x)
    ensures SortedKeys(SortedInsert(L[k][c].entries, x))
  {
    hide Flat, Offset, Shape, LinkedBut, Distinct, SortedPos;
    PlaceFacts(L, cap, k, c, p, x);
    LevelSorted(L, cap, k, k + 1);
    HeadsSorted(L[k + 1]);
    var n := Node(L[k][c].block, InsertAt(L[k][c].entries, p + 1, x));
    FlatOne(n);
    InsertInNode(L[k], c, p + 1, x, [n]);
    assert Put(L[k], c, [n])[c] == n;
    NodeSorted(Put(L[k], c, [n]), c);
  }

  lemma ChainUp(L: Levels, frames: seq<nat>, cs: seq<nat>, ps: seq<nat>, k: nat, news: Level)
    requires Chain(L, frames, cs, ps, k) && k >= 1
    ensures k - 1 < |L| && Chain(PutAt(L, k, cs[k], news), frames, cs, ps, k - 1)
    ensures cs[k] == Offset(PutAt(L, k, cs[k], news)[k - 1], cs[k - 1]) + ps[k - 1]
  {
    hide Offset, Put;
    var r := PutAt(L, k, cs[k], news);
    forall m: nat | m <= k - 1
      ensures r[m] == L[m] && InTree(L, m, cs[m])
    {
    }
  }

  // ---- names, step by step -------------------------------------------------------------------------------

  lemma WholeFacts(L: Levels, cap: Capacity, indirect: nat, root: seq<Entry>, B: Blocks, h: nat)
    requires Tree(L, cap) && Matches(L, indirect, root, B) && Ready(L)
    ensures |L| == indirect + 2 && Tree(IndexPart(L), cap) && root != []
    ensures forall m: nat :: m < |L| ==> L[m] != [] && NonEmpty(L[m])
    ensures L[indirect][ChosenAt(L, indirect, h)].entries[SlotAt(L, indirect, h)].ptr
            == Leaves(L)[ChosenLeaf(L, h)].block
    ensures Leaves(L)[ChosenLeaf(L, h)].block in B.leaves
  {
    hide Tree, FindSlot, Flat, Heads, Offset;
    RootKept(L, indirect, root, B);
    IndexOfTree(L, cap);
    TreeThere(L, cap);
    StepDown(L, cap, indirect, h);
    NodeFacts(L, indirect, root, B, indirect + 1, ChosenLeaf(L, h));
  }

  lemma TreeThere(L: Levels, cap: Capacity)
    requires Tree(L, cap) && |L| > 1
    ensures L[0][0].entries != [] && forall m: nat :: m < |L| ==> L[m] != [] && NonEmpty(L[m])
  {
    hide Flat, Heads, Distinct, SortedKeys;
    forall m: nat | m < |L|
      ensures L[m] != [] && NonEmpty(L[m])
    {
      LevelsThere(L, cap, m);
    }
  }

  lemma LeafFacts(L: Levels, cap: Capacity, indirect: nat, root: seq<Entry>, B: Blocks, c: nat)
    requires Tree(L, cap) && Matches(L, indirect, root, B) && Ready(L) && c < |Leaves(L)|
    ensures |L| == indirect + 2 && Leaves(L)[c].block in B.leaves && Bounds(Leaves(L)) && Unused(L, B.size)
    ensures Distinct(L)
  {
    hide Flat, Heads, LinkedBut, Shape, SortedKeys;
    forall i | 0 <= i < |Leaves(L)|
      ensures IsBound(Leaves(L)[i].entries) && Leaves(L)[i].block in B.leaves
    {
      NodeFacts(L, indirect, root, B, indirect + 1, i);
    }
    NextUnused(L, indirect, root, B);
  }

  function HashesOf(hash: Hash, items: seq<Item>): (hs: seq<u32>)
    ensures |hs| == |items| && forall i :: 0 <= i < |hs| ==> hs[i] == hash(items[i].name)
  {
    if items == [] then [] else HashesOf(hash, items[..|items| - 1]) + [hash(items[|items| - 1].name)]
  }

  lemma SortedHashes(hash: Hash, items: seq<Item>, hs: seq<u32>)
    requires InHashOrder(hash, items) && |hs| == |items| && forall i :: 0 <= i < |hs| ==> hs[i] == hash(items[i].name)
    ensures Ascending(hs)
  {
  }

  lemma CutByHash(hash: Hash, old_: seq<Item>, items: seq<Item>, mid: nat)
    requires multiset(items) == multiset(old_) && InHashOrder(hash, items) && 0 < mid < |items|
    requires hash(items[mid - 1].name) < hash(items[mid].name)
    ensures CutAt(hash, old_, items[..mid], items[mid..], hash(items[mid].name))
  {
    forall x | x in items
      ensures x in old_
    {
      assert x in multiset(items) && x in multiset(old_);
    }
    forall x | x in items[..mid]
      ensures x in old_ && hash(x.name) < hash(items[mid].name)
    {
      var k :| 0 <= k < mid && items[..mid][k] == x;
      assert items[k] == x;
    }
    forall x | x in items[mid..]
      ensures x in old_ && hash(x.name) >= hash(items[mid].name)
    {
      var k :| 0 <= k < |items| - mid && items[mid..][k] == x;
      assert items[mid + k] == x;
    }
  }

  lemma SplitStored(L: Levels, indirect: nat, root: seq<Entry>, B: Blocks, c: nat, key: u32, lower: seq<Item>,
      upper: seq<Item>)
    requires Matches(L, indirect, root, B) && Distinct(L) && c < |Leaves(L)|
    ensures Matches(SplitLevels(L, c, B.size, key), indirect, root,
                    Blocks(B.nodes, B.leaves[Leaves(L)[c].block := lower][B.size := upper], B.size + 1))
  {
    hide Distinct;
    NodeFacts(L, indirect, root, B, indirect + 1, c);
    MatchesLeafSplit(L, indirect, root, B, c, Leaves(L)[c], Node(B.size, [Entry(key, 0, 0)]), lower, upper);
  }

  /** Everything a leaf split does to the directory as searches see it. */
  lemma SplitWorks(L: Levels, cap: Capacity, hash: Hash, leaves: LeafMap, c: nat, nb: nat, items: seq<Item>, mid: nat)
    requires Tree(L, cap) && |L| > 1 && Ready(L) && Bounds(Leaves(L)) && Placed(L, hash, leaves)
    requires Heads(Leaves(L))[0].first == 0
    requires c < |Leaves(L)| && Leaves(L)[c].block in leaves && Unused(L, nb) && Distinct(L) && cap.node >= 1
    requires items == SortByHash(hash, leaves[Leaves(L)[c].block])
    requires 0 < mid < |items| && hash(items[mid - 1].name) < hash(items[mid].name)
    ensures var b, key := Leaves(L)[c].block, hash(items[mid].name);
            var r, M := SplitLevels(L, c, nb, key), SplitMap(leaves, b, nb, items[..mid], items[mid..]);
            && Dangling(r, cap, Last(L) - 1, c, Entry(key, 0, nb)) && Ready(r) && Placed(r, hash, M)
            && Heads(Leaves(r))[0].first == 0 && forall n :: FindIn(r, hash, M, n) == FindIn(L, hash, leaves, n)
  {
    hide Tree, FindSlot, SortByHash, FirstNamed, FindIn, Placed, Inside, ChosenLeaf, SplitLevels, Dangling, InHashOrder;
    hide Distinct, Unused, Flat, Heads;
    hide CutAt, LeafBlocks, SortedKeys;
    var b, key := Leaves(L)[c].block, hash(items[mid].name);
    SortFacts(hash, leaves[b]);
    KeyInside(L, hash, leaves, c, items, mid);
    SplitDangles(L, cap, c, nb, key);
    DistinctLeaves(L, nb);
    CutByHash(hash, leaves[b], items, mid);
    SplitPlaced(L, hash, leaves, c, nb, key, items[..mid], items[mid..]);
    forall n
      ensures FindIn(SplitLevels(L, c, nb, key), hash, SplitMap(leaves, b, nb, items[..mid], items[mid..]), n)
              == FindIn(L, hash, leaves, n)
    {
      SortFirst(hash, leaves[b], n);
      SplitFirst(hash, items, mid, n);
      SplitFinds(L, hash, leaves, c, nb, key, items[..mid], items[mid..], n);
    }
    SplitLowest(L, c, nb, key);
  }

  /** Searches and placement depend on the leaf level alone. */
  lemma LeavesDecide(L: Levels, M: Levels, hash: Hash, leaves: LeafMap)
    requires Ready(L) && M != [] && Leaves(L) == Leaves(M)
    ensures Ready(M) && Placed(L, hash, leaves) == Placed(M, hash, leaves)
    ensures forall n :: FindIn(L, hash, leaves, n) == FindIn(M, hash, leaves, n)
  {
    hide FindSlot, Heads, ScanLeaf;
  }

  lemma SplitLowest(L: Levels, c: nat, nb: nat, key: u32)
    requires Ready(L) && c < |Leaves(L)|
    ensures Ready(SplitLevels(L, c, nb, key))
    ensures Heads(Leaves(SplitLevels(L, c, nb, key)))[0].first == Heads(Leaves(L))[0].first
  {
    hide SplitLevels;
    SplitReady(L, c, nb, key);
  }

  function RouteNodes(L: Levels, h: nat): (cs: seq<nat>)
    requires forall m: nat :: m < |L| ==> L[m] != [] && NonEmpty(L[m])
    ensures |cs| == |L| && forall m: nat :: m < |L| ==> cs[m] == ChosenAt(L, m, h)
  {
    seq(|L|, m requires 0 <= m < |L| => ChosenAt(L, m, h))
  }

  function RouteSlots(L: Levels, h: nat): (ps: seq<nat>)
    requires forall m: nat :: m < |L| ==> L[m] != [] && NonEmpty(L[m])
    ensures |ps| == |L| && forall m: nat :: m < |L| ==> ps[m] == SlotAt(L, m, h)
  {
    seq(|L|, m requires 0 <= m < |L| => SlotAt(L, m, h))
  }

  /** Above the split leaf the route is a chain that ends at it. */
  lemma RouteChain(L: Levels, cap: Capacity, frames: seq<nat>, h: nat, c: nat, nb: nat, key: u32)
    requires Tree(L, cap) && |L| > 1 && |frames| == |L| - 1 && FramesOk(L, frames, h)
    requires (forall m: nat :: m < |L| ==> L[m] != [] && NonEmpty(L[m])) && c == ChosenLeaf(L, h)
    ensures var cs, ps, k := RouteNodes(L, h), RouteSlots(L, h), Last(L) - 1;
            var r := SplitLevels(L, c, nb, key);
            Chain(r, frames, cs, ps, k) && Offset(r[k], cs[k]) + ps[k] == c
  {
    hide FindSlot, Heads, Tree, Offset, SlotAt, Put;
    var cs, ps, k := RouteNodes(L, h), RouteSlots(L, h), Last(L) - 1;
    var r := SplitLevels(L, c, nb, key);
    assert cs[Last(L)] == c;
    forall m: nat | m <= k
      ensures InTree(r, m, cs[m]) && frames[m] == r[m][cs[m]].block && ps[m] < |r[m][cs[m]].entries|
      ensures cs[m + 1] == Offset(r[m], cs[m]) + ps[m]
    {
      assert FrameAt(L, frames[m], m, h);
      assert r[m] == L[m];
      StepDown(L, cap, m, h);
    }
  }

  // ---- conversion ----------------------------------------------------------------------------------------

  /** One root entry, one leaf at block 1 for all hashes. */
  function FirstLevels(): Levels {
    [[Node(0, [Entry(0, 0, 1)])], [Node(1, [Entry(0, 0, 0)])]]
  }

  lemma FirstTree(cap: Capacity)
    requires 2 <= cap.root < cap.node
    ensures Tree(FirstLevels(), cap) && Ready(FirstLevels()) && |FirstLevels()| == 2
    ensures Heads(Leaves(FirstLevels()))[0].first == 0
  {
    var L := FirstLevels();
    FlatOne(L[0][0]);
    FlatOne(L[1][0]);
    assert Heads(L[1]) == [Entry(0, 0, 1)];
    assert Linked(L, 0);
    assert GoodLevel(L[1], cap.node);
  }

  lemma ConvertedStored(items: seq<Item>)
    ensures Matches(FirstLevels(), 0, [Entry(0, 0, 1)], Blocks(map[], map[1 := items], 2))
  {
    var L, B := FirstLevels(), Blocks(map[], map[1 := items], 2);
    forall m: nat, i: nat | 1 <= m && InTree(L, m, i)
      ensures Held(B, L[m][i], m == 1)
    {
    }
  }

  lemma ConvertedFinds(hash: Hash, items: seq<Item>)
    ensures Ready(FirstLevels()) && Placed(FirstLevels(), hash, map[1 := items])
    ensures forall n :: FindIn(FirstLevels(), hash, map[1 := items], n) == FirstNamed(items, n)
  {
    hide FirstNamed;
    var L := FirstLevels();
    assert |Leaves(L)| == 1 && Leaves(L)[0].block == 1;
    forall h: nat
      ensures ChosenLeaf(L, h) == 0
    {
    }
  }
}
