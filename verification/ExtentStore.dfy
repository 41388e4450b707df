/** Where the nodes of an extent tree are kept: the inode's root slots and the node blocks of the device. */
module ExtentStore {
  import opened Bytes
  import opened Outcome
  import opened Records
  import opened Extents
  import opened TreeLevels
  import opened TreeShape

  /** A node block as its header and entries. */
  datatype NodeBlock = NodeBlock(depth: nat, entries: seq<Entry>)

  type Store = map<nat, NodeBlock>

  predicate HoldsNode(store: Store, n: Node, depth: int) {
    0 < n.block < 0x1_0000_0000 && n.block in store && store[n.block].depth == depth
        && store[n.block].entries == n.entries
  }

  /** The inode's root and the node blocks hold exactly the levels. */
  ghost predicate Matches(L: Levels, depth: nat, root: seq<Entry>, store: Store) {
    && |L| == depth + 1 && |L[0]| == 1 && L[0][0] == Node(0, root)
    && forall m: nat, i: nat :: 1 <= m && InTree(L, m, i) ==> HoldsNode(store, L[m][i], depth - m)
  }

  lemma MatchesRoot(L: Levels, depth: nat, root: seq<Entry>, store: Store, es: seq<Entry>)
    requires Matches(L, depth, root, store)
    ensures Matches(PutAt(L, 0, 0, [Node(0, es)]), depth, es, store)
  {
    var r := PutAt(L, 0, 0, [Node(0, es)]);
    assert r[0] == [Node(0, es)];
    forall m: nat, i: nat | 1 <= m && InTree(r, m, i)
      ensures HoldsNode(store, r[m][i], depth - m)
    {
      assert InTree(L, m, i) && r[m] == L[m];
    }
  }

  lemma MatchesNode(L: Levels, depth: nat, root: seq<Entry>, store: Store, k: nat, c: nat, es: seq<Entry>)
    requires Matches(L, depth, root, store) && Distinct(L) && 1 <= k && InTree(L, k, c)
    ensures Matches(PutAt(L, k, c, [Node(L[k][c].block, es)]), depth, root,
            store[L[k][c].block := NodeBlock(depth - k, es)])
  {
    var n := Node(L[k][c].block, es);
    var r, s := PutAt(L, k, c, [n]), store[n.block := NodeBlock(depth - k, es)];
    assert HoldsNode(store, L[k][c], depth - k);
    forall m: nat, i: nat | 1 <= m && InTree(r, m, i)
      ensures HoldsNode(s, r[m][i], depth - m)
    {
      assert InTree(L, m, i) && HoldsNode(store, L[m][i], depth - m);
      if m == k && i == c {
        assert r[m][i] == n;
      } else {
        assert r[m][i] == L[m][i];
      }
    }
  }

  lemma MatchesSplit(L: Levels, depth: nat, root: seq<Entry>, store: Store, k: nat, c: nat, a: Node, b: Node)
    requires Matches(L, depth, root, store) && Distinct(L) && 1 <= k && InTree(L, k, c)
    requires a.block == L[k][c].block && Unused(L, b.block) && 0 < b.block < 0x1_0000_0000
    ensures Matches(PutAt(L, k, c, [a, b]), depth, root,
                    store[a.block := NodeBlock(depth - k, a.entries)][b.block := NodeBlock(depth - k, b.entries)])
  {
    var r := PutAt(L, k, c, [a, b]);
    var s := store[a.block := NodeBlock(depth - k, a.entries)][b.block := NodeBlock(depth - k, b.entries)];
    assert HoldsNode(store, L[k][c], depth - k);
    forall m: nat, i: nat | 1 <= m && InTree(r, m, i)
      ensures HoldsNode(s, r[m][i], depth - m)
    {
      SplitNode(L, depth, store, k, c, a, b, m, i);
    }
  }

  lemma SplitNode(L: Levels, depth: nat, store: Store, k: nat, c: nat, a: Node, b: Node, m: nat, i: nat)
    requires Distinct(L) && 1 <= k <= depth && InTree(L, k, c) && 1 <= m && InTree(PutAt(L, k, c, [a, b]), m, i)
    requires forall m: nat, i: nat :: 1 <= m && InTree(L, m, i) ==> HoldsNode(store, L[m][i], depth - m)
    requires a.block == L[k][c].block && Unused(L, b.block) && 0 < b.block < 0x1_0000_0000
    ensures var s := store[a.block := NodeBlock(depth - k, a.entries)][b.block := NodeBlock(depth - k, b.entries)];
            HoldsNode(s, PutAt(L, k, c, [a, b])[m][i], depth - m)
  {
    var r := PutAt(L, k, c, [a, b]);
    assert InTree(L, k, c);
    assert HoldsNode(store, L[k][c], depth - k);
    if m == k {
      if i < c {
        assert InTree(L, k, i) && r[k][i] == L[k][i];
      } else if i == c {
        assert r[k][i] == a;
      } else if i == c + 1 {
        assert r[k][i] == b;
      } else {
        assert InTree(L, k, i - 1) && r[k][i] == L[k][c + 1..][i - c - 2] == L[k][i - 1];
      }
    } else {
      assert InTree(L, m, i) && r[m] == L[m];
    }
  }

  lemma MatchesGrown(L: Levels, depth: nat, root: seq<Entry>, store: Store, nb: nat)
    requires Matches(L, depth, root, store) && root != [] && Unused(L, nb) && 0 < nb < 0x1_0000_0000
    ensures Matches(Grown(L, nb), depth + 1, [Entry(root[0].first, 0, nb)], store[nb := NodeBlock(depth, root)])
  {
    var r, s := Grown(L, nb), store[nb := NodeBlock(depth, root)];
    forall m: nat, i: nat | 1 <= m && InTree(r, m, i)
      ensures HoldsNode(s, r[m][i], depth + 1 - m)
    {
      if m >= 2 {
        assert r[m] == L[m - 1] && InTree(L, m - 1, i);
        assert HoldsNode(store, L[m - 1][i], depth - (m - 1));
      } else {
        assert r[1] == [Node(nb, root)];
      }
    }
  }

  /** Lowering the levels up to `k` is lowering level `k` and then those above it. */
  lemma LoweredStep(L: Levels, k: nat, key: u32)
    requires k < |L| && forall m: nat :: m <= k ==> L[m] != [] && L[m][0].entries != []
    ensures var r := PutAt(L, k, 0, [Node(L[k][0].block, LowerEntry(L[k][0].entries, key))]);
            && (forall m: nat :: m <= k ==> r[m] != [] && r[m][0].entries != [])
            && (if k == 0 then Lowered(L, 0, key) == r else Lowered(L, k, key) == Lowered(r, k - 1, key))
  {
    var n := Node(L[k][0].block, LowerEntry(L[k][0].entries, key));
    var r := PutAt(L, k, 0, [n]);
    assert r[k] == L[k][0 := n];
    assert forall m: nat :: m < |L| && m != k ==> r[m] == L[m];
    var x := Lowered(L, k, key);
    assert x[k] == L[k][0 := n];
    if k == 0 {
      assert forall m: nat :: m < |L| ==> x[m] == r[m];
    } else {
      var y := Lowered(r, k - 1, key);
      assert forall m: nat :: m < |L| ==> x[m] == y[m];
    }
  }

  // ---- the allocator's blocks ---------------------------------------------------------------------------

  /** The blocks the allocator will hand out: distinct, in no node, and within the 32 bits a lookup follows. */
  ghost predicate FreeOk(L: Levels, free: seq<nat>) {
    && (forall i :: 0 <= i < |free| ==> 0 < free[i] < 0x1_0000_0000 && Unused(L, free[i]))
    && (forall i, j :: 0 <= i < j < |free| ==> free[i] != free[j])
  }

  lemma FreeOne(L: Levels, k: nat, c: nat, es: seq<Entry>, free: seq<nat>)
    requires FreeOk(L, free) && Distinct(L) && InTree(L, k, c)
    ensures FreeOk(PutAt(L, k, c, [Node(L[k][c].block, es)]), free)
  {
    hide PutAt, Distinct, Unused;
    DistinctOne(L, k, c, es);
  }

  lemma FreeTwo(L: Levels, k: nat, c: nat, a: Node, b: Node, free: seq<nat>)
    requires FreeOk(L, [b.block] + free) && InTree(L, k, c) && a.block == L[k][c].block
    ensures FreeOk(PutAt(L, k, c, [a, b]), free) && Unused(L, b.block) && 0 < b.block < 0x1_0000_0000
  {
    hide PutAt, Unused;
    var all := [b.block] + free;
    forall i | 0 <= i < |free|
      ensures 0 < free[i] < 0x1_0000_0000 && Unused(PutAt(L, k, c, [a, b]), free[i])
    {
      assert all[i + 1] == free[i] && all[0] == b.block;
      UnusedTwo(L, k, c, a, b, free[i]);
    }
    assert all[0] == b.block;
    assert forall i, j :: 0 <= i < j < |free| ==> all[i + 1] == free[i] && all[j + 1] == free[j];
  }

  lemma FreeGrown(L: Levels, nb: nat, free: seq<nat>)
    requires FreeOk(L, [nb] + free) && Distinct(L) && |L| >= 1 && |L[0]| == 1 && L[0][0].entries != []
    requires L[0][0].block == 0
    ensures FreeOk(Grown(L, nb), free) && Unused(L, nb) && 0 < nb < 0x1_0000_0000
  {
    hide Grown, Unused, Distinct;
    var all := [nb] + free;
    assert all[0] == nb;
    GrownDistinct(L, nb);
    forall i | 0 <= i < |free|
      ensures 0 < free[i] < 0x1_0000_0000 && Unused(Grown(L, nb), free[i])
    {
      assert all[i + 1] == free[i];
    }
    assert forall i, j :: 0 <= i < j < |free| ==> all[i + 1] == free[i] && all[j + 1] == free[j];
  }
}
