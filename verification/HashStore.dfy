/** Where an indexed directory keeps its tree: index blocks and leaves of the directory file. */
module HashStore {
  import opened Bytes
  import opened Outcome
  import opened Records
  import opened TreeLevels
  import opened TreeShape
  import opened HashLeaves

  /** The blocks of the directory file behind the root, by logical block: index blocks and leaves. */
  datatype Blocks = Blocks(nodes: map<nat, seq<Entry>>, leaves: map<nat, seq<Item>>, size: nat)

  /** An index block as stored: the hash of entry 0 has no room, the header is there instead. */
  predicate Kept(stored: seq<Entry>, es: seq<Entry>) {
    && |stored| == |es|
    && (forall i :: 0 <= i < |es| ==> stored[i].ptr == es[i].ptr)
    && (forall i :: 1 <= i < |es| ==> stored[i].first == es[i].first)
  }

  /** A leaf counts as a node whose one entry is the lowest hash it may hold. */
  predicate IsBound(es: seq<Entry>) {
    |es| == 1 && es[0].count == 0 && es[0].ptr == 0
  }

  predicate Held(B: Blocks, n: Node, leaf: bool) {
    && 0 < n.block < B.size
    && if leaf then n.block in B.leaves && IsBound(n.entries)
       else n.block in B.nodes && Kept(B.nodes[n.block], n.entries)
  }

  /** Root, index blocks and leaves hold exactly the levels, the last of which are the leaves. */
  ghost predicate Matches(L: Levels, indirect: nat, root: seq<Entry>, B: Blocks) {
    && |L| == indirect + 2 && |L[0]| == 1 && L[0][0].block == 0 && Kept(root, L[0][0].entries) && B.size > 0
    && forall m: nat, i: nat :: 1 <= m && InTree(L, m, i) ==> Held(B, L[m][i], m == indirect + 1)
  }

  lemma NextUnused(L: Levels, indirect: nat, root: seq<Entry>, B: Blocks)
    requires Matches(L, indirect, root, B)
    ensures Unused(L, B.size)
  {
    forall m: nat, i: nat | InTree(L, m, i)
      ensures L[m][i].block != B.size
    {
      if m > 0 {
        assert Held(B, L[m][i], m == indirect + 1);
      }
    }
  }

  lemma NodeFacts(L: Levels, indirect: nat, root: seq<Entry>, B: Blocks, k: nat, c: nat)
    requires Matches(L, indirect, root, B) && InTree(L, k, c)
    ensures L[k][c].block == 0 <==> k == 0
    ensures k == 0 ==> c == 0 && Kept(root, L[0][0].entries)
    ensures k > 0 ==> L[k][c].block < B.size
    ensures 0 < k <= indirect ==> L[k][c].block in B.nodes && Kept(B.nodes[L[k][c].block], L[k][c].entries)
    ensures k == indirect + 1 ==> L[k][c].block in B.leaves && IsBound(L[k][c].entries)
  {
    if k > 0 {
      assert Held(B, L[k][c], k == indirect + 1);
    }
  }

  lemma MatchesRoot(L: Levels, indirect: nat, root: seq<Entry>, B: Blocks, es: seq<Entry>, root': seq<Entry>)
    requires Matches(L, indirect, root, B) && Kept(root', es)
    ensures Matches(PutAt(L, 0, 0, [Node(0, es)]), indirect, root', B)
  {
    var r := PutAt(L, 0, 0, [Node(0, es)]);
    assert r[0] == [Node(0, es)];
    forall m: nat, i: nat | 1 <= m && InTree(r, m, i)
      ensures Held(B, r[m][i], m == indirect + 1)
    {
      assert InTree(L, m, i) && r[m] == L[m];
    }
  }

  lemma MatchesNode(L: Levels, indirect: nat, root: seq<Entry>, B: Blocks, k: nat, c: nat, es: seq<Entry>,
      stored: seq<Entry>)
    requires Matches(L, indirect, root, B) && Distinct(L) && 1 <= k <= indirect && InTree(L, k, c) && Kept(stored, es)
    ensures Matches(PutAt(L, k, c, [Node(L[k][c].block, es)]), indirect, root,
            B.(nodes := B.nodes[L[k][c].block := stored]))
  {
    hide Kept;
    var n := Node(L[k][c].block, es);
    var r, S := PutAt(L, k, c, [n]), B.(nodes := B.nodes[n.block := stored]);
    assert Held(B, L[k][c], false);
    forall m: nat, i: nat | 1 <= m && InTree(r, m, i)
      ensures Held(S, r[m][i], m == indirect + 1)
    {
      assert InTree(L, m, i) && Held(B, L[m][i], m == indirect + 1);
      if m == k && i == c {
        assert r[m][i] == n;
      } else {
        assert r[m][i] == L[m][i];
      }
    }
  }

  /** Every node of a level with one node split is one of the halves or an old node. */
  lemma SplitCases(L: Levels, k: nat, c: nat, a: Node, b: Node, m: nat, i: nat)
    requires InTree(L, k, c) && InTree(PutAt(L, k, c, [a, b]), m, i)
    ensures var n := PutAt(L, k, c, [a, b])[m][i];
            || (m == k && (n == a || n == b))
            || (InTree(L, m, Before(k, c, m, i)) && n == L[m][Before(k, c, m, i)]
                && (m != k || Before(k, c, m, i) != c))
  {
    var r := PutAt(L, k, c, [a, b]);
    if m == k {
      if i < c {
        assert r[k][i] == L[k][i];
      } else if i == c {
        assert r[k][i] == a;
      } else if i == c + 1 {
        assert r[k][i] == b;
      } else {
        assert r[k][i] == L[k][c + 1..][i - c - 2] == L[k][i - 1];
      }
    } else {
      assert r[m] == L[m];
    }
  }

  lemma MatchesNodeSplit(L: Levels, indirect: nat, root: seq<Entry>, B: Blocks, k: nat, c: nat, a: Node, b: Node,
                         sa: seq<Entry>, sb: seq<Entry>)
    requires Matches(L, indirect, root, B) && Distinct(L) && 1 <= k <= indirect && InTree(L, k, c)
    requires a.block == L[k][c].block && b.block == B.size && Kept(sa, a.entries) && Kept(sb, b.entries)
    ensures Matches(PutAt(L, k, c, [a, b]), indirect, root,
                    Blocks(B.nodes[a.block := sa][b.block := sb], B.leaves, B.size + 1))
  {
    hide Kept, PutAt;
    var r, S := PutAt(L, k, c, [a, b]), Blocks(B.nodes[a.block := sa][b.block := sb], B.leaves, B.size + 1);
    assert Held(B, L[k][c], false);
    SplitRoot(L, k, c, a, b);
    forall m: nat, i: nat | 1 <= m && InTree(r, m, i)
      ensures Held(S, r[m][i], m == indirect + 1)
    {
      SplitCases(L, k, c, a, b, m, i);
      var i' := Before(k, c, m, i);
      if !(m == k && (r[m][i] == a || r[m][i] == b)) {
        assert Held(B, L[m][i'], m == indirect + 1);
        assert L[m][i'].block != a.block;
      }
    }
  }

  lemma SplitRoot(L: Levels, k: nat, c: nat, a: Node, b: Node)
    requires 1 <= k && InTree(L, k, c)
    ensures |PutAt(L, k, c, [a, b])| == |L| && PutAt(L, k, c, [a, b])[0] == L[0]
  {
  }

  lemma MatchesLeafSplit(L: Levels, indirect: nat, root: seq<Entry>, B: Blocks, c: nat, a: Node, b: Node,
                         ia: seq<Item>, ib: seq<Item>)
    requires Matches(L, indirect, root, B) && Distinct(L) && InTree(L, indirect + 1, c)
    requires a.block == L[indirect + 1][c].block && b.block == B.size && IsBound(a.entries) && IsBound(b.entries)
    ensures Matches(PutAt(L, indirect + 1, c, [a, b]), indirect, root,
                    Blocks(B.nodes, B.leaves[a.block := ia][b.block := ib], B.size + 1))
  {
    hide Kept, PutAt, IsBound;
    var k := indirect + 1;
    var r, S := PutAt(L, k, c, [a, b]), Blocks(B.nodes, B.leaves[a.block := ia][b.block := ib], B.size + 1);
    assert Held(B, L[k][c], true);
    SplitRoot(L, k, c, a, b);
    forall m: nat, i: nat | 1 <= m && InTree(r, m, i)
      ensures Held(S, r[m][i], m == indirect + 1)
    {
      SplitCases(L, k, c, a, b, m, i);
      var i' := Before(k, c, m, i);
      if !(m == k && (r[m][i] == a || r[m][i] == b)) {
        assert Held(B, L[m][i'], m == indirect + 1);
      }
    }
  }

  lemma MatchesGrown(L: Levels, indirect: nat, root: seq<Entry>, B: Blocks, stored: seq<Entry>, root': seq<Entry>)
    requires Matches(L, indirect, root, B) && L[0][0].entries != [] && Kept(stored, L[0][0].entries)
    requires |root'| == 1 && root'[0].ptr == B.size
    ensures Matches(Grown(L, B.size), indirect + 1, root', Blocks(B.nodes[B.size := stored], B.leaves, B.size + 1))
  {
    var r, S := Grown(L, B.size), Blocks(B.nodes[B.size := stored], B.leaves, B.size + 1);
    forall m: nat, i: nat | 1 <= m && InTree(r, m, i)
      ensures Held(S, r[m][i], m == indirect + 2)
    {
      if m >= 2 {
        assert r[m] == L[m - 1] && InTree(L, m - 1, i);
        assert Held(B, L[m - 1][i], m - 1 == indirect + 1);
      } else {
        assert r[1] == [Node(B.size, L[0][0].entries)];
      }
    }
  }

  lemma MatchesLeaf(L: Levels, indirect: nat, root: seq<Entry>, B: Blocks, b: nat, items: seq<Item>)
    requires Matches(L, indirect, root, B)
    ensures Matches(L, indirect, root, B.(leaves := B.leaves[b := items]))
  {
    forall m: nat, i: nat | 1 <= m && InTree(L, m, i)
      ensures Held(B.(leaves := B.leaves[b := items]), L[m][i], m == indirect + 1)
    {
      assert Held(B, L[m][i], m == indirect + 1);
    }
  }
}
