/** The shape of a whole tree, the steps that change it, and the routes through it. */
module TreeShape {
  import opened Bytes
  import opened Records
  import opened TreeLevels

  /** How many entries the root and the other nodes have room for. */
  datatype Capacity = Capacity(root: nat, node: nat) {
    function At(m: nat): nat {
      if m == 0 then root else node
    }
  }

  type Levels = seq<Level>

  predicate GoodLevel(level: Level, max: nat) {
    forall i :: 0 <= i < |level| ==> 0 < |level[i].entries| <= max
  }

  /** A single root, node occupancy within bounds, and no empty node below the root. */
  ghost predicate Shape(L: Levels, cap: Capacity) {
    && |L| >= 1 && |L[0]| == 1 && L[0][0].block == 0 && |L[0][0].entries| <= cap.root
    && (|L| > 1 ==> L[0][0].entries != [])
    && forall m: nat :: 1 <= m < |L| ==> GoodLevel(L[m], cap.node)
  }

  /** The entries of level `m` are exactly the first keys and blocks of the nodes below. */
  ghost predicate Linked(L: Levels, m: nat)
    requires m + 1 < |L|
  {
    NonEmpty(L[m + 1]) && Flat(L[m]) == Heads(L[m + 1])
  }

  predicate InTree(L: Levels, m: nat, i: nat) {
    m < |L| && i < |L[m]|
  }

  /** No two nodes share a block. */
  ghost predicate Distinct(L: Levels) {
    forall m: nat, i: nat, n: nat, j: nat ::
      InTree(L, m, i) && InTree(L, n, j) && L[m][i].block == L[n][j].block ==> m == n && i == j
  }

  ghost predicate Unused(L: Levels, b: nat) {
    forall m: nat, i: nat :: InTree(L, m, i) ==> L[m][i].block != b
  }

  function Leaves(L: Levels): Level
    requires L != []
  {
    L[|L| - 1]
  }

  ghost predicate LinkedBut(L: Levels, k: int) {
    forall m: nat :: m + 1 < |L| && m != k ==> Linked(L, m)
  }

  /** Uniform depth, exact separators, ordered extents, bounded nodes, distinct blocks. */
  ghost predicate Tree(L: Levels, cap: Capacity) {
    Shape(L, cap) && LinkedBut(L, -1) && SortedKeys(Flat(Leaves(L))) && Distinct(L)
  }

  /** A tree but for one entry: level `k` still lacks `x` behind its entry `g`. */
  ghost predicate Dangling(L: Levels, cap: Capacity, k: nat, g: nat, x: Entry) {
    && Shape(L, cap) && k + 1 < |L| && LinkedBut(L, k) && SortedKeys(Flat(Leaves(L))) && Distinct(L)
    && NonEmpty(L[k + 1]) && g < |Flat(L[k])|
    && Heads(L[k + 1]) == InsertAt(Flat(L[k]), g + 1, x)
  }

  // ---- every level is sorted ------------------------------------------------------------------------

  lemma {:induction false} LevelSorted(L: Levels, cap: Capacity, k: int, m: nat)
    requires Shape(L, cap) && LinkedBut(L, k) && SortedKeys(Flat(Leaves(L)))
    requires k < m < |L|
    ensures SortedKeys(Flat(L[m]))
    decreases |L| - m
  {
    hide Flat, SortedKeys;
    if m + 1 == |L| {
    } else {
      LevelSorted(L, cap, k, m + 1);
      assert Linked(L, m);
      HeadsSorted(L[m + 1]);
    }
  }

  lemma NonEmptyLevel(L: Levels, cap: Capacity, m: nat)
    requires Shape(L, cap) && m < |L| && (m > 0 || |L| > 1 || L[0][0].entries != [])
    ensures NonEmpty(L[m])
  {
  }

  // ---- distinct blocks --------------------------------------------------------------------------------

  /** Level `k` with node `c` replaced. */
  function PutAt(L: Levels, k: nat, c: nat, news: Level): (r: Levels)
    requires k < |L| && c < |L[k]|
    ensures |r| == |L|
  {
    L[k := Put(L[k], c, news)]
  }

  lemma DistinctOne(L: Levels, k: nat, c: nat, es: seq<Entry>)
    requires Distinct(L) && InTree(L, k, c)
    ensures Distinct(PutAt(L, k, c, [Node(L[k][c].block, es)]))
    ensures forall b :: Unused(L, b) ==> Unused(PutAt(L, k, c, [Node(L[k][c].block, es)]), b)
  {
    var r := PutAt(L, k, c, [Node(L[k][c].block, es)]);
    forall m: nat, i: nat
      ensures InTree(r, m, i) <==> InTree(L, m, i)
      ensures InTree(r, m, i) ==> r[m][i].block == L[m][i].block
    {
    }
  }

  /** Where node `i` of level `m` was before a node was added behind node `c` of level `k`. */
  function Before(k: nat, c: nat, m: nat, i: nat): nat {
    if m == k && i > c then i - 1 else i
  }

  lemma SplitBlocks(L: Levels, k: nat, c: nat, a: Node, b: Node, m: nat, i: nat)
    requires InTree(L, k, c) && a.block == L[k][c].block && InTree(PutAt(L, k, c, [a, b]), m, i)
    ensures var r := PutAt(L, k, c, [a, b]);
            if m == k && i == c + 1 then r[m][i] == b
            else InTree(L, m, Before(k, c, m, i)) && r[m][i].block == L[m][Before(k, c, m, i)].block
  {
    var r := PutAt(L, k, c, [a, b]);
    assert |r[k]| == |L[k]| + 1;
    if m == k {
      if i < c {
        assert r[k][i] == L[k][i];
      } else if i > c + 1 {
        assert r[k][i] == L[k][c + 1..][i - c - 2] == L[k][i - 1];
      }
    } else {
      assert r[m] == L[m];
    }
  }

  lemma DistinctTwo(L: Levels, k: nat, c: nat, a: Node, b: Node)
    requires Distinct(L) && InTree(L, k, c) && a.block == L[k][c].block && Unused(L, b.block)
    ensures Distinct(PutAt(L, k, c, [a, b]))
  {
    hide PutAt;
    var r := PutAt(L, k, c, [a, b]);
    forall m: nat, i: nat, n: nat, j: nat | InTree(r, m, i) && InTree(r, n, j) && r[m][i].block == r[n][j].block
      ensures m == n && i == j
    {
      SplitBlocks(L, k, c, a, b, m, i);
      SplitBlocks(L, k, c, a, b, n, j);
    }
  }

  lemma UnusedTwo(L: Levels, k: nat, c: nat, a: Node, b: Node, f: nat)
    requires InTree(L, k, c) && a.block == L[k][c].block && Unused(L, f) && f != b.block
    ensures Unused(PutAt(L, k, c, [a, b]), f)
  {
    hide PutAt;
    forall m: nat, i: nat | InTree(PutAt(L, k, c, [a, b]), m, i)
      ensures PutAt(L, k, c, [a, b])[m][i].block != f
    {
      SplitBlocks(L, k, c, a, b, m, i);
    }
  }

  // ---- putting the missing entry in ---------------------------------------------------------------------

  /** The missing entry belongs right behind slot `p` of node `c`, also by its key. */
  lemma DanglingPlace(L: Levels, cap: Capacity, k: nat, c: nat, p: nat, x: Entry)
    requires InTree(L, k, c) && p < |L[k][c].entries|
    requires Dangling(L, cap, k, Offset(L[k], c) + p, x)
    ensures SortedPos(L[k][c].entries, x.first) == p + 1
    ensures L[k][c].entries[0].first < x.first
  {
    hide Flat, Offset, SortedPos, Shape, LinkedBut, Distinct;
    var es, g := L[k][c].entries, Offset(L[k], c) + p;
    var h := InsertAt(Flat(L[k]), g + 1, x);
    LevelSorted(L, cap, k, k + 1);
    HeadsSorted(L[k + 1]);
    assert SortedKeys(h);
    FlatAt(L[k], c, p);
    FlatAt(L[k], c, 0);
    assert h[Offset(L[k], c)] == es[0] && h[g + 1] == x;
    SortedFrom(L, cap, k, c, p, x);
  }

  lemma SortedFrom(L: Levels, cap: Capacity, k: nat, c: nat, p: nat, x: Entry)
    requires InTree(L, k, c) && p < |L[k][c].entries| && Offset(L[k], c) + p < |Flat(L[k])|
    requires SortedKeys(InsertAt(Flat(L[k]), Offset(L[k], c) + p + 1, x))
    ensures SortedPos(L[k][c].entries, x.first) == p + 1
  {
    hide Flat, Offset, SortedPos;
    var es, g := L[k][c].entries, Offset(L[k], c) + p;
    var h := InsertAt(Flat(L[k]), g + 1, x);
    FlatAt(L[k], c, p);
    assert h[g] == es[p] && h[g + 1] == x;
    if p + 1 < |es| {
      FlatAt(L[k], c, p + 1);
      assert h[g + 2] == es[p + 1];
    }
    forall i, j | 0 <= i < j < |es|
      ensures es[i].first < es[j].first
    {
      FlatAt(L[k], c, i);
      FlatAt(L[k], c, j);
      var o := Offset(L[k], c);
      var i', j' := if i <= p then o + i else o + i + 1, if j <= p then o + j else o + j + 1;
      assert h[i'] == es[i] && h[j'] == es[j];
    }
    SortedPosUnique(es, x.first, p + 1);
  }

  /** Links away from level `k` do not notice a change there. */
  lemma LinksAway(L: Levels, k: nat, level: Level, m: nat)
    requires k < |L| && m + 1 < |L| && Linked(L, m) && m != k && m + 1 != k
    ensures Linked(L[k := level], m)
  {
  }

  lemma HeadsOne(level: Level, c: nat, n: Node)
    requires NonEmpty(level) && c < |level| && n.entries != []
    ensures NonEmpty(Put(level, c, [n])) && Heads(Put(level, c, [n])) == Heads(level)[c := Head(n)]
  {
    HeadsPut(level, c, [n]);
  }

  lemma HeadsTwo(level: Level, c: nat, a: Node, b: Node)
    requires NonEmpty(level) && c < |level| && a.entries != [] && b.entries != []
    ensures NonEmpty(Put(level, c, [a, b]))
    ensures Heads(Put(level, c, [a, b])) == InsertAt(Heads(level)[c := Head(a)], c + 1, Head(b))
  {
    HeadsPut(level, c, [a, b]);
    assert Heads([a, b]) == [Head(a), Head(b)];
  }

  /** The missing entry fits its node: the tree is whole again. */
  lemma FillFits(L: Levels, cap: Capacity, k: nat, c: nat, p: nat, x: Entry)
    requires InTree(L, k, c) && p < |L[k][c].entries|
    requires Dangling(L, cap, k, Offset(L[k], c) + p, x)
    requires |L[k][c].entries| < cap.At(k)
    ensures var r := PutAt(L, k, c, [Node(L[k][c].block, InsertAt(L[k][c].entries, p + 1, x))]);
            Tree(r, cap) && Leaves(r) == Leaves(L)
  {
    hide Flat, Offset, Heads, SortedKeys, Distinct, GoodLevel;
    var es := L[k][c].entries;
    var n := Node(L[k][c].block, InsertAt(es, p + 1, x));
    var r := PutAt(L, k, c, [n]);
    FlatOne(n);
    InsertInNode(L[k], c, p + 1, x, [n]);
    DistinctOne(L, k, c, n.entries);
    NonEmptyLevel(L, cap, k);
    HeadsOne(L[k], c, n);
    assert Head(n) == Head(L[k][c]) && Heads(L[k])[c := Head(n)] == Heads(L[k]);
    forall m: nat | m + 1 < |L|
      ensures Linked(r, m)
    {
      if m != k && m + 1 != k {
        LinksAway(L, k, r[k], m);
      } else if m + 1 == k {
        assert Linked(L, m);
      }
    }
    ShapePut(L, cap, k, c, [n]);
  }

  lemma ShapePut(L: Levels, cap: Capacity, k: nat, c: nat, news: Level)
    requires Shape(L, cap) && InTree(L, k, c) && GoodLevel(news, cap.At(k))
    requires k == 0 ==> |news| == 1 && news[0].block == 0
    ensures Shape(PutAt(L, k, c, news), cap)
  {
    var r := PutAt(L, k, c, news);
    forall m: nat | 1 <= m < |L|
      ensures GoodLevel(r[m], cap.node)
    {
    }
    assert k == 0 ==> news[0] == r[0][0] && 0 < |news[0].entries| <= cap.root;
  }

  /** The missing entry overflows its node: split it, and the level above lacks the new node's entry. */
  lemma FillSplits(L: Levels, cap: Capacity, k: nat, c: nat, p: nat, x: Entry, nb: nat, h: nat)
    requires 1 <= k && InTree(L, k, c) && p < |L[k][c].entries|
    requires Dangling(L, cap, k, Offset(L[k], c) + p, x) && Unused(L, nb)
    requires 1 <= h <= cap.node && 1 <= |L[k][c].entries| + 1 - h <= cap.node
    ensures var es := InsertAt(L[k][c].entries, p + 1, x);
            var r := PutAt(L, k, c, [Node(L[k][c].block, es[..h]), Node(nb, es[h..])]);
            Dangling(r, cap, k - 1, c, Entry(es[h].first, 0, nb)) && Leaves(r) == Leaves(L)
  {
    hide Flat, Offset, Heads, SortedKeys, Distinct, GoodLevel;
    var es := InsertAt(L[k][c].entries, p + 1, x);
    var a, b := Node(L[k][c].block, es[..h]), Node(nb, es[h..]);
    var r := PutAt(L, k, c, [a, b]);
    FlatHalves(a.block, nb, es, h);
    InsertInNode(L[k], c, p + 1, x, [a, b]);
    DistinctTwo(L, k, c, a, b);
    NonEmptyLevel(L, cap, k);
    HeadsTwo(L[k], c, a, b);
    assert Head(a) == Head(L[k][c]) && Heads(L[k])[c := Head(a)] == Heads(L[k]);
    assert Linked(L, k - 1);
    forall m: nat | m + 1 < |L| && m != k - 1
      ensures Linked(r, m)
    {
      if m != k {
        LinksAway(L, k, r[k], m);
      }
    }
    TwoGood(a, b, cap.node);
    ShapePut(L, cap, k, c, [a, b]);
  }

  lemma TwoGood(a: Node, b: Node, max: nat)
    requires 0 < |a.entries| <= max && 0 < |b.entries| <= max
    ensures GoodLevel([a, b], max)
  {
  }

  // ---- growing in depth -------------------------------------------------------------------------------

  /** The root's entries moved into a block of their own, with one index entry left. */
  function Grown(L: Levels, nb: nat): (r: Levels)
    requires |L| >= 1 && |L[0]| == 1 && L[0][0].entries != []
    ensures |r| == |L| + 1
  {
    [[Node(0, [Head(Node(nb, L[0][0].entries))])], [Node(nb, L[0][0].entries)]] + L[1..]
  }

  /** A list cut in the middle, the longer part at the end. */
  predicate Halves(a: seq<Entry>, b: seq<Entry>, es: seq<Entry>) {
    a + b == es && |a| <= |b| <= |a| + 1
  }

  /** Node `c` took in `x`: in itself if there is room, else half of its entries moved to the first free block. */
  predicate TookIn(was: Level, now: Level, c: nat, x: Entry, max: nat, free: seq<nat>) {
    && c < |was|
    && var es := SortedInsert(was[c].entries, x);
       if |es| <= max then
         now == Put(was, c, [Node(was[c].block, es)])
       else
         && |now| == |was| + 1 && free != [] && now == Put(was, c, [now[c], now[c + 1]])
         && now[c].block == was[c].block && now[c + 1].block == free[0]
         && Halves(now[c].entries, now[c + 1].entries, es)
  }

  /**
   Level `k`, counted with the levels below it since the tree may have grown, took in `x`; the levels below stay. A
   full root moves down into the first free block.
   */
  predicate LevelTook(L: Levels, M: Levels, k: nat, c: nat, x: Entry, cap: Capacity, free: seq<nat>) {
    && k < |L| <= |M| && M[|M| - |L| + k + 1..] == L[k + 1..]
    && var now := M[|M| - |L| + k];
       if k > 0 then
         TookIn(L[k], now, c, x, cap.node, free)
       else
         && |L[0]| == 1 && (|L[0][0].entries| >= cap.root ==> free != [])
         && now == [Node(if |L[0][0].entries| < cap.root then L[0][0].block else free[0],
                         SortedInsert(L[0][0].entries, x))]
  }

  lemma TookFits(L: Levels, k: nat, c: nat, x: Entry, cap: Capacity, free: seq<nat>)
    requires InTree(L, k, c)
    requires var n := |L[k][c].entries|;
             if k > 0 then n < cap.node else |L[0]| == 1 && n < cap.root
    ensures LevelTook(L, PutAt(L, k, c, [Node(L[k][c].block, SortedInsert(L[k][c].entries, x))]), k, c, x, cap, free)
  {
    hide SortedPos;
  }

  lemma TookSplits(L: Levels, k: nat, c: nat, x: Entry, cap: Capacity, free: seq<nat>, M: Levels, d: nat, y: Entry)
    requires InTree(L, k, c) && k > 0 && |L[k][c].entries| >= cap.node && free != []
    requires var es := SortedInsert(L[k][c].entries, x);
             var halves := [Node(L[k][c].block, es[..|es| / 2]), Node(free[0], es[|es| / 2..])];
             LevelTook(PutAt(L, k, c, halves), M, k - 1, d, y, cap, free[1..])
    ensures LevelTook(L, M, k, c, x, cap, free)
  {
    hide SortedInsert;
    var es := SortedInsert(L[k][c].entries, x);
    var h := |es| / 2;
    var r := PutAt(L, k, c, [Node(L[k][c].block, es[..h]), Node(free[0], es[h..])]);
    var e := |M| - |L|;
    assert M[e + k] == M[e + k..][0] == r[k];
    assert M[e + k + 1..] == M[e + k..][1..] == r[k + 1..] == L[k + 1..];
    assert es[..h] + es[h..] == es;
  }

  lemma TookGrown(L: Levels, x: Entry, cap: Capacity, free: seq<nat>)
    requires |L| >= 1 && |L[0]| == 1 && L[0][0].entries != [] && |L[0][0].entries| >= cap.root && free != []
    ensures var M := PutAt(Grown(L, free[0]), 1, 0, [Node(free[0], SortedInsert(L[0][0].entries, x))]);
            LevelTook(L, M, 0, 0, x, cap, free)
  {
    hide SortedInsert;
  }

  lemma GrownLevels(L: Levels, nb: nat, m: nat)
    requires |L| >= 1 && |L[0]| == 1 && L[0][0].entries != [] && m < |L| + 1
    ensures m >= 2 ==> Grown(L, nb)[m] == L[m - 1]
    ensures Flat(Grown(L, nb)[1]) == Flat(L[0]) && Linked(Grown(L, nb), 0)
  {
    FlatOne(L[0][0]);
    FlatOne(Node(nb, L[0][0].entries));
    FlatOne(Grown(L, nb)[0][0]);
    assert L[0] == [L[0][0]];
  }

  lemma GrownDistinct(L: Levels, nb: nat)
    requires Distinct(L) && |L| >= 1 && |L[0]| == 1 && L[0][0].entries != [] && L[0][0].block == 0
    requires Unused(L, nb)
    ensures Distinct(Grown(L, nb))
    ensures forall b :: Unused(L, b) && b != nb ==> Unused(Grown(L, nb), b)
  {
    var r := Grown(L, nb);
    assert InTree(L, 0, 0);
    forall m: nat, i: nat | InTree(r, m, i)
      ensures m >= 2 ==> InTree(L, m - 1, i) && r[m][i] == L[m - 1][i]
      ensures m < 2 ==> i == 0 && r[m][i].block == if m == 0 then 0 else nb
    {
    }
  }

  lemma GrownShape(L: Levels, cap: Capacity, nb: nat)
    requires Shape(L, cap) && L[0][0].entries != [] && cap.node >= cap.root
    ensures Shape(Grown(L, nb), cap)
  {
    var r := Grown(L, nb);
    forall m: nat | 1 <= m < |r|
      ensures GoodLevel(r[m], cap.node)
    {
      if m >= 2 {
        assert r[m] == L[m - 1];
      }
    }
  }

  lemma GrownLinks(L: Levels, nb: nat, k: int)
    requires |L| >= 1 && |L[0]| == 1 && L[0][0].entries != [] && LinkedBut(L, k)
    ensures LinkedBut(Grown(L, nb), if k < 0 then k else k + 1)
  {
    hide Flat, Heads, NonEmpty;
    var r := Grown(L, nb);
    forall m: nat | m + 1 < |r| && m != (if k < 0 then k else k + 1)
      ensures Linked(r, m)
    {
      GrownLevels(L, nb, m);
      GrownLevels(L, nb, m + 1);
      if m >= 1 {
        assert Linked(L, m - 1);
      }
    }
  }

  lemma GrownTree(L: Levels, cap: Capacity, nb: nat)
    requires Tree(L, cap) && L[0][0].entries != [] && cap.node >= cap.root && Unused(L, nb)
    ensures Tree(Grown(L, nb), cap) && Flat(Leaves(Grown(L, nb))) == Flat(Leaves(L))
  {
    hide Flat, Heads, Distinct, SortedKeys;
    GrownShape(L, cap, nb);
    GrownLinks(L, nb, -1);
    GrownDistinct(L, nb);
    GrownLevels(L, nb, |L|);
  }

  lemma GrownDangling(L: Levels, cap: Capacity, g: nat, x: Entry, nb: nat)
    requires Dangling(L, cap, 0, g, x) && L[0][0].entries != [] && cap.node >= cap.root && Unused(L, nb)
    ensures Dangling(Grown(L, nb), cap, 1, g, x) && Leaves(Grown(L, nb)) == Leaves(L)
  {
    hide Flat, Heads, Distinct, SortedKeys;
    GrownShape(L, cap, nb);
    GrownLinks(L, nb, 0);
    GrownDistinct(L, nb);
    GrownLevels(L, nb, 2);
    GrownLevels(L, nb, |L|);
  }

  // ---- a new smallest key ------------------------------------------------------------------------------

  function LowerEntry(es: seq<Entry>, key: u32): (r: seq<Entry>)
    requires es != []
    ensures |r| == |es|
  {
    es[0 := es[0].(first := key)]
  }

  /** The leftmost key of levels `0..k` set to `key`. */
  function Lowered(L: Levels, k: nat, key: u32): (r: Levels)
    requires k < |L| && forall m: nat :: m <= k ==> L[m] != [] && L[m][0].entries != []
    ensures |r| == |L|
    ensures forall m: nat :: k < m < |L| ==> r[m] == L[m]
    ensures forall m: nat :: m <= k ==> r[m] == L[m][0 := Node(L[m][0].block, LowerEntry(L[m][0].entries, key))]
  {
    seq(|L|, m requires 0 <= m < |L| =>
      if m <= k then L[m][0 := Node(L[m][0].block, LowerEntry(L[m][0].entries, key))] else L[m])
  }

  lemma LoweredFlat(level: Level, key: u32)
    requires level != [] && NonEmpty(level)
    ensures var r := level[0 := Node(level[0].block, LowerEntry(level[0].entries, key))];
            && Flat(level) != [] && Flat(r) == LowerEntry(Flat(level), key)
            && NonEmpty(r) && Heads(r) == LowerEntry(Heads(level), key)
  {
    hide Flat;
    var n := Node(level[0].block, LowerEntry(level[0].entries, key));
    UpdateInNode(level, 0, 0, level[0].entries[0].(first := key));
    FirstOffset(level);
    FlatAt(level, 0, 0);
    HeadsOne(level, 0, n);
    assert level[0 := n] == Put(level, 0, [n]);
  }

  lemma LoweredLinks(L: Levels, cap: Capacity, k: nat, key: u32)
    requires Shape(L, cap) && k + 1 < |L| && LinkedBut(L, k) && forall m: nat :: m <= k ==>
             L[m] != [] && L[m][0].entries != []
    ensures Shape(Lowered(L, k, key), cap) && LinkedBut(Lowered(L, k, key), k)
    ensures Flat(L[k]) != [] && Flat(Lowered(L, k, key)[k]) == LowerEntry(Flat(L[k]), key)
  {
    hide Flat, Heads;
    var r := Lowered(L, k, key);
    forall m: nat | m <= k
      ensures Flat(L[m]) != [] && Flat(r[m]) == LowerEntry(Flat(L[m]), key)
      ensures NonEmpty(L[m]) && NonEmpty(r[m]) && Heads(r[m]) == LowerEntry(Heads(L[m]), key)
    {
      NonEmptyLevel(L, cap, m);
      LoweredFlat(L[m], key);
    }
    forall m: nat | m + 1 < |L| && m != k
      ensures Linked(r, m)
    {
      assert Linked(L, m);
    }
    forall m: nat | 1 <= m < |L|
      ensures GoodLevel(r[m], cap.node)
    {
      assert GoodLevel(L[m], cap.node);
    }
  }

  lemma LoweredDistinct(L: Levels, k: nat, key: u32)
    requires Distinct(L) && k < |L| && forall m: nat :: m <= k ==> L[m] != [] && L[m][0].entries != []
    ensures Distinct(Lowered(L, k, key))
    ensures forall b :: Unused(L, b) ==> Unused(Lowered(L, k, key), b)
  {
    var r := Lowered(L, k, key);
    forall m: nat, i: nat
      ensures InTree(r, m, i) <==> InTree(L, m, i)
      ensures InTree(r, m, i) ==> r[m][i].block == L[m][i].block
    {
    }
  }

  // ---- changing a leaf -----------------------------------------------------------------------------------

  function Last(L: Levels): nat
    requires L != []
  {
    |L| - 1
  }

  /** The leaf a key is routed to: the last whose first key is at most `l`, or the first. */
  function ChosenLeaf(L: Levels, l: nat): (c: nat)
    requires L != [] && Leaves(L) != [] && NonEmpty(Leaves(L))
    ensures c < |Leaves(L)|
  {
    FindSlot(Heads(Leaves(L)), l)
  }

  /** Leaf `c` took in `x` and moved half of its entries to the first free block; the levels above may not know. */
  predicate LeafHalved(L: Levels, P: Levels, c: nat, x: Entry, free: seq<nat>) {
    && |P| == |L| > 1 && c < |Leaves(L)| && free != []
    && var es := SortedInsert(Leaves(L)[c].entries, x);
       Leaves(P) == Put(Leaves(L), c, [Node(Leaves(L)[c].block, es[..|es| / 2]), Node(free[0], es[|es| / 2..])])
  }

  lemma HalvedIs(L: Levels, P: Levels, c: nat, x: Entry, free: seq<nat>, a: Node, b: Node)
    requires |P| == |L| > 1 && InTree(L, Last(L), c) && free != [] && Leaves(P) == PutAt(L, Last(L), c, [a, b])[Last(L)]
    requires var es := SortedInsert(Leaves(L)[c].entries, x);
             a == Node(Leaves(L)[c].block, es[..|es| / 2]) && b == Node(free[0], es[|es| / 2..])
    ensures LeafHalved(L, P, c, x, free)
  {
  }

  /** The leaf on the way to a new entry took it in. */
  predicate TookLeaf(L: Levels, M: Levels, x: Entry, max: nat, free: seq<nat>) {
    && L != [] && M != [] && Leaves(L) != [] && NonEmpty(Leaves(L))
    && TookIn(Leaves(L), Leaves(M), ChosenLeaf(L, x.first), x, max, free)
  }

  /** A split leaf stays halved, whatever its index entry does above. */
  lemma LeafTook(L: Levels, P: Levels, M: Levels, x: Entry, cap: Capacity, free: seq<nat>, d: nat, y: Entry,
      rest: seq<nat>)
    requires L != [] && Leaves(L) != [] && NonEmpty(Leaves(L)) && LeafHalved(L, P, ChosenLeaf(L, x.first), x, free)
    requires |Leaves(L)[ChosenLeaf(L, x.first)].entries| >= cap.node && LevelTook(P, M, Last(L) - 1, d, y, cap, rest)
    ensures M != [] && TookLeaf(L, M, x, cap.node, free)
  {
    hide SortedInsert;
    var es := SortedInsert(Leaves(L)[ChosenLeaf(L, x.first)].entries, x);
    assert M[|M| - |L| + Last(L)..][0] == M[|M| - 1];
    assert es[..|es| / 2] + es[|es| / 2..] == es;
  }

  /**
   The place of a new key in the chosen leaf is its place in the whole list, and only the first leaf can get a new
   minimum.
   */
  lemma LeafPlace(L: Levels, l: nat)
    requires L != [] && Leaves(L) != [] && NonEmpty(Leaves(L)) && SortedKeys(Flat(Leaves(L)))
    ensures var c := ChosenLeaf(L, l);
            && SortedPos(Flat(Leaves(L)), l) == Offset(Leaves(L), c) + SortedPos(Leaves(L)[c].entries, l)
            && (SortedPos(Leaves(L)[c].entries, l) == 0 ==> c == 0)
  {
    hide Flat, Offset, FindSlot, SortedPos;
    var level, c := Leaves(L), ChosenLeaf(L, l);
    var es := level[c].entries;
    var sp := SortedPos(es, l);
    HeadsSorted(level);
    FindSlotFacts(Heads(level), l);
    SortedPosFacts(es, l);
    WholeFlat(level);
    OffsetStep(level, c);
    if c > 0 {
      assert es[0].first == Heads(level)[c].first <= l;
    } else {
      FirstOffset(level);
    }
    var g := Offset(level, c) + sp;
    if sp > 0 {
      FlatAt(level, c, sp - 1);
    }
    if sp < |es| {
      FlatAt(level, c, sp);
    } else if g < |Flat(level)| {
      NextNode(level, c);
      FlatAt(level, c + 1, 0);
      assert Heads(level)[c + 1].first > l;
    }
    OffsetInside(level, c);
    SortedPosUnique(Flat(level), l, g);
  }

  lemma OffsetInside(level: Level, c: nat)
    requires c < |level|
    ensures Offset(level, c) + |level[c].entries| <= |Flat(level)|
  {
    FlatPut(level, c, []);
  }

  /** Putting nodes in a leaf's place breaks no link but the one above. */
  lemma LeafLinks(L: Levels, cap: Capacity, c: nat, news: Level)
    requires Tree(L, cap) && c < |Leaves(L)| && GoodLevel(news, cap.At(Last(L)))
    requires |L| == 1 ==> |news| == 1 && news[0].block == 0
    ensures Shape(PutAt(L, Last(L), c, news), cap) && LinkedBut(PutAt(L, Last(L), c, news), Last(L) - 1)
    ensures |L| > 1 ==> NonEmpty(Leaves(L)) && Flat(L[Last(L) - 1]) == Heads(Leaves(L))
  {
    hide Flat, Heads, Distinct, SortedKeys, GoodLevel;
    var k := Last(L);
    ShapePut(L, cap, k, c, news);
    var r := PutAt(L, k, c, news);
    forall m: nat | m + 1 < |L| && m != k - 1
      ensures Linked(r, m)
    {
      LinksAway(L, k, r[k], m);
    }
    if |L| > 1 {
      assert Linked(L, k - 1);
    }
  }

  /** A new entry that fits its leaf and is not its smallest. */
  lemma LeafFits(L: Levels, cap: Capacity, x: Entry)
    requires Tree(L, cap) && NewKey(Flat(Leaves(L)), x.first)
    requires Leaves(L) != [] && NonEmpty(Leaves(L))
    requires var es := Leaves(L)[ChosenLeaf(L, x.first)].entries;
             |es| < (cap.At(Last(L))) && (|L| > 1 ==> SortedPos(es, x.first) > 0)
    ensures var c := ChosenLeaf(L, x.first);
            var n := Node(Leaves(L)[c].block, SortedInsert(Leaves(L)[c].entries, x));
            var r := PutAt(L, Last(L), c, [n]);
            Tree(r, cap) && Flat(Leaves(r)) == SortedInsert(Flat(Leaves(L)), x)
  {
    hide Flat, Heads, Distinct, SortedKeys, Shape, LinkedBut, SortedPos, Offset, NewKey, FindSlot, SortedInsert;
    RootBlock(L, cap);
    LeafFirst(L, x);
    var c, k := ChosenLeaf(L, x.first), Last(L);
    var es := Leaves(L)[c].entries;
    var n := Node(Leaves(L)[c].block, SortedInsert(es, x));
    var r := PutAt(L, k, c, [n]);
    FlatOne(n);
    LeafPlace(L, x.first);
    InsertHere(Leaves(L), c, x, n);
    SortedInsertSorted(Flat(Leaves(L)), x);
    DistinctOne(L, k, c, n.entries);
    LeafLinks(L, cap, c, [n]);
    HeadsOne(Leaves(L), c, n);
    if |L| > 1 {
      assert Head(n) == Head(Leaves(L)[c]);
      assert Heads(Leaves(L))[c := Head(n)] == Heads(Leaves(L));
      LastLink(r, k - 1);
    } else {
      AllLinks(r);
    }
  }

  lemma InsertHere(level: Level, c: nat, x: Entry, n: Node)
    requires c < |level| && n.entries == SortedInsert(level[c].entries, x)
    requires SortedPos(Flat(level), x.first) == Offset(level, c) + SortedPos(level[c].entries, x.first)
    ensures Flat(Put(level, c, [n])) == SortedInsert(Flat(level), x)
  {
    hide Flat, Offset, SortedPos;
    FlatOne(n);
    InsertInNode(level, c, SortedPos(level[c].entries, x.first), x, [n]);
  }

  lemma RootBlock(L: Levels, cap: Capacity)
    requires Shape(L, cap)
    ensures |L| >= 1 && |L[0]| == 1 && L[0][0].block == 0
  {
  }

  lemma LastLink(L: Levels, k: nat)
    requires LinkedBut(L, k) && k + 1 < |L| && Linked(L, k)
    ensures LinkedBut(L, -1)
  {
    hide Linked;
  }

  lemma AllLinks(L: Levels)
    requires LinkedBut(L, 0) || LinkedBut(L, -1)
    requires |L| == 1
    ensures LinkedBut(L, -1)
  {
    hide Linked;
  }

  /** A new entry that fits its leaf and becomes the smallest of the tree, once the keys above are lowered. */
  lemma LeafFitsMin(L: Levels, cap: Capacity, x: Entry)
    requires Tree(L, cap) && NewKey(Flat(Leaves(L)), x.first) && |L| > 1
    requires Leaves(L) != [] && NonEmpty(Leaves(L))
    requires var es := Leaves(L)[ChosenLeaf(L, x.first)].entries;
             |es| < cap.node && SortedPos(es, x.first) == 0
    ensures ChosenLeaf(L, x.first) == 0 && forall m: nat :: m < |L| ==> L[m] != [] && L[m][0].entries != []
    ensures var n := Node(Leaves(L)[0].block, SortedInsert(Leaves(L)[0].entries, x));
            var r := Lowered(PutAt(L, Last(L), 0, [n]), Last(L) - 1, x.first);
            Tree(r, cap) && Flat(Leaves(r)) == SortedInsert(Flat(Leaves(L)), x)
  {
    hide Flat, Heads, Distinct, SortedKeys, Shape, LinkedBut, SortedPos, Offset, NewKey, FindSlot;
    LeafPlace(L, x.first);
    var k := Last(L);
    var es := Leaves(L)[0].entries;
    var n := Node(Leaves(L)[0].block, SortedInsert(es, x));
    var s := PutAt(L, k, 0, [n]);
    assert s[k] == Put(L[k], 0, [n]) && forall m: nat :: m < k ==> s[m] == L[m];
    FlatOne(n);
    InsertInNode(Leaves(L), 0, 0, x, [n]);
    SortedInsertSorted(Flat(Leaves(L)), x);
    DistinctOne(L, k, 0, n.entries);
    LeafLinks(L, cap, 0, [n]);
    HeadsOne(Leaves(L), 0, n);
    LeftmostPath(L, cap);
    LoweredLinks(s, cap, k - 1, x.first);
    LoweredDistinct(s, k - 1, x.first);
    assert Head(n) == Heads(Leaves(L))[0].(first := x.first);
    LastLink(Lowered(s, k - 1, x.first), k - 1);
  }

  lemma LeftmostPath(L: Levels, cap: Capacity)
    requires Tree(L, cap) && Leaves(L) != [] && NonEmpty(Leaves(L))
    ensures forall m: nat :: m < |L| ==> L[m] != [] && L[m][0].entries != []
  {
    hide Flat, Heads, Distinct, SortedKeys;
    forall m: nat | m < |L|
      ensures L[m] != [] && NonEmpty(L[m])
    {
      NonEmptyFrom(L, cap, m);
    }
  }

  lemma {:induction false} NonEmptyFrom(L: Levels, cap: Capacity, m: nat)
    requires Shape(L, cap) && LinkedBut(L, -1) && m < |L| && Leaves(L) != [] && NonEmpty(Leaves(L))
    ensures L[m] != [] && NonEmpty(L[m])
    decreases |L| - m
  {
    if m + 1 < |L| {
      NonEmptyFrom(L, cap, m + 1);
      assert Linked(L, m);
      NonEmptyLevel(L, cap, m);
    }
  }

  /** A full leaf split around a new entry that is not its smallest: the level above lacks the new leaf's entry. */
  lemma LeafSplits(L: Levels, cap: Capacity, x: Entry, nb: nat, h: nat)
    requires Tree(L, cap) && NewKey(Flat(Leaves(L)), x.first) && |L| > 1 && Unused(L, nb)
    requires Leaves(L) != [] && NonEmpty(Leaves(L))
    requires var es := Leaves(L)[ChosenLeaf(L, x.first)].entries;
             SortedPos(es, x.first) > 0 && 1 <= h <= cap.node && 1 <= |es| + 1 - h <= cap.node
    ensures var c := ChosenLeaf(L, x.first);
            var es := SortedInsert(Leaves(L)[c].entries, x);
            var r := PutAt(L, Last(L), c, [Node(Leaves(L)[c].block, es[..h]), Node(nb, es[h..])]);
            && Dangling(r, cap, Last(L) - 1, c, Entry(es[h].first, 0, nb))
            && Flat(Leaves(r)) == SortedInsert(Flat(Leaves(L)), x)
  {
    hide Flat, Heads, Distinct, SortedKeys, Shape, LinkedBut, SortedPos, Offset, NewKey, FindSlot, SortedInsert;
    var c, k := ChosenLeaf(L, x.first), Last(L);
    LeafContents(L, x, nb, h);
    var es := SortedInsert(Leaves(L)[c].entries, x);
    var a, b := Node(Leaves(L)[c].block, es[..h]), Node(nb, es[h..]);
    LeafFirst(L, x);
    DistinctTwo(L, k, c, a, b);
    TwoGood(a, b, cap.node);
    LeafLinks(L, cap, c, [a, b]);
    HeadsTwo(Leaves(L), c, a, b);
    assert Head(a) == Head(Leaves(L)[c]);
    assert Heads(Leaves(L))[c := Head(a)] == Heads(Leaves(L));
  }

  /** The two halves hold the leaf's entries and the new one, in the whole list as well. */
  lemma LeafContents(L: Levels, x: Entry, nb: nat, h: nat)
    requires L != [] && Leaves(L) != [] && NonEmpty(Leaves(L)) && SortedKeys(Flat(Leaves(L)))
    requires NewKey(Flat(Leaves(L)), x.first)
    requires h <= |Leaves(L)[ChosenLeaf(L, x.first)].entries| + 1
    ensures var c := ChosenLeaf(L, x.first);
            var es := SortedInsert(Leaves(L)[c].entries, x);
            var level := Put(Leaves(L), c, [Node(Leaves(L)[c].block, es[..h]), Node(nb, es[h..])]);
            Flat(level) == SortedInsert(Flat(Leaves(L)), x) && SortedKeys(Flat(level))
  {
    hide Flat, Heads, SortedKeys, SortedPos, Offset, NewKey, FindSlot;
    var c := ChosenLeaf(L, x.first);
    var es := SortedInsert(Leaves(L)[c].entries, x);
    LeafPlace(L, x.first);
    FlatHalves(Leaves(L)[c].block, nb, es, h);
    InsertInNode(Leaves(L), c, SortedPos(Leaves(L)[c].entries, x.first), x,
        [Node(Leaves(L)[c].block, es[..h]), Node(nb, es[h..])]);
    SortedInsertSorted(Flat(Leaves(L)), x);
  }

  lemma LeafFirst(L: Levels, x: Entry)
    requires L != [] && Leaves(L) != [] && NonEmpty(Leaves(L))
    ensures var es := Leaves(L)[ChosenLeaf(L, x.first)].entries;
            && SortedInsert(es, x) != []
            && SortedInsert(es, x)[0] == if SortedPos(es, x.first) > 0 then es[0] else x
  {
  }

  /** A full leaf split around a new smallest entry of the tree, once the keys above are lowered. */
  lemma LeafSplitsMin(L: Levels, cap: Capacity, x: Entry, nb: nat, h: nat)
    requires Tree(L, cap) && NewKey(Flat(Leaves(L)), x.first) && |L| > 1 && Unused(L, nb)
    requires Leaves(L) != [] && NonEmpty(Leaves(L))
    requires var es := Leaves(L)[ChosenLeaf(L, x.first)].entries;
             SortedPos(es, x.first) == 0 && 1 <= h <= cap.node && 1 <= |es| + 1 - h <= cap.node
    ensures ChosenLeaf(L, x.first) == 0 && forall m: nat :: m < |L| ==> L[m] != [] && L[m][0].entries != []
    ensures var es := SortedInsert(Leaves(L)[0].entries, x);
            var r := Lowered(PutAt(L, Last(L), 0, [Node(Leaves(L)[0].block, es[..h]), Node(nb, es[h..])]), Last(L) - 1,
                x.first);
            && Dangling(r, cap, Last(L) - 1, 0, Entry(es[h].first, 0, nb))
            && Flat(Leaves(r)) == SortedInsert(Flat(Leaves(L)), x)
  {
    hide Flat, Heads, Distinct, SortedKeys, Shape, LinkedBut, SortedPos, Offset, NewKey, FindSlot, SortedInsert;
    LeafPlace(L, x.first);
    var k := Last(L);
    LeafContents(L, x, nb, h);
    var es := SortedInsert(Leaves(L)[0].entries, x);
    var a, b := Node(Leaves(L)[0].block, es[..h]), Node(nb, es[h..]);
    var s := PutAt(L, k, 0, [a, b]);
    LeafFirst(L, x);
    DistinctTwo(L, k, 0, a, b);
    TwoGood(a, b, cap.node);
    LeafLinks(L, cap, 0, [a, b]);
    HeadsTwo(Leaves(L), 0, a, b);
    LeftmostPath(L, cap);
    LoweredLinks(s, cap, k - 1, x.first);
    LoweredDistinct(s, k - 1, x.first);
    assert Heads(Leaves(L))[0 := Head(a)] == LowerEntry(Heads(Leaves(L)), x.first);
  }

  /** An extent changed in place, its first block kept: no key changes. */
  lemma LeafUpdated(L: Levels, cap: Capacity, c: nat, p: nat, m: Entry)
    requires Tree(L, cap) && c < |Leaves(L)| && p < |Leaves(L)[c].entries| && Leaves(L)[c].entries[p].first == m.first
    requires Offset(Leaves(L), c) + p < |Flat(Leaves(L))| ==> SortedKeys(Flat(Leaves(L))[Offset(Leaves(L), c) + p := m])
    ensures var r := PutAt(L, Last(L), c, [Node(Leaves(L)[c].block, Leaves(L)[c].entries[p := m])]);
            && Offset(Leaves(L), c) + p < |Flat(Leaves(L))|
            && Tree(r, cap) && Flat(Leaves(r)) == Flat(Leaves(L))[Offset(Leaves(L), c) + p := m]
  {
    hide Flat, Heads, Distinct, SortedKeys, Shape, LinkedBut, Offset;
    RootBlock(L, cap);
    LeafSize(L, cap, c);
    var n := Node(Leaves(L)[c].block, Leaves(L)[c].entries[p := m]);
    var k := Last(L);
    var r := PutAt(L, k, c, [n]);
    UpdateInNode(Leaves(L), c, p, m);
    DistinctOne(L, k, c, n.entries);
    LeafLinks(L, cap, c, [n]);
    if |L| > 1 {
      HeadsOne(Leaves(L), c, n);
      assert Head(n) == Head(Leaves(L)[c]);
      assert Heads(Leaves(L))[c := Head(n)] == Heads(Leaves(L));
      LastLink(r, k - 1);
    } else {
      AllLinks(r);
    }
  }

  lemma LeafSize(L: Levels, cap: Capacity, c: nat)
    requires Shape(L, cap) && c < |Leaves(L)|
    ensures |Leaves(L)[c].entries| <= cap.At(Last(L))
  {
    if |L| > 1 {
      assert GoodLevel(L[|L| - 1], cap.node);
    }
  }

  // ---- routes -------------------------------------------------------------------------------------------

  lemma {:induction false} LevelsThere(L: Levels, cap: Capacity, m: nat)
    requires Shape(L, cap) && LinkedBut(L, -1) && m < |L| && (|L| > 1 || L[0][0].entries != [])
    ensures L[m] != [] && NonEmpty(L[m]) && Flat(L[m]) != []
    decreases m
  {
    NonEmptyLevel(L, cap, m);
    if m == 0 {
      assert L[0] == [L[0][0]];
      FlatOne(L[0][0]);
    } else {
      LevelsThere(L, cap, m - 1);
      assert Linked(L, m - 1);
      assert Heads(L[m]) != [];
      FlatAt(L[m], 0, 0);
    }
  }

  /** The node of level `m` that a search for `l` goes through, and the slot it takes there. */
  function ChosenAt(L: Levels, m: nat, l: nat): (c: nat)
    requires m < |L| && L[m] != [] && NonEmpty(L[m])
    ensures c < |L[m]|
  {
    FindSlot(Heads(L[m]), l)
  }

  function SlotAt(L: Levels, m: nat, l: nat): (p: nat)
    requires m < |L| && L[m] != [] && NonEmpty(L[m])
    ensures p < |L[m][ChosenAt(L, m, l)].entries|
  {
    FindSlot(L[m][ChosenAt(L, m, l)].entries, l)
  }

  /** Following the entry found in one level leads to the right node of the next. */
  lemma StepDown(L: Levels, cap: Capacity, m: nat, l: nat)
    requires Tree(L, cap) && m + 1 < |L|
    ensures L[m] != [] && NonEmpty(L[m]) && L[m + 1] != [] && NonEmpty(L[m + 1])
    ensures ChosenAt(L, m + 1, l) == Offset(L[m], ChosenAt(L, m, l)) + SlotAt(L, m, l)
    ensures L[m][ChosenAt(L, m, l)].entries[SlotAt(L, m, l)].ptr == L[m + 1][ChosenAt(L, m + 1, l)].block
    ensures SortedKeys(L[m][ChosenAt(L, m, l)].entries)
  {
    hide Flat, Offset, Heads, FindSlot, SortedKeys, Distinct, Shape, SortedKeys;
    LevelsThere(L, cap, m);
    LevelsThere(L, cap, m + 1);
    LevelSorted(L, cap, -1, m);
    FindInNode(L[m], l);
    assert Linked(L, m);
    NodeSorted(L[m], ChosenAt(L, m, l));
    FlatAt(L[m], ChosenAt(L, m, l), SlotAt(L, m, l));
  }

  lemma LeafSearch(L: Levels, cap: Capacity, l: nat)
    requires Tree(L, cap) && (|L| > 1 || L[0][0].entries != [])
    ensures Leaves(L) != [] && NonEmpty(Leaves(L)) && Flat(Leaves(L)) != []
    ensures var c := ChosenLeaf(L, l);
            && SortedKeys(Leaves(L)[c].entries)
            && FindSlot(Flat(Leaves(L)), l) == Offset(Leaves(L), c) + FindSlot(Leaves(L)[c].entries, l)
            && Flat(Leaves(L))[FindSlot(Flat(Leaves(L)), l)] == Leaves(L)[c].entries[FindSlot(Leaves(L)[c].entries, l)]
  {
    hide Flat, Offset, Heads, FindSlot, SortedKeys, Distinct, Shape, SortedKeys;
    RootBlock(L, cap);
    LevelsThere(L, cap, Last(L));
    FindInNode(Leaves(L), l);
    var c := ChosenLeaf(L, l);
    NodeSorted(Leaves(L), c);
    FlatAt(Leaves(L), c, FindSlot(Leaves(L)[c].entries, l));
  }

  /** A search that ends in the first leaf took the first slot everywhere. */
  lemma {:induction false} LeftRoute(L: Levels, cap: Capacity, l: nat, m: nat)
    requires Tree(L, cap) && |L| > 1 && m < |L|
    requires forall k: nat :: k < |L| ==> L[k] != [] && NonEmpty(L[k])
    requires ChosenAt(L, Last(L), l) == 0
    ensures ChosenAt(L, m, l) == 0 && (m < Last(L) ==> SlotAt(L, m, l) == 0)
    decreases |L| - m
  {
    hide Flat, Offset, Heads, FindSlot, SortedKeys, Distinct, Shape, LinkedBut;
    if m < Last(L) {
      LeftRoute(L, cap, l, m + 1);
      StepDown(L, cap, m, l);
      var c := ChosenAt(L, m, l);
      if c > 0 {
        OffsetMonotone(L[m], 0, c);
        FirstOffset(L[m]);
      }
    }
  }

  // ---- filling the gap in a concrete node ------------------------------------------------------------------

  lemma TreeDistinct(L: Levels, cap: Capacity)
    requires Tree(L, cap)
    ensures Distinct(L) && Shape(L, cap) && SortedKeys(Flat(Leaves(L)))
  {
  }

  lemma DanglingFacts(L: Levels, cap: Capacity, k: nat, g: nat, x: Entry)
    requires Dangling(L, cap, k, g, x)
    ensures Distinct(L) && Shape(L, cap) && k + 1 < |L|
  {
  }

  lemma RootOffset(L: Levels)
    requires L != [] && |L[0]| == 1
    ensures Offset(L[0], 0) == 0 && Flat(L[0]) == L[0][0].entries
  {
    FlatOne(L[0][0]);
    assert L[0] == [L[0][0]];
  }

  /** The root has room for the missing entry. */
  lemma RootFill(L: Levels, cap: Capacity, p: nat, x: Entry)
    requires Dangling(L, cap, 0, p, x) && |L[0]| == 1 && L[0][0].block == 0 && p < |L[0][0].entries| < cap.root
    ensures Distinct(L) && InTree(L, 0, 0)
    ensures var r := PutAt(L, 0, 0, [Node(0, SortedInsert(L[0][0].entries, x))]);
            Tree(r, cap) && r != [] && Leaves(r) == Leaves(L)
  {
    hide Dangling, Tree, Offset, SortedPos, Distinct, PutAt;
    DanglingFacts(L, cap, 0, p, x);
    RootOffset(L);
    DanglingPlace(L, cap, 0, 0, p, x);
    FillFits(L, cap, 0, 0, p, x);
  }

  /** After growing, the child has room for it. */
  lemma GrownFill(L: Levels, cap: Capacity, p: nat, x: Entry, nb: nat)
    requires Dangling(L, cap, 0, p, x) && |L[0]| == 1 && L[0][0].block == 0
    requires p < |L[0][0].entries| == cap.root < cap.node
    requires Unused(L, nb)
    ensures var G := Grown(L, nb);
            && Distinct(G) && InTree(G, 1, 0) && G[1][0] == Node(nb, L[0][0].entries)
            && var r := PutAt(G, 1, 0, [Node(nb, SortedInsert(L[0][0].entries, x))]);
               Tree(r, cap) && r != [] && Leaves(r) == Leaves(L)
  {
    hide Dangling, Tree, Offset, SortedPos, Distinct, PutAt, Unused;
    DanglingFacts(L, cap, 0, p, x);
    GrownDangling(L, cap, p, x, nb);
    var G := Grown(L, nb);
    DanglingFacts(G, cap, 1, p, x);
    assert G[1] == [Node(nb, L[0][0].entries)];
    FirstOffset(G[1]);
    DanglingPlace(G, cap, 1, 0, p, x);
    FillFits(G, cap, 1, 0, p, x);
  }

  lemma PlaceFacts(L: Levels, cap: Capacity, k: nat, c: nat, p: nat, x: Entry)
    requires InTree(L, k, c) && p < |L[k][c].entries|
    requires Dangling(L, cap, k, Offset(L[k], c) + p, x)
    ensures SortedInsert(L[k][c].entries, x) == InsertAt(L[k][c].entries, p + 1, x)
    ensures k >= 1 ==> |L[k][c].entries| <= cap.node
  {
    hide Offset, SortedPos, LinkedBut, Distinct, Flat;
    DanglingPlace(L, cap, k, c, p, x);
    if k >= 1 {
      assert GoodLevel(L[k], cap.node);
    }
  }
}
