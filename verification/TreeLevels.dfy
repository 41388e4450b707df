/** A search tree level by level: every level's entries are the first keys of the next level's nodes. */
module TreeLevels {
  import opened Bytes
  import opened Records

  /** A node and the block that holds it; the root is at block 0. */
  datatype Node = Node(block: nat, entries: seq<Entry>)

  type Level = seq<Node>

  /** All entries of a level, left to right. */
  function Flat(level: Level): (r: seq<Entry>)
  {
    if level == [] then [] else level[0].entries + Flat(level[1..])
  }

  predicate NonEmpty(level: Level) {
    forall i :: 0 <= i < |level| ==> level[i].entries != []
  }

  /** The index entry that routes to `n`: its first key and its block. */
  function Head(n: Node): Entry
    requires n.entries != []
  {
    Entry(n.entries[0].first, 0, n.block)
  }

  function Heads(level: Level): (r: seq<Entry>)
    requires NonEmpty(level)
    ensures |r| == |level|
    ensures forall i :: 0 <= i < |level| ==> r[i] == Head(level[i])
  {
    seq(|level|, i requires 0 <= i < |level| => Head(level[i]))
  }

  /** Where the entries of node `c` start among the level's entries. */
  function Offset(level: Level, c: nat): nat
    requires c <= |level|
  {
    |Flat(level[..c])|
  }

  /** Node `c` replaced by `news`. */
  function Put(level: Level, c: nat, news: Level): (r: Level)
    requires c < |level|
    ensures |r| == |level| + |news| - 1
  {
    level[..c] + news + level[c + 1..]
  }

  lemma {:induction false} FlatConcat(a: Level, b: Level)
    ensures Flat(a + b) == Flat(a) + Flat(b)
    decreases |a|
  {
    if a == [] {
      assert a + b == b;
    } else {
      FlatConcat(a[1..], b);
      assert (a + b)[1..] == a[1..] + b;
    }
  }

  lemma FlatOne(n: Node)
    ensures Flat([n]) == n.entries
  {
    assert [n][1..] == [];
  }

  lemma FlatPut(level: Level, c: nat, news: Level)
    requires c < |level|
    ensures Flat(Put(level, c, news)) == Flat(level[..c]) + Flat(news) + Flat(level[c + 1..])
    ensures Flat(level) == Flat(level[..c]) + level[c].entries + Flat(level[c + 1..])
  {
    hide Flat;
    FlatConcat(level[..c] + news, level[c + 1..]);
    FlatConcat(level[..c], news);
    FlatConcat(level[..c] + [level[c]], level[c + 1..]);
    FlatConcat(level[..c], [level[c]]);
    FlatOne(level[c]);
    assert level == level[..c] + [level[c]] + level[c + 1..];
  }

  /** Entries `p` of node `c` sit at `Offset + p`. */
  lemma FlatAt(level: Level, c: nat, p: nat)
    requires c < |level| && p < |level[c].entries|
    ensures Offset(level, c) + p < |Flat(level)| && Flat(level)[Offset(level, c) + p] == level[c].entries[p]
  {
    hide Flat;
    FlatPut(level, c, []);
  }

  /** Whatever its nodes look like, replacing node `c`'s entries by an insertion into them inserts into the level. */
  lemma InsertInNode(level: Level, c: nat, p: nat, x: Entry, news: Level)
    requires c < |level| && p <= |level[c].entries|
    requires Flat(news) == InsertAt(level[c].entries, p, x)
    ensures Offset(level, c) + p <= |Flat(level)|
    ensures Flat(Put(level, c, news)) == InsertAt(Flat(level), Offset(level, c) + p, x)
  {
    hide Flat;
    FlatPut(level, c, news);
    var a, e, b := Flat(level[..c]), level[c].entries, Flat(level[c + 1..]);
    assert (a + e + b)[..|a| + p] == a + e[..p];
    assert (a + e + b)[|a| + p..] == e[p..] + b;
  }

  lemma UpdateInNode(level: Level, c: nat, p: nat, x: Entry)
    requires c < |level| && p < |level[c].entries|
    ensures Offset(level, c) + p < |Flat(level)|
    ensures Flat(Put(level, c, [Node(level[c].block, level[c].entries[p := x])]))
            == Flat(level)[Offset(level, c) + p := x]
  {
    hide Flat;
    var n := Node(level[c].block, level[c].entries[p := x]);
    FlatPut(level, c, [n]);
    FlatOne(n);
    UpdateMiddle(Flat(level[..c]), level[c].entries, Flat(level[c + 1..]), p, x);
  }

  lemma UpdateMiddle(a: seq<Entry>, e: seq<Entry>, b: seq<Entry>, p: nat, x: Entry)
    requires p < |e|
    ensures (a + e + b)[|a| + p := x] == a + e[p := x] + b
  {
    var l, r := (a + e + b)[|a| + p := x], a + e[p := x] + b;
    forall i | 0 <= i < |l|
      ensures l[i] == r[i]
    {
    }
  }

  /** The two halves of a split node hold what it held. */
  lemma FlatHalves(b: nat, nb: nat, es: seq<Entry>, h: nat)
    requires h <= |es|
    ensures Flat([Node(b, es[..h]), Node(nb, es[h..])]) == es
  {
    FlatConcat([Node(b, es[..h])], [Node(nb, es[h..])]);
    FlatOne(Node(b, es[..h]));
    FlatOne(Node(nb, es[h..]));
    assert [Node(b, es[..h])] + [Node(nb, es[h..])] == [Node(b, es[..h]), Node(nb, es[h..])];
  }

  lemma HeadsPut(level: Level, c: nat, news: Level)
    requires c < |level| && NonEmpty(level) && NonEmpty(news)
    ensures NonEmpty(Put(level, c, news))
    ensures Heads(Put(level, c, news)) == Heads(level)[..c] + Heads(news) + Heads(level)[c + 1..]
  {
  }

  // ---- order and search --------------------------------------------------------------------------

  lemma NodeSorted(level: Level, c: nat)
    requires SortedKeys(Flat(level)) && c < |level|
    ensures SortedKeys(level[c].entries)
  {
    hide Flat, Offset;
    var e, o := level[c].entries, Offset(level, c);
    forall i, j | 0 <= i < j < |e|
      ensures e[i].first < e[j].first
    {
      FlatAt(level, c, i);
      FlatAt(level, c, j);
      assert Flat(level)[o + i].first < Flat(level)[o + j].first;
    }
  }

  lemma {:induction false} OffsetStep(level: Level, c: nat)
    requires c < |level|
    ensures Offset(level, c + 1) == Offset(level, c) + |level[c].entries|
  {
    hide Flat;
    FlatConcat(level[..c], [level[c]]);
    FlatOne(level[c]);
    assert level[..c + 1] == level[..c] + [level[c]];
  }

  lemma {:induction false} OffsetMonotone(level: Level, c: nat, d: nat)
    requires c < d <= |level| && NonEmpty(level)
    ensures Offset(level, c) + |level[c].entries| <= Offset(level, d)
    decreases d
  {
    hide Offset;
    OffsetStep(level, d - 1);
    if c + 1 < d {
      OffsetMonotone(level, c, d - 1);
      OffsetStep(level, c);
    }
  }

  /** The first keys of a sorted level's nodes are sorted. */
  lemma HeadsSorted(level: Level)
    requires NonEmpty(level) && SortedKeys(Flat(level))
    ensures SortedKeys(Heads(level))
  {
    hide Flat, Offset;
    var h := Heads(level);
    forall i, j | 0 <= i < j < |h|
      ensures h[i].first < h[j].first
    {
      FlatAt(level, i, 0);
      FlatAt(level, j, 0);
      OffsetMonotone(level, i, j);
    }
  }

  lemma WholeFlat(level: Level)
    ensures Offset(level, |level|) == |Flat(level)|
  {
    assert level[..|level|] == level;
  }

  /** Searching the heads and then the chosen node is searching the whole level. */
  lemma FindInNode(level: Level, l: nat)
    requires level != [] && NonEmpty(level) && SortedKeys(Flat(level))
    ensures var c := FindSlot(Heads(level), l);
            && Flat(level) != []
            && FindSlot(Flat(level), l) == Offset(level, c) + FindSlot(level[c].entries, l)
  {
    hide Flat, Offset, FindSlot;
    var c := FindSlot(Heads(level), l);
    HeadsSorted(level);
    FindSlotFacts(Heads(level), l);
    var n := level[c].entries;
    NodeSorted(level, c);
    FindSlotFacts(n, l);
    var p := FindSlot(n, l);
    FlatAt(level, c, p);
    OffsetStep(level, c);
    WholeFlat(level);
    var g := Offset(level, c) + p;
    if p == 0 && c > 0 {
      assert n[0].first == Heads(level)[c].first <= l;
    }
    if g + 1 < |Flat(level)| {
      if p + 1 < |n| {
        FlatAt(level, c, p + 1);
      } else {
        NextNode(level, c);
        FlatAt(level, c + 1, 0);
        assert Heads(level)[c + 1].first > l;
      }
    }
    if c == 0 {
      FirstOffset(level);
    }
    FindSlotUnique(Flat(level), l, g);
  }

  lemma FirstOffset(level: Level)
    ensures Offset(level, 0) == 0
  {
  }

  lemma NextNode(level: Level, c: nat)
    requires c < |level| && Offset(level, c) + |level[c].entries| < |Flat(level)|
    ensures c + 1 < |level|
  {
    hide Flat, Offset;
    if c + 1 == |level| {
      OffsetStep(level, c);
      WholeFlat(level);
    }
  }
}
