/** The directory tree: entries, back-references and link counts. */
module NameTree {
  import opened Outcome

  type Ino = nat
  type Name = string

  const ROOT: Ino := 2

  /** Where an entry is: the directory that holds it, and its name there. */
  datatype Slot = Slot(dir: Ino, name: Name)

  datatype Inode = Inode(isDir: bool, links: int)

  type Inodes = map<Ino, Inode>
  type Entries = map<Slot, Ino>

  predicate IsName(n: Name) {
    n != "." && n != ".."
  }

  predicate IsDir(inodes: Inodes, i: Ino) {
    i in inodes && inodes[i].isDir
  }

  function Up(d: Ino): Slot {
    Slot(d, "..")
  }

  /** The entries naming `x`. */
  function Naming(entries: Entries, x: Ino): set<Slot> {
    set s | s in entries && IsName(s.name) && entries[s] == x
  }

  /** The entries of `d` that name directories. */
  function Subdirs(inodes: Inodes, entries: Entries, d: Ino): set<Slot> {
    set s | s in entries && IsName(s.name) && s.dir == d && IsDir(inodes, entries[s])
  }

  // ---- climbing through the back-references ---------------------------------------------------------------

  /** `n` steps up from `d`; a directory without a back-reference is the last step. */
  function Climb(entries: Entries, d: Ino, n: nat): Ino
    decreases n
  {
    if n == 0 || Up(d) !in entries then d else Climb(entries, entries[Up(d)], n - 1)
  }

  /** `a` is `d` or above it. */
  ghost predicate Above(entries: Entries, a: Ino, d: Ino) {
    exists n: nat :: Climb(entries, d, n) == a
  }

  lemma AboveSelf(entries: Entries, a: Ino)
    ensures Above(entries, a, a)
  {
    assert Climb(entries, a, 0) == a;
  }

  lemma AboveStep(entries: Entries, a: Ino, d: Ino)
    requires a != d && Up(d) in entries
    ensures Above(entries, a, d) <==> Above(entries, a, entries[Up(d)])
  {
    var p := entries[Up(d)];
    if Above(entries, a, d) {
      var n: nat :| Climb(entries, d, n) == a;
      assert Climb(entries, p, n - 1) == a;
    }
    if Above(entries, a, p) {
      var n: nat :| Climb(entries, p, n) == a;
      assert Climb(entries, d, n + 1) == a;
    }
  }

  lemma {:induction false} AboveTransitive(entries: Entries, a: Ino, b: Ino, d: Ino, n: nat)
    requires Climb(entries, d, n) == b && Above(entries, a, b)
    ensures Above(entries, a, d)
    decreases n
  {
    if a == d {
      AboveSelf(entries, a);
    } else if n > 0 && Up(d) in entries {
      AboveTransitive(entries, a, b, entries[Up(d)], n - 1);
      AboveStep(entries, a, d);
    }
  }

  /** Every back-reference leads to a lower rank, down to the root: the tree has no loop. */
  ghost predicate Ranked(inodes: Inodes, entries: Entries, rank: map<Ino, nat>) {
    ROOT in rank && forall d :: RankedAt(inodes, entries, rank, d)
  }

  predicate RankedAt(inodes: Inodes, entries: Entries, rank: map<Ino, nat>, d: Ino) {
    IsDir(inodes, d) && d != ROOT && Up(d) in entries ==> Lower(rank, entries[Up(d)], d)
  }

  predicate Lower(rank: map<Ino, nat>, p: Ino, d: Ino) {
    d in rank && p in rank && rank[p] < rank[d]
  }

  ghost predicate Acyclic(inodes: Inodes, entries: Entries) {
    exists rank: map<Ino, nat> :: Ranked(inodes, entries, rank)
  }

  // ---- the invariant -----------------------------------------------------------------------------------

  /** Both special entries are there, and lead to directories. */
  predicate HasDots(inodes: Inodes, entries: Entries, d: Ino) {
    Slot(d, ".") in entries && entries[Slot(d, ".")] == d && Up(d) in entries && IsDir(inodes, entries[Up(d)])
  }

  predicate DotsAt(inodes: Inodes, entries: Entries, d: Ino) {
    IsDir(inodes, d) ==> HasDots(inodes, entries, d)
  }

  /** The root is its own parent, and every directory has a parent. */
  ghost predicate Rooted(inodes: Inodes, entries: Entries) {
    IsDir(inodes, ROOT) && (forall d :: DotsAt(inodes, entries, d)) && Up(ROOT) in entries && entries[Up(ROOT)] == ROOT
  }

  /** An entry lies in a directory and leads somewhere; a directory it names points back. */
  predicate GoodEntry(inodes: Inodes, entries: Entries, s: Slot) {
    s in entries ==>
      && IsDir(inodes, s.dir) && entries[s] in inodes
      && (IsName(s.name) && IsDir(inodes, entries[s]) ==>
          entries[s] != ROOT && Up(entries[s]) in entries && entries[Up(entries[s])] == s.dir)
  }

  predicate GoodLinks(inodes: Inodes, entries: Entries, i: Ino) {
    i in inodes ==>
      && inodes[i].links == (if inodes[i].isDir then 2 + |Subdirs(inodes, entries, i)| else |Naming(entries, i)|)
      && (inodes[i].isDir && i != ROOT ==> |Naming(entries, i)| == 1)
  }

  ghost predicate Sound(inodes: Inodes, entries: Entries) {
    && Rooted(inodes, entries)
    && (forall s :: GoodEntry(inodes, entries, s))
    && (forall i :: GoodLinks(inodes, entries, i))
    && Acyclic(inodes, entries)
  }

  // ---- counting ------------------------------------------------------------------------------------------

  function One(b: bool): int {
    if b then 1 else 0
  }

  lemma SetDelta<T>(a: set<T>, b: set<T>, x: T)
    requires forall y :: y != x ==> (y in a <==> y in b)
    ensures |b| == |a| - One(x in a) + One(x in b)
  {
    assert a - {x} == b - {x};
    assert x in a ==> a == (a - {x}) + {x};
    assert x in b ==> b == (b - {x}) + {x};
  }

  predicate Leads(entries: Entries, s: Slot, x: Ino) {
    s in entries && entries[s] == x
  }

  /** Only `s` differs. */
  ghost predicate OneChanged(a: Entries, b: Entries, s: Slot) {
    forall t: Slot :: t != s ==> (t in a <==> t in b) && (t in a ==> a[t] == b[t])
  }

  lemma NamingDelta(a: Entries, b: Entries, s: Slot, x: Ino)
    requires OneChanged(a, b, s) && IsName(s.name)
    ensures |Naming(b, x)| == |Naming(a, x)| - One(Leads(a, s, x)) + One(Leads(b, s, x))
  {
    SetDelta(Naming(a, x), Naming(b, x), s);
  }

  predicate LeadsToDir(inodes: Inodes, entries: Entries, s: Slot) {
    s in entries && IsDir(inodes, entries[s])
  }

  lemma SubdirsDelta(inodes: Inodes, a: Entries, b: Entries, s: Slot, d: Ino)
    requires OneChanged(a, b, s) && IsName(s.name)
    ensures |Subdirs(inodes, b, d)| ==
            |Subdirs(inodes, a, d)| - One(s.dir == d && LeadsToDir(inodes, a, s))
                + One(s.dir == d && LeadsToDir(inodes, b, s))
  {
    SetDelta(Subdirs(inodes, a, d), Subdirs(inodes, b, d), s);
  }

  /** Both agree on the proper names. */
  ghost predicate SameNames(a: Entries, b: Entries) {
    forall s: Slot :: IsName(s.name) ==> (s in a <==> s in b) && (s in a ==> a[s] == b[s])
  }

  ghost predicate SameKinds(a: Inodes, b: Inodes) {
    forall i :: (i in a <==> i in b) && (i in a ==> a[i].isDir == b[i].isDir)
  }

  lemma SameCounts(inodes: Inodes, jnodes: Inodes, a: Entries, b: Entries, i: Ino)
    requires SameNames(a, b) && SameKinds(inodes, jnodes)
    ensures Naming(a, i) == Naming(b, i) && Subdirs(inodes, a, i) == Subdirs(jnodes, b, i)
  {
  }

  lemma OnlyOne<T>(s: set<T>, x: T, y: T)
    requires |s| == 1 && x in s && y in s
    ensures x == y
  {
    assert |s - {x}| == 0;
  }

  // ---- moving a subtree ------------------------------------------------------------------------------------

  /** The climb of a directory outside the subtree of `c` does not see where `c` hangs. */
  lemma {:induction false} ClimbApart(entries: Entries, c: Ino, p: Ino, d: Ino, n: nat)
    requires !Above(entries, c, d)
    ensures Climb(entries[Up(c) := p], d, n) == Climb(entries, d, n)
    decreases n
  {
    AboveSelf(entries, c);
    if n > 0 && Up(d) in entries {
      AboveStep(entries, c, d);
      ClimbApart(entries, c, p, entries[Up(d)], n - 1);
    }
  }

  lemma StillNotAbove(entries: Entries, c: Ino, p: Ino, a: Ino, d: Ino)
    requires !Above(entries, c, d) && !Above(entries, a, d)
    ensures !Above(entries[Up(c) := p], a, d)
  {
    var moved := entries[Up(c) := p];
    if Above(moved, a, d) {
      var n: nat :| Climb(moved, d, n) == a;
      ClimbApart(entries, c, p, d, n);
    }
  }

  /** There is nothing above the root. */
  lemma {:induction false} RootTop(inodes: Inodes, entries: Entries, n: nat)
    requires Rooted(inodes, entries)
    ensures Climb(entries, ROOT, n) == ROOT
    decreases n
  {
    assert DotsAt(inodes, entries, ROOT);
    if n > 0 {
      RootTop(inodes, entries, n - 1);
    }
  }

  /** Hanging a subtree elsewhere, outside itself, makes no loop. */
  lemma MoveRanked(inodes: Inodes, entries: Entries, c: Ino, p: Ino)
    requires Acyclic(inodes, entries) && !Above(entries, c, p) && c != ROOT && IsDir(inodes, p)
    requires Rooted(inodes, entries)
    ensures Acyclic(inodes, entries[Up(c) := p])
  {
    var rank: map<Ino, nat> :| Ranked(inodes, entries, rank);
    var dirs := set d | d in inodes && inodes[d].isDir;
    var base: map<Ino, nat> := map d | d in dirs :: if d in rank then rank[d] else 0;
    var after: map<Ino, nat> := map d | d in dirs :: if Above(entries, c, d) then base[d] + base[p] + 1 else base[d];
    var moved := entries[Up(c) := p];
    AboveSelf(entries, c);
    assert DotsAt(inodes, entries, ROOT);
    if Above(entries, c, ROOT) {
      var n: nat :| Climb(entries, ROOT, n) == c;
      RootTop(inodes, entries, n);
    }
    forall d
      ensures RankedAt(inodes, moved, after, d)
    {
      assert DotsAt(inodes, entries, d) && RankedAt(inodes, entries, rank, d);
      if IsDir(inodes, d) && d != c && d != ROOT {
        AboveStep(entries, c, d);
      }
    }
    assert Ranked(inodes, moved, after);
  }

  /** Without some back-references a climb sees no more than before. */
  lemma {:induction false} ClimbFewer(a: Entries, b: Entries, d: Ino, n: nat) returns (m: nat)
    requires forall s :: s in b && s.name == ".." ==> s in a && a[s] == b[s]
    ensures Climb(a, d, m) == Climb(b, d, n)
    decreases n
  {
    m := 0;
    if n > 0 && Up(d) in b {
      m := ClimbFewer(a, b, b[Up(d)], n - 1);
      m := m + 1;
    }
  }

  lemma FewerAbove(a: Entries, b: Entries, x: Ino, d: Ino)
    requires forall s :: s in b && s.name == ".." ==> s in a && a[s] == b[s]
    ensures Above(b, x, d) ==> Above(a, x, d)
  {
    if Above(b, x, d) {
      var n: nat :| Climb(b, d, n) == x;
      var m := ClimbFewer(a, b, d, n);
    }
  }

  /** Ranks do not grow on the way up. */
  lemma {:induction false} RankAlong(inodes: Inodes, entries: Entries, rank: map<Ino, nat>, d: Ino, n: nat)
    requires Ranked(inodes, entries, rank) && IsDir(inodes, d) && d in rank && Rooted(inodes, entries)
    ensures Climb(entries, d, n) in rank && rank[Climb(entries, d, n)] <= rank[d]
    decreases n
  {
    if n > 0 {
      assert DotsAt(inodes, entries, d) && RankedAt(inodes, entries, rank, d);
      RankAlong(inodes, entries, rank, entries[Up(d)], n - 1);
    }
  }

  /** A directory is not above its own parent. */
  lemma NotAboveParent(inodes: Inodes, entries: Entries, d: Ino)
    requires Sound(inodes, entries) && IsDir(inodes, d) && d != ROOT
    ensures Up(d) in entries && !Above(entries, d, entries[Up(d)])
  {
    hide GoodLinks, GoodEntry;
    var rank: map<Ino, nat> :| Ranked(inodes, entries, rank);
    assert DotsAt(inodes, entries, d) && RankedAt(inodes, entries, rank, d);
    var p := entries[Up(d)];
    forall n: nat
      ensures Climb(entries, p, n) != d
    {
      RankAlong(inodes, entries, rank, p, n);
    }
  }

  // ---- every directory has a path ---------------------------------------------------------------------------

  /** Following names from `d`. */
  function Resolve(entries: Entries, d: Ino, path: seq<Name>): Option<Ino>
    decreases |path|
  {
    if path == [] then Some(d)
    else if Slot(d, path[0]) in entries then Resolve(entries, entries[Slot(d, path[0])], path[1..])
    else None
  }

  lemma {:induction false} ResolveMore(entries: Entries, d: Ino, path: seq<Name>, n: Name)
    requires Resolve(entries, d, path).Some? && Slot(Resolve(entries, d, path).value, n) in entries
    ensures Resolve(entries, d, path + [n]) == Some(entries[Slot(Resolve(entries, d, path).value, n)])
    decreases |path|
  {
    if path == [] {
      assert ([n])[1..] == [];
    } else {
      assert (path + [n])[1..] == path[1..] + [n];
      ResolveMore(entries, entries[Slot(d, path[0])], path[1..], n);
    }
  }

  /** Every directory is reached from the root by proper names: nothing is ever detached. */
  lemma PathFromRoot(inodes: Inodes, entries: Entries, d: Ino) returns (path: seq<Name>)
    requires Sound(inodes, entries) && IsDir(inodes, d)
    ensures Resolve(entries, ROOT, path) == Some(d) && forall i :: 0 <= i < |path| ==> IsName(path[i])
  {
    var rank: map<Ino, nat> :| Ranked(inodes, entries, rank);
    path := RankedPath(inodes, entries, rank, d);
  }

  lemma {:induction false} RankedPath(inodes: Inodes, entries: Entries, rank: map<Ino, nat>,
      d: Ino) returns (path: seq<Name>)
    requires Sound(inodes, entries) && IsDir(inodes, d) && Ranked(inodes, entries, rank)
    ensures Resolve(entries, ROOT, path) == Some(d) && forall i :: 0 <= i < |path| ==> IsName(path[i])
    decreases if d in rank then rank[d] else 0
  {
    hide Subdirs;
    path := [];
    if d != ROOT {
      var s := TheName(inodes, entries, d);
      assert DotsAt(inodes, entries, d) && RankedAt(inodes, entries, rank, d);
      path := RankedPath(inodes, entries, rank, s.dir);
      ResolveMore(entries, ROOT, path, s.name);
      path := path + [s.name];
    }
  }

  lemma TheName(inodes: Inodes, entries: Entries, d: Ino) returns (s: Slot)
    requires Sound(inodes, entries) && IsDir(inodes, d) && d != ROOT
    ensures s in entries && IsName(s.name) && entries[s] == d && Naming(entries, d) == {s}
    ensures Up(d) in entries && entries[Up(d)] == s.dir && IsDir(inodes, s.dir)
  {
    hide Subdirs;
    assert GoodLinks(inodes, entries, d);
    assert Naming(entries, d) != {};
    s :| s in Naming(entries, d);
    forall t | t in Naming(entries, d)
      ensures t == s
    {
      OnlyOne(Naming(entries, d), s, t);
    }
    assert GoodEntry(inodes, entries, s);
  }

  // ---- what each change does to the invariant -------------------------------------------------------------

  function WithLinks(inodes: Inodes, i: Ino, delta: int): (r: Inodes)
    requires i in inodes
    ensures SameKinds(inodes, r)
    ensures r[i].links == inodes[i].links + delta && forall j :: j in inodes && j != i ==> r[j] == inodes[j]
  {
    inodes[i := inodes[i].(links := inodes[i].links + delta)]
  }

  function Moved(entries: Entries, from: Slot, to: Slot, src: Ino): Entries {
    entries[to := src] - {from}
  }

  /** Counts after an entry moved from `from` to `to`. */
  lemma MovedCounts(inodes: Inodes, entries: Entries, from: Slot, to: Slot, src: Ino, i: Ino)
    requires from in entries && entries[from] == src && to !in entries && IsName(from.name) && IsName(to.name)
    ensures |Naming(Moved(entries, from, to, src), i)| == |Naming(entries, i)|
    ensures |Subdirs(inodes, Moved(entries, from, to, src), i)| ==
            |Subdirs(inodes, entries, i)| + One(IsDir(inodes, src) && to.dir == i) - One(IsDir(inodes, src)
                && from.dir == i)
  {
    hide Naming, Subdirs;
    var mid := entries[to := src];
    NamingDelta(entries, mid, to, i);
    NamingDelta(mid, mid - {from}, from, i);
    SubdirsDelta(inodes, entries, mid, to, i);
    SubdirsDelta(inodes, mid, mid - {from}, from, i);
  }

  predicate SameUp(inodes: Inodes, entries: Entries, jnodes: Inodes, after: Entries, d: Ino) {
    IsDir(jnodes, d) && d != ROOT && Up(d) in after ==>
        IsDir(inodes, d) && Up(d) in entries && entries[Up(d)] == after[Up(d)]
  }

  /** Loops depend on the back-references alone. */
  lemma AcyclicSame(inodes: Inodes, entries: Entries, jnodes: Inodes, after: Entries)
    requires Acyclic(inodes, entries)
    requires forall d :: SameUp(inodes, entries, jnodes, after, d)
    ensures Acyclic(jnodes, after)
  {
    var rank: map<Ino, nat> :| Ranked(inodes, entries, rank);
    forall d
      ensures RankedAt(jnodes, after, rank, d)
    {
      assert SameUp(inodes, entries, jnodes, after, d) && RankedAt(inodes, entries, rank, d);
    }
    assert Ranked(jnodes, after, rank);
  }

  /** What holds around one inode. */
  lemma SoundAt(inodes: Inodes, entries: Entries, i: Ino)
    requires Sound(inodes, entries)
    ensures GoodLinks(inodes, entries, i) && DotsAt(inodes, entries, i)
  {
    hide Acyclic, GoodLinks, GoodEntry;
  }

  /** What holds around one entry; the one name of a directory is in its parent. */
  lemma SoundEntry(inodes: Inodes, entries: Entries, s: Slot)
    requires Sound(inodes, entries)
    ensures GoodEntry(inodes, entries, s)
    ensures s in entries && IsName(s.name) && IsDir(inodes, entries[s]) ==>
            Naming(entries, entries[s]) == {s} && entries[s] != s.dir
  {
    hide Subdirs, GoodLinks, Acyclic, Rooted;
    assert GoodEntry(inodes, entries, s);
    if s in entries && IsName(s.name) && IsDir(inodes, entries[s]) {
      var t := TheName(inodes, entries, entries[s]);
      assert s in Naming(entries, entries[s]);
      NotAboveParent(inodes, entries, entries[s]);
      AboveSelf(entries, entries[s]);
    }
  }

  lemma SoundTop(inodes: Inodes, entries: Entries)
    requires Sound(inodes, entries)
    ensures IsDir(inodes, ROOT) && Up(ROOT) in entries && entries[Up(ROOT)] == ROOT && Acyclic(inodes, entries)
    ensures Rooted(inodes, entries)
  {
    hide Acyclic, GoodLinks, GoodEntry;
    assert DotsAt(inodes, entries, ROOT);
  }

  /** Nothing leads to an unused inode number. */
  lemma Unused(inodes: Inodes, entries: Entries, c: Ino, s: Slot)
    requires Sound(inodes, entries) && c !in inodes
    ensures s in entries ==> s.dir != c && entries[s] != c
  {
    hide Acyclic, GoodLinks, Rooted;
    assert GoodEntry(inodes, entries, s);
  }

  lemma MakeSound(inodes: Inodes, entries: Entries)
    requires IsDir(inodes, ROOT) && Up(ROOT) in entries && entries[Up(ROOT)] == ROOT && Acyclic(inodes, entries)
    requires forall i :: GoodAt(inodes, entries, i)
    requires forall s :: GoodEntry(inodes, entries, s)
    ensures Sound(inodes, entries)
  {
    hide Acyclic, GoodLinks, GoodEntry, HasDots;
    forall i
      ensures GoodLinks(inodes, entries, i) && DotsAt(inodes, entries, i)
    {
      assert GoodAt(inodes, entries, i);
    }
  }

  predicate GoodAt(inodes: Inodes, entries: Entries, i: Ino) {
    GoodLinks(inodes, entries, i) && DotsAt(inodes, entries, i)
  }

  // ---- a new file, a new directory, a hard link -------------------------------------------------------------

  predicate CanName(inodes: Inodes, entries: Entries, s: Slot) {
    IsDir(inodes, s.dir) && IsName(s.name) && s !in entries
  }

  lemma FileSound(inodes: Inodes, entries: Entries, s: Slot, c: Ino)
    requires Sound(inodes, entries) && CanName(inodes, entries, s) && c !in inodes
    ensures Sound(inodes[c := Inode(false, 1)], entries[s := c])
  {
    hide Sound, Acyclic, Naming, Subdirs;
    var jnodes, after := inodes[c := Inode(false, 1)], entries[s := c];
    SoundTop(inodes, entries);
    AcyclicSame(inodes, entries, jnodes, after) by {
      forall d ensures SameUp(inodes, entries, jnodes, after, d) {}
    }
    forall i
      ensures GoodAt(jnodes, after, i)
    {
      SoundAt(inodes, entries, i);
      NamingDelta(entries, after, s, i);
      NewInodeCounts(inodes, jnodes, entries, c, i);
      SubdirsDelta(jnodes, entries, after, s, i);
    }
    forall t
      ensures GoodEntry(jnodes, after, t)
    {
      SoundEntry(inodes, entries, t);
      Unused(inodes, entries, c, t);
    }
    MakeSound(jnodes, after);
  }

  lemma LinkSound(inodes: Inodes, entries: Entries, s: Slot, c: Ino)
    requires Sound(inodes, entries) && CanName(inodes, entries, s) && c in inodes && !IsDir(inodes, c)
    ensures Sound(WithLinks(inodes, c, 1), entries[s := c])
  {
    hide Sound, Acyclic, Naming, Subdirs;
    var jnodes, after := WithLinks(inodes, c, 1), entries[s := c];
    SoundTop(inodes, entries);
    AcyclicSame(inodes, entries, jnodes, after) by {
      forall d ensures SameUp(inodes, entries, jnodes, after, d) {}
    }
    forall i
      ensures GoodAt(jnodes, after, i)
    {
      SoundAt(inodes, entries, i);
      NamingDelta(entries, after, s, i);
      SameCounts(inodes, jnodes, entries, entries, i);
      SubdirsDelta(jnodes, entries, after, s, i);
    }
    forall t
      ensures GoodEntry(jnodes, after, t)
    {
      SoundEntry(inodes, entries, t);
    }
    MakeSound(jnodes, after);
  }

  /** A new directory with its two special entries. */
  function WithDir(entries: Entries, s: Slot, c: Ino): Entries {
    entries[s := c][Slot(c, ".") := c][Up(c) := s.dir]
  }

  lemma DirSound(inodes: Inodes, entries: Entries, s: Slot, c: Ino)
    requires Sound(inodes, entries) && CanName(inodes, entries, s) && c !in inodes
    ensures Sound(WithLinks(inodes[c := Inode(true, 2)], s.dir, 1), WithDir(entries, s, c))
  {
    hide Sound, Acyclic, Naming, Subdirs;
    var jnodes, after := WithLinks(inodes[c := Inode(true, 2)], s.dir, 1), WithDir(entries, s, c);
    SoundTop(inodes, entries);
    NewDirAcyclic(inodes, entries, jnodes, s, c);
    forall i
      ensures GoodAt(jnodes, after, i)
    {
      SoundAt(inodes, entries, i);
      NamingDelta(entries, entries[s := c], s, i);
      NewInodeCounts(inodes, jnodes, entries, c, i);
      SubdirsDelta(jnodes, entries, entries[s := c], s, i);
      SameCounts(jnodes, jnodes, entries[s := c], after, i);
    }
    forall t
      ensures GoodEntry(jnodes, after, t)
    {
      SoundEntry(inodes, entries, t);
      Unused(inodes, entries, c, t);
    }
    MakeSound(jnodes, after);
  }

  lemma NewInodeCounts(inodes: Inodes, jnodes: Inodes, entries: Entries, c: Ino, i: Ino)
    requires Sound(inodes, entries) && c !in inodes && forall j :: j != c ==> (IsDir(inodes, j) <==> IsDir(jnodes, j))
    ensures |Naming(entries, c)| == 0 && |Subdirs(inodes, entries, c)| == 0
    ensures Subdirs(inodes, entries, i) == Subdirs(jnodes, entries, i)
  {
    hide Sound;
    forall s: Slot
      ensures s in entries ==> s.dir != c && entries[s] != c
    {
      Unused(inodes, entries, c, s);
    }
    assert Naming(entries, c) == {} && Subdirs(inodes, entries, c) == {};
  }

  lemma NewDirAcyclic(inodes: Inodes, entries: Entries, jnodes: Inodes, s: Slot, c: Ino)
    requires Sound(inodes, entries) && IsDir(inodes, s.dir) && c !in inodes && IsName(s.name)
    requires forall j :: j != c ==> (IsDir(inodes, j) <==> IsDir(jnodes, j))
    ensures Acyclic(jnodes, WithDir(entries, s, c))
  {
    hide GoodLinks, GoodEntry;
    var rank: map<Ino, nat> :| Ranked(inodes, entries, rank);
    assert DotsAt(inodes, entries, s.dir) && RankedAt(inodes, entries, rank, s.dir);
    var after, higher := WithDir(entries, s, c), rank[c := rank[s.dir] + 1];
    forall d
      ensures RankedAt(jnodes, after, higher, d)
    {
      assert DotsAt(inodes, entries, d) && RankedAt(inodes, entries, rank, d);
      if IsDir(inodes, d) {
        assert DotsAt(inodes, entries, entries[Up(d)]);
      }
    }
    assert Ranked(jnodes, after, higher);
  }

  // ---- removing a name ------------------------------------------------------------------------------------

  /** One link less; the inode goes with the last one. */
  function Dropped(inodes: Inodes, c: Ino): Inodes
    requires c in inodes
  {
    if inodes[c].links <= 1 then inodes - {c} else WithLinks(inodes, c, -1)
  }

  lemma UnlinkSound(inodes: Inodes, entries: Entries, s: Slot)
    requires Sound(inodes, entries) && s in entries && IsName(s.name) && entries[s] in inodes
    requires !IsDir(inodes, entries[s])
    ensures Sound(Dropped(inodes, entries[s]), entries - {s})
  {
    hide Sound, Acyclic, Naming, Subdirs;
    var c := entries[s];
    var jnodes, after := Dropped(inodes, c), entries - {s};
    SoundTop(inodes, entries);
    AcyclicSame(inodes, entries, jnodes, after) by {
      forall d ensures SameUp(inodes, entries, jnodes, after, d) {}
    }
    forall i
      ensures GoodAt(jnodes, after, i)
    {
      SoundAt(inodes, entries, i);
      NamingDelta(entries, after, s, i);
      SameDirsCounts(inodes, jnodes, after, i);
      SubdirsDelta(inodes, entries, after, s, i);
    }
    forall t
      ensures GoodEntry(jnodes, after, t)
    {
      SoundEntry(inodes, entries, t);
      SoundAt(inodes, entries, c);
      NamingDelta(entries, after, s, c);
      StillNamed(inodes, entries, after, t);
    }
    MakeSound(jnodes, after);
  }

  lemma SameDirsCounts(inodes: Inodes, jnodes: Inodes, entries: Entries, i: Ino)
    requires forall j :: IsDir(inodes, j) <==> IsDir(jnodes, j)
    ensures Subdirs(inodes, entries, i) == Subdirs(jnodes, entries, i)
  {
  }

  /** What an entry leads to is a directory or has a name. */
  lemma StillNamed(inodes: Inodes, entries: Entries, after: Entries, t: Slot)
    requires Sound(inodes, entries) && t in after ==> t in entries && after[t] == entries[t]
    ensures Sound(inodes, entries) && t in after ==> IsDir(inodes, after[t]) || |Naming(after, after[t])| > 0
  {
    if Sound(inodes, entries) && t in after {
      hide Sound;
      SoundEntry(inodes, entries, t);
      SoundAt(inodes, entries, t.dir);
      if IsName(t.name) {
        assert t in Naming(after, after[t]);
      }
    }
  }

  predicate IsEmpty(entries: Entries, d: Ino) {
    forall s :: s in entries && s.dir == d ==> !IsName(s.name)
  }

  /** The entries without the directory `c` that `s` names. */
  function WithoutDir(entries: Entries, s: Slot, c: Ino): Entries {
    entries - {s, Slot(c, "."), Up(c)}
  }

  predicate CanDrop(inodes: Inodes, entries: Entries, s: Slot) {
    s in entries && IsName(s.name) && IsDir(inodes, entries[s]) && IsEmpty(entries, entries[s])
  }

  lemma RmdirSound(inodes: Inodes, entries: Entries, s: Slot)
    requires Sound(inodes, entries) && CanDrop(inodes, entries, s)
    ensures s.dir in inodes && s.dir != entries[s]
    ensures Sound(WithLinks(inodes, s.dir, -1) - {entries[s]}, WithoutDir(entries, s, entries[s]))
  {
    hide Sound, Acyclic, Naming, Subdirs, IsEmpty;
    var c := entries[s];
    SoundTop(inodes, entries);
    SoundEntry(inodes, entries, s);
    var jnodes, after := WithLinks(inodes, s.dir, -1) - {c}, WithoutDir(entries, s, c);
    AcyclicSame(inodes, entries, jnodes, after) by {
      forall d ensures SameUp(inodes, entries, jnodes, after, d) {}
    }
    forall i
      ensures GoodAt(jnodes, after, i)
    {
      SoundAt(inodes, entries, i);
      NamingDelta(entries, entries - {s}, s, i);
      SubdirsDelta(inodes, entries, entries - {s}, s, i);
      SameCounts(inodes, inodes, entries - {s}, after, i);
      GoneCounts(inodes, entries, jnodes, s, i);
      EmptyIsolated(inodes, entries, s, Up(i));
    }
    forall t
      ensures GoodEntry(jnodes, after, t)
    {
      SoundEntry(inodes, entries, t);
      EmptyIsolated(inodes, entries, s, t);
    }
    MakeSound(jnodes, after);
  }

  lemma GoneCounts(inodes: Inodes, entries: Entries, jnodes: Inodes, s: Slot, i: Ino)
    requires Sound(inodes, entries) && CanDrop(inodes, entries, s)
    requires forall j :: j != entries[s] ==> (IsDir(inodes, j) <==> IsDir(jnodes, j))
    ensures Subdirs(inodes, WithoutDir(entries, s, entries[s]), i)
            == Subdirs(jnodes, WithoutDir(entries, s, entries[s]), i)
  {
    hide Sound, IsEmpty;
    var after := WithoutDir(entries, s, entries[s]);
    forall t | t in after
      ensures after[t] != entries[s]
    {
      EmptyIsolated(inodes, entries, s, t);
    }
  }

  /** Nothing but its own special entries and its one name is about an empty directory. */
  lemma EmptyIsolated(inodes: Inodes, entries: Entries, s: Slot, t: Slot)
    requires Sound(inodes, entries) && CanDrop(inodes, entries, s)
    ensures t in WithoutDir(entries, s, entries[s]) ==> entries[t] != entries[s] && t.dir != entries[s]
  {
    hide Sound, Subdirs;
    var c := entries[s];
    SoundTop(inodes, entries);
    SoundEntry(inodes, entries, s);
    if t in WithoutDir(entries, s, c) {
      SoundEntry(inodes, entries, t);
      SoundAt(inodes, entries, t.dir);
      OnlyDots(inodes, entries, t);
      NamesOnce(entries, s, t);
      NamedChild(inodes, entries, t.dir);
    }
  }

  lemma OnlyDots(inodes: Inodes, entries: Entries, t: Slot)
    ensures !IsName(t.name) ==> t == Slot(t.dir, ".") || t == Up(t.dir)
  {
  }

  /** A directory's parent has an entry for it. */
  lemma NamedChild(inodes: Inodes, entries: Entries, d: Ino)
    requires Sound(inodes, entries) && IsDir(inodes, d) && Up(d) in entries
    ensures d != ROOT ==> !IsEmpty(entries, entries[Up(d)])
  {
    hide Sound;
    if d != ROOT {
      var s := TheName(inodes, entries, d);
    }
  }

  // ---- moving a name -----------------------------------------------------------------------------------------

  /** The entries after the rename proper. */
  function Renamed(entries: Entries, from: Slot, to: Slot, src: Ino, dir: bool): Entries {
    if dir && from.dir != to.dir then Moved(entries, from, to, src)[Up(src) := to.dir]
        else Moved(entries, from, to, src)
  }

  function CreditMoved(inodes: Inodes, from: Slot, to: Slot, dir: bool): (r: Inodes)
    requires from.dir in inodes && to.dir in inodes
    ensures SameKinds(inodes, r)
  {
    if dir && from.dir != to.dir then WithLinks(WithLinks(inodes, from.dir, -1), to.dir, 1) else inodes
  }

  lemma RenameSound(inodes: Inodes, entries: Entries, from: Slot, to: Slot)
    requires Sound(inodes, entries) && from in entries && IsName(from.name) && CanName(inodes, entries, to)
    requires IsDir(inodes, entries[from]) ==> !Above(entries, entries[from], to.dir)
    ensures from.dir in inodes && to.dir in inodes
    ensures var src := entries[from];
            Sound(CreditMoved(inodes, from, to, IsDir(inodes, src)),
                Renamed(entries, from, to, src, IsDir(inodes, src)))
  {
    hide Sound, Naming, Subdirs, Acyclic, Above, Rooted;
    var src := entries[from];
    var dir := IsDir(inodes, src);
    SoundTop(inodes, entries);
    SoundEntry(inodes, entries, from);
    var jnodes, after := CreditMoved(inodes, from, to, dir), Renamed(entries, from, to, src, dir);
    MovedAcyclic(inodes, entries, from, to);
    forall i
      ensures GoodAt(jnodes, after, i)
    {
      SoundAt(inodes, entries, i);
      MovedCounts(inodes, entries, from, to, src, i);
      SameCounts(inodes, jnodes, Moved(entries, from, to, src), after, i);
    }
    forall t
      ensures GoodEntry(jnodes, after, t)
    {
      SoundEntry(inodes, entries, t);
      if dir { NamesOnce(entries, from, t); }
    }
    MakeSound(jnodes, after);
  }

  lemma MovedAcyclic(inodes: Inodes, entries: Entries, from: Slot, to: Slot)
    requires Sound(inodes, entries) && from in entries && IsName(from.name) && CanName(inodes, entries, to)
    requires IsDir(inodes, entries[from]) ==> !Above(entries, entries[from], to.dir)
    ensures from.dir in inodes && to.dir in inodes
    ensures var src := entries[from];
            Acyclic(CreditMoved(inodes, from, to, IsDir(inodes, src)),
                Renamed(entries, from, to, src, IsDir(inodes, src)))
  {
    hide Sound, Naming, Subdirs, Acyclic, Above, Rooted;
    var src := entries[from];
    var dir := IsDir(inodes, src);
    SoundTop(inodes, entries);
    SoundEntry(inodes, entries, from);
    var jnodes, after := CreditMoved(inodes, from, to, dir), Renamed(entries, from, to, src, dir);
    var hung := if dir && from.dir != to.dir then entries[Up(src) := to.dir] else entries;
    if dir && from.dir != to.dir {
      MoveRanked(inodes, entries, src, to.dir);
    }
    AcyclicSame(inodes, hung, jnodes, after) by {
      forall d ensures SameUp(inodes, hung, jnodes, after, d) {}
    }
  }

  lemma NamesOnce(entries: Entries, s: Slot, t: Slot)
    requires s in entries && Naming(entries, entries[s]) == {s}
    ensures t in entries && IsName(t.name) && entries[t] == entries[s] ==> t == s
  {
    if t in entries && IsName(t.name) && entries[t] == entries[s] {
      assert t in Naming(entries, entries[s]);
    }
  }

  // ---- exchanging two names --------------------------------------------------------------------------------

  function Swapped(entries: Entries, from: Slot, to: Slot): Entries
    requires from in entries && to in entries
  {
    entries[from := entries[to]][to := entries[from]]
  }

  /** Back-references of what changed parents. */
  function Rehung(entries: Entries, from: Slot, to: Slot, src: Ino, dst: Ino, srcDir: bool, dstDir: bool): Entries {
    if from.dir == to.dir then entries
    else
      var a := if srcDir then entries[Up(src) := to.dir] else entries;
      if dstDir then a[Up(dst) := from.dir] else a
  }

  function CreditSwapped(inodes: Inodes, from: Slot, to: Slot, srcDir: bool, dstDir: bool): (r: Inodes)
    requires from.dir in inodes && to.dir in inodes
    ensures SameKinds(inodes, r)
  {
    if from.dir == to.dir then inodes
    else WithLinks(WithLinks(inodes, from.dir, One(dstDir) - One(srcDir)), to.dir, One(srcDir) - One(dstDir))
  }

  lemma SwappedCounts(inodes: Inodes, entries: Entries, from: Slot, to: Slot, i: Ino)
    requires from in entries && to in entries && from != to && IsName(from.name) && IsName(to.name)
    ensures |Naming(Swapped(entries, from, to), i)| == |Naming(entries, i)|
    ensures var srcDir, dstDir := IsDir(inodes, entries[from]), IsDir(inodes, entries[to]);
            |Subdirs(inodes, Swapped(entries, from, to), i)| == |Subdirs(inodes, entries, i)|
              + (if from.dir == i then One(dstDir) - One(srcDir) else 0)
                  + (if to.dir == i then One(srcDir) - One(dstDir) else 0)
  {
    hide Naming, Subdirs;
    var mid := entries[from := entries[to]];
    NamingDelta(entries, mid, from, i);
    NamingDelta(mid, mid[to := entries[from]], to, i);
    SubdirsDelta(inodes, entries, mid, from, i);
    SubdirsDelta(inodes, mid, mid[to := entries[from]], to, i);
  }

  predicate CanSwap(inodes: Inodes, entries: Entries, from: Slot, to: Slot) {
    && from in entries && to in entries && entries[from] != entries[to] && IsName(from.name) && IsName(to.name)
  }

  /** Two subtrees trade places: neither is moved into itself, nor into the other. */
  lemma RehungAcyclic(inodes: Inodes, entries: Entries, from: Slot, to: Slot)
    requires Sound(inodes, entries) && CanSwap(inodes, entries, from, to) && from.dir != to.dir
    requires IsDir(inodes, entries[from]) ==> !Above(entries, entries[from], to.dir)
    requires IsDir(inodes, entries[to]) ==> !Above(entries, entries[to], from.dir)
    ensures Acyclic(inodes, Rehung(entries, from, to, entries[from], entries[to], IsDir(inodes, entries[from]),
            IsDir(inodes, entries[to])))
  {
    hide Sound, Naming, Subdirs, Acyclic, Above, GoodLinks;
    var src, dst := entries[from], entries[to];
    SoundTop(inodes, entries);
    SoundEntry(inodes, entries, from);
    SoundEntry(inodes, entries, to);
    var mid := if IsDir(inodes, src) then entries[Up(src) := to.dir] else entries;
    if IsDir(inodes, src) {
      MoveRanked(inodes, entries, src, to.dir);
      NotAboveParent(inodes, entries, src);
      if IsDir(inodes, dst) {
        StillNotAbove(entries, src, to.dir, dst, from.dir);
      }
    }
    if IsDir(inodes, dst) {
      forall d
        ensures DotsAt(inodes, mid, d)
      {
        assert DotsAt(inodes, entries, d);
      }
      MoveRanked(inodes, mid, dst, from.dir);
    }
  }

  lemma ExchangeSound(inodes: Inodes, entries: Entries, from: Slot, to: Slot)
    requires Sound(inodes, entries) && CanSwap(inodes, entries, from, to)
    requires IsDir(inodes, entries[from]) ==> !Above(entries, entries[from], to.dir)
    requires IsDir(inodes, entries[to]) ==> !Above(entries, entries[to], from.dir)
    ensures from.dir in inodes && to.dir in inodes
    ensures var srcDir, dstDir := IsDir(inodes, entries[from]), IsDir(inodes, entries[to]);
            Sound(CreditSwapped(inodes, from, to, srcDir, dstDir),
                  Rehung(Swapped(entries, from, to), from, to, entries[from], entries[to], srcDir, dstDir))
  {
    hide Sound, Naming, Subdirs, Acyclic, Above, Rooted, GoodLinks;
    var src, dst := entries[from], entries[to];
    var srcDir, dstDir := IsDir(inodes, src), IsDir(inodes, dst);
    SoundTop(inodes, entries);
    SoundEntry(inodes, entries, from);
    SoundEntry(inodes, entries, to);
    var jnodes := CreditSwapped(inodes, from, to, srcDir, dstDir);
    var after := Rehung(Swapped(entries, from, to), from, to, src, dst, srcDir, dstDir);
    var hung := Rehung(entries, from, to, src, dst, srcDir, dstDir);
    if from.dir != to.dir {
      RehungAcyclic(inodes, entries, from, to);
    }
    AcyclicSame(inodes, hung, jnodes, after) by {
      forall d ensures SameUp(inodes, hung, jnodes, after, d) {}
    }
    forall i
      ensures GoodAt(jnodes, after, i)
    {
      SwappedLinks(inodes, entries, from, to, i);
      SwappedDots(inodes, entries, from, to, i);
    }
    forall t
      ensures GoodEntry(jnodes, after, t)
    {
      SwappedEntry(inodes, entries, from, to, t);
    }
    MakeSound(jnodes, after);
  }

  lemma SwappedEntry(inodes: Inodes, entries: Entries, from: Slot, to: Slot, t: Slot)
    requires Sound(inodes, entries) && CanSwap(inodes, entries, from, to) && from.dir in inodes && to.dir in inodes
    ensures var srcDir, dstDir := IsDir(inodes, entries[from]), IsDir(inodes, entries[to]);
            GoodEntry(CreditSwapped(inodes, from, to, srcDir, dstDir),
                      Rehung(Swapped(entries, from, to), from, to, entries[from], entries[to], srcDir, dstDir), t)
  {
    hide Sound, Naming, Subdirs, GoodLinks;
    SoundEntry(inodes, entries, from);
    SoundEntry(inodes, entries, to);
    SoundEntry(inodes, entries, t);
    if IsDir(inodes, entries[from]) { NamesOnce(entries, from, t); }
    if IsDir(inodes, entries[to]) { NamesOnce(entries, to, t); }
  }

  lemma SwappedDots(inodes: Inodes, entries: Entries, from: Slot, to: Slot, i: Ino)
    requires Sound(inodes, entries) && CanSwap(inodes, entries, from, to) && from.dir in inodes && to.dir in inodes
    requires IsDir(inodes, from.dir) && IsDir(inodes, to.dir)
    ensures var srcDir, dstDir := IsDir(inodes, entries[from]), IsDir(inodes, entries[to]);
            DotsAt(CreditSwapped(inodes, from, to, srcDir, dstDir),
                   Rehung(Swapped(entries, from, to), from, to, entries[from], entries[to], srcDir, dstDir), i)
  {
    hide Sound, Naming, Subdirs, GoodLinks;
    SoundAt(inodes, entries, i);
  }

  lemma SwappedLinks(inodes: Inodes, entries: Entries, from: Slot, to: Slot, i: Ino)
    requires Sound(inodes, entries) && CanSwap(inodes, entries, from, to) && from.dir in inodes && to.dir in inodes
    requires IsDir(inodes, from.dir) && IsDir(inodes, to.dir)
    ensures var srcDir, dstDir := IsDir(inodes, entries[from]), IsDir(inodes, entries[to]);
            GoodLinks(CreditSwapped(inodes, from, to, srcDir, dstDir),
                      Rehung(Swapped(entries, from, to), from, to, entries[from], entries[to], srcDir, dstDir), i)
  {
    hide Sound, Naming, Subdirs, DotsAt, Rehung;
    var src, dst := entries[from], entries[to];
    var srcDir, dstDir := IsDir(inodes, src), IsDir(inodes, dst);
    SoundAt(inodes, entries, i);
    SwappedCounts(inodes, entries, from, to, i);
    RehungNames(Swapped(entries, from, to), from, to, src, dst, srcDir, dstDir);
    SameCounts(inodes, CreditSwapped(inodes, from, to, srcDir, dstDir), Swapped(entries, from, to),
               Rehung(Swapped(entries, from, to), from, to, src, dst, srcDir, dstDir), i);
  }

  lemma RehungNames(entries: Entries, from: Slot, to: Slot, src: Ino, dst: Ino, srcDir: bool, dstDir: bool)
    ensures SameNames(entries, Rehung(entries, from, to, src, dst, srcDir, dstDir))
  {
  }
}
