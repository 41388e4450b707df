/** Creating, linking, removing, renaming and exchanging names. */
module Namespace {
  import opened Outcome
  import opened NameTree

  /** What a rename must answer, and why it may refuse; `None` is success. */
  ghost function RenameRefusal(inodes: Inodes, entries: Entries, from: Slot, to: Slot, noreplace: bool): Option<Errno> {
    if from !in entries then Some(ENOENT)
    else if IsDir(inodes, entries[from]) && Above(entries, entries[from], to.dir) then Some(EINVAL)
    else if to !in entries then None
    else if noreplace then Some(EEXIST)
    else if entries[to] == entries[from] then None
    else if IsDir(inodes, entries[to]) && !IsDir(inodes, entries[from]) then Some(EISDIR)
    else if !IsDir(inodes, entries[to]) && IsDir(inodes, entries[from]) then Some(ENOTDIR)
    else if IsDir(inodes, entries[to]) && !IsEmpty(entries, entries[to]) then Some(ENOTEMPTY)
    else None
  }

  ghost function ExchangeRefusal(inodes: Inodes, entries: Entries, from: Slot, to: Slot): Option<Errno> {
    if from !in entries then Some(ENOENT)
    else if IsDir(inodes, entries[from]) && Above(entries, entries[from], to.dir) then Some(EINVAL)
    else if to !in entries then Some(ENOENT)
    else if entries[to] != entries[from] && IsDir(inodes, entries[to])
        && Above(entries, entries[to], from.dir) then Some(EINVAL)
    else None
  }

  /** The proper name `from` became `to`, replacing what was there; no other proper name changed. */
  ghost predicate NameMoved(a: Entries, b: Entries, from: Slot, to: Slot)
    requires from in a
  {
    forall s: Slot :: IsName(s.name) ==>
      && (s in b <==> s == to || (s in a && s != from))
      && (s in b ==> b[s] == if s == to then a[from] else a[s])
  }

  /** Two proper names traded targets; no other proper name changed. */
  ghost predicate NamesSwapped(a: Entries, b: Entries, from: Slot, to: Slot)
    requires from in a && to in a
  {
    forall s: Slot :: IsName(s.name) ==>
      && (s in b <==> s in a)
      && (s in b ==> b[s] == if s == from then a[to] else if s == to then a[from] else a[s])
  }

  /** The inode `slot` names goes if that is a directory or the name is its last; else it has one link less. */
  predicate Freed(inodes: Inodes, entries: Entries, slot: Slot, j: Ino) {
    Leads(entries, slot, j) && j in inodes && (inodes[j].isDir || inodes[j].links == 1)
  }

  /** The inodes after the name `slot` was taken away, and a directory's credit with it, and `credit` was given. */
  ghost predicate InodesAfter(a: Inodes, b: Inodes, entries: Entries, slot: Slot, credit: Ino -> int) {
    forall j: Ino :: InodeAfter(a, b, entries, slot, credit, j)
  }

  predicate InodeAfter(a: Inodes, b: Inodes, entries: Entries, slot: Slot, credit: Ino -> int, j: Ino) {
    && (j in b <==> j in a && !Freed(a, entries, slot, j))
    && (j in b ==>
          && b[j].isDir == a[j].isDir
          && b[j].links == a[j].links - One(Leads(entries, slot, j)) - One(j == slot.dir
              && LeadsToDir(a, entries, slot))
             + credit(j))
  }

  function NoCredit(j: Ino): int {
    0
  }

  /** A directory that changes its parent moves a link from the old one to the new one. */
  function MoveCredit(from: Ino, to: Ino, dirs: int): (c: Ino -> int)
    ensures forall j :: c(j) == if from == to then 0 else dirs * (One(j == to) - One(j == from))
  {
    (j: Ino) => if from == to then 0 else dirs * (One(j == to) - One(j == from))
  }

  class Namespace {
    var inodes: Inodes
    var entries: Entries

    /** Back-references form a tree under the root, and the link counts are exact. */
    ghost predicate Valid()
      reads this
    {
      Sound(inodes, entries)
    }

    /** A file system with a root directory only. */
    constructor ()
      ensures Valid()
    {
      inodes := map[ROOT := Inode(true, 2)];
      entries := map[Slot(ROOT, ".") := ROOT, Up(ROOT) := ROOT];
      new;
      FreshSound(inodes, entries);
    }

    method Find(dir: Ino, name: Name) returns (r: Result<Ino>)
      ensures r == if Slot(dir, name) in entries then Ok(entries[Slot(dir, name)]) else Err(ENOENT)
    {
      if Slot(dir, name) in entries {
        return Ok(entries[Slot(dir, name)]);
      }
      return Err(ENOENT);
    }

    method SetTarget(dir: Ino, name: Name, target: Ino) returns (r: Result<()>)
      modifies this`entries
      ensures r.Ok? <==> Slot(dir, name) in old(entries)
      ensures entries == if r.Ok? then old(entries)[Slot(dir, name) := target] else old(entries)
    {
      if Slot(dir, name) !in entries {
        return Err(ENOENT);
      }
      entries := entries[Slot(dir, name) := target];
      return Ok(());
    }

    /** Link counts stop at zero. */
    method AdjustLinks(i: Ino, delta: int)
      requires i in inodes
      modifies this`inodes
      ensures old(inodes)[i].links + delta >= 0 ==> inodes == WithLinks(old(inodes), i, delta)
    {
      if delta != 0 {
        var links := inodes[i].links + delta;
        inodes := inodes[i := inodes[i].(links := if links < 0 then 0 else links)];
      }
    }

    /** Walk up through the back-references. */
    method IsAncestor(ancestor: Ino, start: Ino) returns (r: bool)
      requires Valid() && IsDir(inodes, start)
      ensures r == Above(entries, ancestor, start)
    {
      hide Above, GoodLinks, GoodEntry;
      ghost var rank: map<Ino, nat> :| Ranked(inodes, entries, rank);
      var cur := start;
      while true
        invariant IsDir(inodes, cur) && Above(entries, ancestor, start) == Above(entries, ancestor, cur)
        decreases if cur in rank then rank[cur] else 0
      {
        AboveSelf(entries, ancestor);
        if cur == ancestor {
          return true;
        }
        if cur == ROOT {
          NothingAboveRoot(inodes, entries, ancestor);
          return false;
        }
        assert DotsAt(inodes, entries, cur) && RankedAt(inodes, entries, rank, cur);
        AboveStep(entries, ancestor, cur);
        var up := Find(cur, "..");
        if up.Err? || up.value == cur {
          return false;
        }
        cur := up.value;
      }
    }

    /**
     A new file, or a new directory with its special entries; `ino` is the allocator's answer, and `room` says whether
     every entry found a place. If one did not, the transaction that marked the inode is dropped.
     */
    method Create(parent: Ino, name: Name, isDir: bool, ino: Option<Ino>, room: bool) returns (r: Result<Ino>)
      requires Valid() && CanName(inodes, entries, Slot(parent, name))
      requires ino.Some? ==> ino.value !in inodes
      modifies this`inodes, this`entries
      ensures Valid()
      ensures r.Ok? <==> ino.Some? && room
      ensures r.Err? ==> r == Err(ENOSPC) && inodes == old(inodes) && entries == old(entries)
      ensures r.Ok? ==> r.value == ino.value && SameNames(entries, old(entries)[Slot(parent, name) := ino.value])
      ensures r.Ok? ==> inodes.Keys == old(inodes.Keys) + {ino.value} && inodes[ino.value].isDir == isDir
      ensures r.Ok? ==> Added(old(inodes), inodes, if isDir then Some(parent) else None)
    {
      hide Sound;
      if ino == None || !room {
        return Err(ENOSPC);
      }
      var c, s := ino.value, Slot(parent, name);
      entries := entries[s := c];
      if isDir {
        DirSound(old(inodes), old(entries), s, c);
        entries := entries[Slot(c, ".") := c];
        entries := entries[Up(c) := parent];
        inodes := inodes[c := Inode(true, 2)];
        inodes := inodes[parent := inodes[parent].(links := inodes[parent].links + 1)];
      } else {
        FileSound(inodes, old(entries), s, c);
        inodes := inodes[c := Inode(false, 1)];
      }
      return Ok(c);
    }

    method MakeDirectory(parent: Ino, name: Name, ino: Option<Ino>, room: bool) returns (r: Result<Ino>)
      requires Valid() && IsDir(inodes, parent) && IsName(name)
      requires ino.Some? ==> ino.value !in inodes
      modifies this`inodes, this`entries
      ensures Valid()
      ensures r.Ok? <==> Slot(parent, name) !in old(entries) && ino.Some? && room
      ensures r.Err? ==> inodes == old(inodes) && entries == old(entries)
      ensures r.Err? ==> r.errno == if Slot(parent, name) in entries then EEXIST else ENOSPC
      ensures r.Ok? ==> r.value == ino.value && SameNames(entries, old(entries)[Slot(parent, name) := ino.value])
      ensures r.Ok? ==> inodes.Keys == old(inodes.Keys) + {ino.value} && inodes[ino.value].isDir
      ensures r.Ok? ==> Added(old(inodes), inodes, Some(parent))
    {
      hide Sound;
      var found := Find(parent, name);
      if found.Ok? {
        return Err(EEXIST);
      }
      r := Create(parent, name, true, ino, room);
    }

    /** One more name for a file; `room` says whether the entry found a place. */
    method Link(child: Ino, parent: Ino, name: Name, room: bool) returns (r: Result<()>)
      requires Valid() && CanName(inodes, entries, Slot(parent, name)) && child in inodes && !IsDir(inodes, child)
      modifies this`inodes, this`entries
      ensures Valid()
      ensures r == if room then Ok(()) else Err(ENOSPC)
      ensures r.Err? ==> inodes == old(inodes) && entries == old(entries)
      ensures r.Ok? ==>
                entries == old(entries)[Slot(parent, name) := child] && inodes == WithLinks(old(inodes), child, 1)
    {
      hide Sound;
      if !room {
        return Err(ENOSPC);
      }
      LinkSound(inodes, entries, Slot(parent, name), child);
      entries := entries[Slot(parent, name) := child];
      inodes := inodes[child := inodes[child].(links := inodes[child].links + 1)];
      return Ok(());
    }

    /** Drop a name of a file; the inode goes with its last name. */
    method Unlink(parent: Ino, name: Name) returns (r: Result<()>)
      requires Valid() && IsName(name)
      requires Slot(parent, name) in entries ==> !IsDir(inodes, entries[Slot(parent, name)])
      modifies this`inodes, this`entries
      ensures Valid()
      ensures r.Ok? <==> Slot(parent, name) in old(entries)
      ensures r.Err? ==> r.errno == ENOENT && inodes == old(inodes) && entries == old(entries)
      ensures r.Ok? ==> old(entries)[Slot(parent, name)] in old(inodes)
      ensures r.Ok? ==>
              entries == old(entries) - {Slot(parent, name)}
                  && inodes == Dropped(old(inodes), old(entries)[Slot(parent, name)])
    {
      hide Sound;
      var s := Slot(parent, name);
      var found := Find(parent, name);
      if found.Err? {
        return Err(ENOENT);
      }
      var c := found.value;
      SoundEntry(inodes, entries, s);
      UnlinkSound(inodes, entries, s);
      LinksCounted(inodes, entries, c);
      entries := entries - {s};
      var links := if inodes[c].links <= 0 then 0 else inodes[c].links - 1;
      if links == 0 {
        inodes := inodes - {c};
      } else {
        inodes := inodes[c := inodes[c].(links := links)];
      }
      return Ok(());
    }

    /** Is there anything in a directory but its special entries? */
    method HasEntry(dir: Ino) returns (r: bool)
      ensures r == !IsEmpty(entries, dir)
    {
      var rest := entries.Keys;
      while rest != {}
        invariant rest <= entries.Keys
        invariant forall s :: s in entries && s !in rest && s.dir == dir ==> !IsName(s.name)
        decreases |rest|
      {
        var s :| s in rest;
        rest := rest - {s};
        if s.dir == dir && IsName(s.name) {
          return true;
        }
      }
      return false;
    }

    /** Remove an empty directory: its name, its special entries, its inode, and the credit of its parent. */
    method RemoveDirectory(parent: Ino, name: Name) returns (r: Result<()>)
      requires Valid() && IsName(name)
      requires Slot(parent, name) in entries ==> IsDir(inodes, entries[Slot(parent, name)])
      modifies this`inodes, this`entries
      ensures Valid()
      ensures r.Ok? <==> CanDrop(old(inodes), old(entries), Slot(parent, name))
      ensures r.Err? ==> inodes == old(inodes) && entries == old(entries)
      ensures r.Err? ==> r.errno == if Slot(parent, name) in entries then ENOTEMPTY else ENOENT
      ensures r.Ok? ==> parent in old(inodes) && parent != old(entries)[Slot(parent, name)]
      ensures r.Ok? ==> entries == WithoutDir(old(entries), Slot(parent, name), old(entries)[Slot(parent, name)])
      ensures r.Ok? ==> inodes == WithLinks(old(inodes), parent, -1) - {old(entries)[Slot(parent, name)]}
    {
      hide Sound;
      var s := Slot(parent, name);
      var found := Find(parent, name);
      if found.Err? {
        return Err(ENOENT);
      }
      var c := found.value;
      var has := HasEntry(c);
      if has {
        return Err(ENOTEMPTY);
      }
      SoundEntry(inodes, entries, s);
      RmdirSound(inodes, entries, s);
      LinksCounted(inodes, entries, parent);
      entries := entries - {s};
      entries := entries - {Slot(c, "."), Up(c)};
      inodes := inodes - {c};
      inodes := inodes[parent := inodes[parent].(links :=
          if inodes[parent].links <= 0 then 0 else inodes[parent].links - 1)];
      assert inodes == WithLinks(old(inodes), parent, -1) - {c};
      assert entries == WithoutDir(old(entries), s, c);
      return Ok(());
    }

    /** Give `from` the name `to`, replacing a file or an empty directory there. */
    method Rename(oldParent: Ino, name: Name, newParent: Ino, newName: Name, noreplace: bool,
        room: bool) returns (r: Result<()>)
      requires Valid() && IsDir(inodes, newParent) && IsName(name) && IsName(newName)
      modifies this`inodes, this`entries
      ensures Valid()
      ensures var from, to := Slot(oldParent, name), Slot(newParent, newName);
              match old(RenameRefusal(inodes, entries, from, to, noreplace))
              case Some(e) => r == Err(e) && inodes == old(inodes) && entries == old(entries)
              case None =>
                if to in old(entries) && old(entries)[to] == old(entries)[from] then
                  r.Ok? && inodes == old(inodes) && entries == old(entries)
                else if room then
                  && r.Ok? && NameMoved(old(entries), entries, from, to)
                  && InodesAfter(old(inodes), inodes, old(entries), to,
                         MoveCredit(from.dir, to.dir, One(IsDir(old(inodes), old(entries)[from]))))
                else
                  && r == Err(ENOSPC) && InodesAfter(old(inodes), inodes, old(entries), to, NoCredit)
                  && NameGone(old(entries), entries, to)
                  && (to !in old(entries) ==> inodes == old(inodes) && entries == old(entries))
    {
      hide Sound, Above, NameMoved, Renamed, CreditMoved, InodesAfter, NameGone, MoveCredit;
      var from, to := Slot(oldParent, name), Slot(newParent, newName);
      var found := Find(oldParent, name);
      if found.Err? {
        return Err(ENOENT);
      }
      var src := found.value;
      SoundEntry(inodes, entries, from);
      var dir := inodes[src].isDir;
      if dir {
        var above := IsAncestor(src, newParent);
        if above {
          return Err(EINVAL);
        }
      }
      var target := Find(newParent, newName);
      if target.Ok? {
        if noreplace {
          return Err(EEXIST);
        }
        var dst := target.value;
        if dst == src {
          return Ok(());
        }
        r := Clear(newParent, newName, src, dir, dst);
        if r.Err? {
          return;
        }
      }
      ghost var a, b := old(inodes), inodes;
      if target.Err? {
        NothingTaken(a, old(entries), to);
      }
      if !room {
        return Err(ENOSPC);
      }
      RenameSound(inodes, entries, from, to);
      CreditGiven(a, b, old(entries), from, to, dir);
      DirFacts(inodes, entries, from.dir);
      DirFacts(inodes, entries, to.dir);
      DirFacts(inodes, entries, src);
      SoundEntry(inodes, entries, from);
      RenamedNames(old(entries), entries, from, to, dir);
      MoveEntry(from, to, src, dir);
      return Ok(());
    }

    /** Free the name a rename is going to take. */
    method Clear(parent: Ino, name: Name, src: Ino, dir: bool, dst: Ino) returns (r: Result<()>)
      requires Valid() && IsDir(inodes, parent) && IsName(name) && Slot(parent, name) in entries
      requires entries[Slot(parent, name)] == dst && dst != src && src in inodes && dir == IsDir(inodes, src)
      modifies this`inodes, this`entries
      ensures Valid()
      ensures r.Ok? <==> IsDir(old(inodes), dst) == dir && (dir ==> IsEmpty(old(entries), dst))
      ensures r.Err? ==> inodes == old(inodes) && entries == old(entries)
      ensures r.Err? ==>
              r.errno == if IsDir(inodes, dst) && !dir then EISDIR else if !IsDir(inodes, dst)
                  && dir then ENOTDIR else ENOTEMPTY
      ensures r.Ok? ==> Cleared(old(entries), entries, Slot(parent, name))
      ensures r.Ok? ==> NameGone(old(entries), entries, Slot(parent, name))
      ensures r.Ok? ==> InodesAfter(old(inodes), inodes, old(entries), Slot(parent, name), NoCredit)
      ensures r.Ok? ==> IsDir(inodes, parent) && src in inodes && IsDir(inodes, src) == dir
      ensures forall x, d :: !old(Above(entries, x, d)) ==> !Above(entries, x, d)
    {
      hide Sound, Above;
      SoundEntry(inodes, entries, Slot(parent, name));
      var dstDir := inodes[dst].isDir;
      if dstDir && !dir {
        return Err(EISDIR);
      }
      if !dstDir && dir {
        return Err(ENOTDIR);
      }
      LinksCounted(inodes, entries, dst);
      NamedOnce(inodes, entries, Slot(parent, name));
      if dstDir {
        r := RemoveDirectory(parent, name);
        DirTaken(old(inodes), old(entries), Slot(parent, name), dst);
      } else {
        r := Unlink(parent, name);
        FileTaken(old(inodes), old(entries), Slot(parent, name), dst);
      }
      forall x, d
        ensures !old(Above(entries, x, d)) ==> !Above(entries, x, d)
      {
        FewerAbove(old(entries), entries, x, d);
      }
    }

    /** The changes of a rename, in order. */
    method MoveEntry(from: Slot, to: Slot, src: Ino, dir: bool)
      requires from in entries && IsName(from.name) && CanName(inodes, entries, to)
      requires from.dir in inodes && (dir ==> Up(src) in entries)
      requires Sound(CreditMoved(inodes, from, to, dir), Renamed(entries, from, to, src, dir))
      requires inodes[from.dir].links > 0 && inodes[to.dir].links > 0
      modifies this`inodes, this`entries
      ensures Valid()
      ensures inodes == CreditMoved(old(inodes), from, to, dir) && entries == Renamed(old(entries), from, to, src, dir)
    {
      hide Sound;
      entries := entries[to := src];
      entries := entries - {from};
      if dir && from.dir != to.dir {
        var done := SetTarget(src, "..", to.dir);
        AdjustLinks(from.dir, -1);
        AdjustLinks(to.dir, 1);
      }
    }

    /** Two existing names trade targets. */
    method Exchange(oldParent: Ino, name: Name, newParent: Ino, newName: Name) returns (r: Result<()>)
      requires Valid() && IsDir(inodes, newParent) && IsName(name) && IsName(newName)
      modifies this`inodes, this`entries
      ensures Valid()
      ensures var from, to := Slot(oldParent, name), Slot(newParent, newName);
              match old(ExchangeRefusal(inodes, entries, from, to))
              case Some(e) => r == Err(e) && inodes == old(inodes) && entries == old(entries)
              case None =>
                && r.Ok? && NamesSwapped(old(entries), entries, from, to)
                && CreditsTraded(old(inodes), inodes,
                       MoveCredit(from.dir, to.dir, One(IsDir(old(inodes), old(entries)[from]))
                                                    - One(IsDir(old(inodes), old(entries)[to]))))
    {
      hide Sound, Above, NamesSwapped, Rehung, Swapped, CreditSwapped, MoveCredit, CreditsTraded;
      var from, to := Slot(oldParent, name), Slot(newParent, newName);
      var found := Find(oldParent, name);
      if found.Err? {
        return Err(ENOENT);
      }
      var src := found.value;
      SoundEntry(inodes, entries, from);
      var srcDir := inodes[src].isDir;
      if srcDir {
        var above := IsAncestor(src, newParent);
        if above {
          return Err(EINVAL);
        }
      }
      var target := Find(newParent, newName);
      if target.Err? {
        return Err(ENOENT);
      }
      var dst := target.value;
      SwappedNames(entries, from, to, srcDir);
      NoneTraded(inodes, from.dir, to.dir);
      if dst == src {
        return Ok(());
      }
      SoundEntry(inodes, entries, to);
      var dstDir := inodes[dst].isDir;
      if dstDir {
        var above := IsAncestor(dst, oldParent);
        if above {
          return Err(EINVAL);
        }
      }
      ExchangeSound(inodes, entries, from, to);
      DirFacts(inodes, entries, from.dir);
      DirFacts(inodes, entries, to.dir);
      DirFacts(inodes, entries, src);
      DirFacts(inodes, entries, dst);
      CreditsOf(inodes, from, to, srcDir, dstDir);
      SwapEntries(from, to, src, dst, srcDir, dstDir);
      return Ok(());
    }

    /** The changes of an exchange, in order. */
    method SwapEntries(from: Slot, to: Slot, src: Ino, dst: Ino, srcDir: bool, dstDir: bool)
      requires CanSwap(inodes, entries, from, to) && src == entries[from] && dst == entries[to]
      requires from.dir in inodes && to.dir in inodes
      requires (srcDir ==> Up(src) in entries) && (dstDir ==> Up(dst) in entries)
      requires Sound(CreditSwapped(inodes, from, to, srcDir, dstDir),
               Rehung(Swapped(entries, from, to), from, to, src, dst, srcDir, dstDir))
      requires inodes[from.dir].links > 0 && inodes[to.dir].links > 0
      modifies this`inodes, this`entries
      ensures Valid()
      ensures inodes == CreditSwapped(old(inodes), from, to, srcDir, dstDir)
      ensures entries == Rehung(Swapped(old(entries), from, to), from, to, src, dst, srcDir, dstDir)
    {
      hide Sound;
      var a := SetTarget(from.dir, from.name, dst);
      var b := SetTarget(to.dir, to.name, src);
      if from.dir != to.dir {
        if srcDir {
          var c := SetTarget(src, "..", to.dir);
        }
        if dstDir {
          var d := SetTarget(dst, "..", from.dir);
        }
        AdjustLinks(from.dir, One(dstDir) - One(srcDir));
        AdjustLinks(to.dir, One(srcDir) - One(dstDir));
      }
    }
  }

  /** Only the name `s` is gone among the proper names, and no back-reference appeared. */
  ghost predicate Cleared(a: Entries, b: Entries, s: Slot) {
    && (forall t: Slot :: IsName(t.name) ==> (t in b <==> t in a && t != s))
    && (forall t: Slot :: t in b ==> t in a && b[t] == a[t])
  }

  /** The inodes there were are there, the given one with a link more. */
  ghost predicate Added(a: Inodes, b: Inodes, parent: Option<Ino>) {
    forall j: Ino :: j in a ==> j in b && b[j] == a[j].(links := a[j].links + One(parent == Some(j)))
  }

  /** Of the proper names `s` is gone if it was there, and no other. */
  ghost predicate NameGone(a: Entries, b: Entries, s: Slot) {
    forall t: Slot :: IsName(t.name) ==> (t in b <==> t in a && t != s) && (t in b ==> b[t] == a[t])
  }

  /** No inode came or went or changed its kind, and the links changed by the credit. */
  ghost predicate CreditsTraded(a: Inodes, b: Inodes, credit: Ino -> int) {
    forall j: Ino :: CreditTraded(a, b, credit, j)
  }

  predicate CreditTraded(a: Inodes, b: Inodes, credit: Ino -> int, j: Ino) {
    (j in b <==> j in a) && (j in b ==> b[j].isDir == a[j].isDir && b[j].links == a[j].links + credit(j))
  }

  lemma NothingTaken(inodes: Inodes, entries: Entries, s: Slot)
    requires s !in entries
    ensures InodesAfter(inodes, inodes, entries, s, NoCredit) && NameGone(entries, entries, s)
  {
  }

  lemma DirTaken(inodes: Inodes, entries: Entries, s: Slot, c: Ino)
    requires s.dir in inodes && s in entries && entries[s] == c && IsDir(inodes, c) && s.dir != c
    ensures InodesAfter(inodes, WithLinks(inodes, s.dir, -1) - {c}, entries, s, NoCredit)
  {
  }

  lemma FileTaken(inodes: Inodes, entries: Entries, s: Slot, c: Ino)
    requires s in entries && entries[s] == c && c in inodes && !IsDir(inodes, c) && inodes[c].links >= 1
    ensures InodesAfter(inodes, Dropped(inodes, c), entries, s, NoCredit)
  {
  }

  lemma CreditGiven(a: Inodes, b: Inodes, entries: Entries, from: Slot, to: Slot, dir: bool)
    requires InodesAfter(a, b, entries, to, NoCredit) && from.dir in b && to.dir in b
    ensures InodesAfter(a, CreditMoved(b, from, to, dir), entries, to, MoveCredit(from.dir, to.dir, One(dir)))
  {
    var c, m := CreditMoved(b, from, to, dir), MoveCredit(from.dir, to.dir, One(dir));
    forall j: Ino
      ensures InodeAfter(a, c, entries, to, m, j)
    {
      assert InodeAfter(a, b, entries, to, NoCredit, j);
    }
  }

  lemma NoneTraded(inodes: Inodes, p: Ino, q: Ino)
    ensures CreditsTraded(inodes, inodes, MoveCredit(p, q, 0))
  {
  }

  lemma CreditsOf(inodes: Inodes, from: Slot, to: Slot, srcDir: bool, dstDir: bool)
    requires from.dir in inodes && to.dir in inodes
    ensures CreditsTraded(inodes, CreditSwapped(inodes, from, to, srcDir, dstDir),
                MoveCredit(from.dir, to.dir, One(srcDir) - One(dstDir)))
  {
  }

  /** A named inode has a link. */
  lemma NamedOnce(inodes: Inodes, entries: Entries, s: Slot)
    requires Sound(inodes, entries) && s in entries && IsName(s.name)
    ensures entries[s] in inodes && inodes[entries[s]].links >= 1
  {
    hide Sound;
    SoundAt(inodes, entries, entries[s]);
    SoundEntry(inodes, entries, s);
    assert s in Naming(entries, entries[s]);
  }

  lemma FreshSound(inodes: Inodes, entries: Entries)
    requires inodes == map[ROOT := Inode(true, 2)] && entries == map[Slot(ROOT, ".") := ROOT, Up(ROOT) := ROOT]
    ensures Sound(inodes, entries)
  {
    assert Naming(entries, ROOT) == {} && Subdirs(inodes, entries, ROOT) == {};
    var rank: map<Ino, nat> := map[ROOT := 0];
    assert Ranked(inodes, entries, rank);
  }

  lemma NothingAboveRoot(inodes: Inodes, entries: Entries, a: Ino)
    requires Sound(inodes, entries)
    ensures Above(entries, a, ROOT) <==> a == ROOT
  {
    hide GoodLinks, GoodEntry;
    AboveSelf(entries, a);
    if Above(entries, a, ROOT) {
      var n: nat :| Climb(entries, ROOT, n) == a;
      RootTop(inodes, entries, n);
    }
  }

  /** Link counts are never negative, and a directory has at least two. */
  lemma LinksCounted(inodes: Inodes, entries: Entries, i: Ino)
    requires Sound(inodes, entries) && i in inodes
    ensures inodes[i].links >= if inodes[i].isDir then 2 else 0
  {
    hide Sound;
    SoundAt(inodes, entries, i);
  }

  lemma DirFacts(inodes: Inodes, entries: Entries, i: Ino)
    requires Sound(inodes, entries)
    ensures IsDir(inodes, i) ==> inodes[i].links > 0 && Up(i) in entries
  {
    hide Sound;
    SoundAt(inodes, entries, i);
  }

  lemma RenamedNames(a: Entries, b: Entries, from: Slot, to: Slot, dir: bool)
    requires from in a && IsName(from.name) && from != to
    requires (to !in a && b == a) || Cleared(a, b, to)
    ensures NameMoved(a, Renamed(b, from, to, a[from], dir), from, to)
  {
  }

  lemma SwappedNames(a: Entries, from: Slot, to: Slot, srcDir: bool)
    requires from in a && to in a
    ensures forall dstDir :: NamesSwapped(a, Rehung(Swapped(a, from, to), from, to, a[from], a[to], srcDir, dstDir),
            from, to)
    ensures a[from] == a[to] ==> NamesSwapped(a, a, from, to)
  {
    forall dstDir
      ensures NamesSwapped(a, Rehung(Swapped(a, from, to), from, to, a[from], a[to], srcDir, dstDir), from, to)
    {
      RehungNames(Swapped(a, from, to), from, to, a[from], a[to], srcDir, dstDir);
    }
  }
}
