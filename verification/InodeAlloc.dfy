/** The inode allocator: lowest free inode first, exact counters, and the high-water mark of the inode table. */
module InodeAlloc {
  import opened Bytes
  import opened Outcome
  import opened Bitmap
  import opened BlockGroups

  /** Inodes are numbered from 1. */
  function NumberOf(ipg: nat, g: nat, i: nat): nat {
    g * ipg + i + 1
  }

  function GroupOfInode(ipg: nat, n: nat): nat
    requires ipg > 0
  {
    if n == 0 then 0 else (n - 1) / ipg
  }

  function IndexOfInode(ipg: nat, n: nat): nat
    requires ipg > 0
  {
    if n == 0 then 0 else (n - 1) % ipg
  }

  /** Numbers and positions correspond. */
  lemma NumberRoundTrip(ipg: nat, g: nat, i: nat)
    requires i < ipg
    ensures GroupOfInode(ipg, NumberOf(ipg, g, i)) == g && IndexOfInode(ipg, NumberOf(ipg, g, i)) == i
  {
    Divided(ipg, g, i);
  }

  /** Every inode of the group that is in use lies below the high-water mark. */
  ghost predicate BelowMark(gs: Groups, ipg: nat, g: nat, unused: nat) {
    unused <= ipg && forall i: nat :: Used(gs, ipg, g, i) ==> i < ipg - unused
  }

  function Least(a: nat, b: nat): nat {
    if a <= b then a else b
  }

  /** All inodes before inode `i` of group `g` are in use. */
  ghost predicate FullBefore(gs: Groups, ipg: nat, g: nat, i: nat) {
    forall h: nat, j: nat :: h < |gs| && j < ipg && (h < g || (h == g && j < i)) ==> Used(gs, ipg, h, j)
  }

  class InodeAllocator {
    const ipg: nat
    var groups: Groups
    var dirs: seq<nat>
    var unused: seq<nat>
    var sbFree: nat

    ghost predicate Valid()
      reads this
    {
      && ipg > 0 && |dirs| == |groups| && |unused| == |groups|
      && Exact(groups, ipg) && sbFree == Total(groups)
      && forall g: nat :: g < |groups| ==> BelowMark(groups, ipg, g, unused[g])
    }

    /** Groups as made by mkfs: nothing in use. */
    constructor (ipg: nat, groups: Groups)
      requires ipg > 0 && Exact(groups, ipg) && forall g: nat, i: nat :: !Used(groups, ipg, g, i)
      ensures Valid() && this.groups == groups && this.ipg == ipg
    {
      this.ipg, this.groups, sbFree := ipg, groups, Total(groups);
      dirs, unused := seq(|groups|, g => 0), seq(|groups|, g => ipg);
    }

    /** The inode handed out is the lowest-numbered free one; there is none exactly when every inode is in use. */
    method Alloc(isDir: bool) returns (r: Result<nat>)
      requires Valid()
      modifies this`groups, this`dirs, this`unused, this`sbFree
      ensures Valid() && |groups| == |old(groups)|
      ensures r.Err? ==> r.errno == ENOSPC && FullBefore(groups, ipg, |groups|, 0)
      ensures r.Err? ==> groups == old(groups) && dirs == old(dirs) && unused == old(unused) && sbFree == old(sbFree)
      ensures r.Ok? ==>
                var g, i := GroupOfInode(ipg, r.value), IndexOfInode(ipg, r.value);
                && r.value > 0 && g < |groups| && i < ipg && r.value == NumberOf(ipg, g, i)
                && FullBefore(old(groups), ipg, g, i) && !Used(old(groups), ipg, g, i)
                && (forall h: nat, j: nat :: Used(groups, ipg, h, j) <==>
                    Used(old(groups), ipg, h, j) || (h == g && j == i))
                && sbFree + 1 == old(sbFree) && dirs == old(dirs)[g := old(dirs)[g] + if isDir then 1 else 0]
                && unused == old(unused)[g := Least(old(unused)[g], ipg - i - 1)]
    {
      hide Total, Exact, Used, Bits, CountClear, NumberOf, GroupOfInode, IndexOfInode, IsSet;
      for bgid := 0 to |groups|
        invariant Valid() && groups == old(groups) && dirs == old(dirs) && unused == old(unused)
        invariant sbFree == old(sbFree)
        invariant FullBefore(groups, ipg, bgid, 0)
      {
        GroupFacts(groups, ipg, bgid);
        if groups[bgid].free > 0 {
          var bitmap := groups[bgid].bitmap;
          var n := |bitmap|;
          var data := new bv8[n](k requires 0 <= k < n => bitmap[k]);
          assert data[..] == bitmap;
          var found := FindClr(data, 0, ipg);
          FoundInode(groups, ipg, bgid, found);
          if found.Some? {
            var idx := found.value;
            BitSet(data, idx);
            Take(bgid, idx, data[..], isDir);
            NumberRoundTrip(ipg, bgid, idx);
            NumberPositive(ipg, bgid, idx);
            return Ok(NumberOf(ipg, bgid, idx));
          }
        }
        FullNext(groups, ipg, bgid);
      }
      return Err(ENOSPC);
    }

    /** Record that an inode is in use. */
    method Take(g: nat, i: nat, bitmap: seq<bv8>, isDir: bool)
      requires Valid() && g < |groups| && i < ipg && !Used(groups, ipg, g, i) && |bitmap| == |groups[g].bitmap|
      requires ipg <= 8 * |bitmap| && Bits(bitmap) == Bits(groups[g].bitmap)[i := true] && groups[g].free > 0
      modifies this`groups, this`dirs, this`unused, this`sbFree
      ensures Valid() && |groups| == |old(groups)|
      ensures forall h: nat, j: nat :: Used(groups, ipg, h, j) <==> Used(old(groups), ipg, h, j) || (h == g && j == i)
      ensures sbFree + 1 == old(sbFree) && dirs == old(dirs)[g := old(dirs)[g] + if isDir then 1 else 0]
      ensures unused == old(unused)[g := Least(old(unused)[g], ipg - i - 1)]
    {
      hide Total, Exact, Used, Bits, CountClear, IsSet, BelowMark;
      ghost var was, marks := groups, unused;
      Flipped(groups, ipg, g, i, true, Group(bitmap, groups[g].free - 1));
      groups := groups[g := Group(bitmap, groups[g].free - 1)];
      if isDir {
        dirs := dirs[g := dirs[g] + 1];
      }
      var free := if unused[g] <= ipg then ipg - unused[g] else 0;
      if i >= free {
        unused := unused[g := if i + 1 <= ipg then ipg - (i + 1) else 0];
      }
      sbFree := sbFree - 1;
      forall h: nat | h < |groups|
        ensures BelowMark(groups, ipg, h, unused[h])
      {
        assert BelowMark(was, ipg, h, marks[h]);
        MarkTaken(was, groups, ipg, g, i, h, marks[h], unused[h]);
      }
    }

    /** Give an inode back; the high-water mark stays. */
    method Free(n: nat, isDir: bool)
      requires Valid() && n > 0 && Used(groups, ipg, GroupOfInode(ipg, n), IndexOfInode(ipg, n))
      modifies this`groups, this`dirs, this`sbFree
      ensures Valid() && |groups| == |old(groups)|
      ensures var g, i := GroupOfInode(ipg, n), IndexOfInode(ipg, n);
              && g < |groups|
              && (forall h: nat, j: nat :: Used(groups, ipg, h, j) <==>
                  Used(old(groups), ipg, h, j) && !(h == g && j == i))
              && sbFree == old(sbFree) + 1
              && dirs == old(dirs)[g := if isDir && old(dirs)[g] > 0 then old(dirs)[g] - 1 else old(dirs)[g]]
    {
      hide Total, Exact, Bits, CountClear, NumberOf, GroupOfInode, IndexOfInode, IsSet, BelowMark;
      var g, i := GroupOfInode(ipg, n), IndexOfInode(ipg, n);
      ghost var was := groups;
      var bitmap := groups[g].bitmap;
      var size := |bitmap|;
      var data := new bv8[size](k requires 0 <= k < size => bitmap[k]);
      assert data[..] == bitmap;
      BitClr(data, i);
      Flipped(groups, ipg, g, i, false, Group(data[..], groups[g].free + 1));
      hide Used;
      groups := groups[g := Group(data[..], groups[g].free + 1)];
      if isDir {
        dirs := dirs[g := if dirs[g] > 0 then dirs[g] - 1 else 0];
      }
      sbFree := sbFree + 1;
      forall h: nat | h < |groups|
        ensures BelowMark(groups, ipg, h, unused[h])
      {
        assert BelowMark(was, ipg, h, unused[h]);
        MarkKept(was, groups, ipg, h, unused[h]);
      }
    }
  }

  /** Allocating an inode and freeing it again restores every bit and every free count. */
  lemma AllocThenFreeInode(was: Groups, mid: Groups, now: Groups, ipg: nat, g: nat, i: nat)
    requires ipg > 0 && Exact(was, ipg) && Exact(now, ipg) && |was| == |mid| == |now| && !Used(was, ipg, g, i)
    requires forall h: nat, j: nat :: Used(mid, ipg, h, j) <==> Used(was, ipg, h, j) || (h == g && j == i)
    requires forall h: nat, j: nat :: Used(now, ipg, h, j) <==> Used(mid, ipg, h, j) && !(h == g && j == i)
    ensures forall h: nat, j: nat :: Used(now, ipg, h, j) <==> Used(was, ipg, h, j)
    ensures forall h: nat :: h < |was| ==> now[h].free == was[h].free
    ensures Total(now) == Total(was)
  {
    hide Total, Used, Bits, CountClear;
    forall h: nat | h < |was|
      ensures now[h].free == was[h].free
    {
      assert ExactGroup(was[h], ipg) && ExactGroup(now[h], ipg);
      SameUse(was, now, ipg, h);
    }
    SameTotal(was, now);
  }

  lemma SameUse(a: Groups, b: Groups, ipg: nat, h: nat)
    requires h < |a| && |a| == |b| && ipg <= 8 * |a[h].bitmap| && ipg <= 8 * |b[h].bitmap|
    requires forall j: nat :: Used(b, ipg, h, j) <==> Used(a, ipg, h, j)
    ensures GroupBits(a[h], ipg) == GroupBits(b[h], ipg)
  {
    hide Bits;
    var x, y := GroupBits(a[h], ipg), GroupBits(b[h], ipg);
    forall j: nat | j < ipg
      ensures x[j] == y[j]
    {
      assert Used(a, ipg, h, j) == x[j] && Used(b, ipg, h, j) == y[j];
    }
  }

  lemma {:induction false} SameTotal(a: Groups, b: Groups)
    requires |a| == |b| && forall h: nat :: h < |a| ==> a[h].free == b[h].free
    ensures Total(a) == Total(b)
  {
    if a != [] {
      SameTotal(a[..|a| - 1], b[..|b| - 1]);
    }
  }

  lemma NumberPositive(ipg: nat, g: nat, i: nat)
    ensures NumberOf(ipg, g, i) > 0
  {
  }

  lemma GroupFacts(gs: Groups, ipg: nat, g: nat)
    requires Exact(gs, ipg) && g < |gs|
    ensures ipg <= 8 * |gs[g].bitmap| && (gs[g].free == 0 ==> forall i: nat :: i < ipg ==> Used(gs, ipg, g, i))
  {
    hide Bits, CountClear;
    assert ExactGroup(gs[g], ipg);
    NoneClear(GroupBits(gs[g], ipg));
  }

  /** A failed search of the bitmap means a full group; a hit is its first free inode. */
  lemma FoundInode(gs: Groups, ipg: nat, g: nat, r: Option<nat>)
    requires g < |gs| && ipg <= 8 * |gs[g].bitmap| && FirstClear(Bits(gs[g].bitmap), 0, ipg, r)
    ensures r.None? ==> forall i: nat :: i < ipg ==> Used(gs, ipg, g, i)
    ensures r.Some? ==> r.value < ipg && !Used(gs, ipg, g, r.value) && forall i: nat :: i < r.value ==>
            Used(gs, ipg, g, i)
  {
    hide Bits;
  }

  lemma FullNext(gs: Groups, ipg: nat, g: nat)
    requires FullBefore(gs, ipg, g, 0) && g < |gs| && forall i: nat :: i < ipg ==> Used(gs, ipg, g, i)
    ensures FullBefore(gs, ipg, g + 1, 0)
  {
    hide Used;
  }

  /** One bit of one group changed, and its free count with it. */
  lemma Flipped(gs: Groups, ipg: nat, g: nat, i: nat, on: bool, x: Group)
    requires Exact(gs, ipg) && g < |gs| && i < ipg && Used(gs, ipg, g, i) != on && ipg <= 8 * |gs[g].bitmap|
    requires Bits(x.bitmap) == Bits(gs[g].bitmap)[i := on]
    requires x.free == gs[g].free + if on then -1 else 1
    ensures Exact(gs[g := x], ipg) && Total(gs[g := x]) == Total(gs) + if on then -1 else 1
    ensures forall h: nat, j: nat :: Used(gs[g := x], ipg, h, j) <==>
            if h == g && j == i then on else Used(gs, ipg, h, j)
  {
    hide Total, CountClear;
    TotalUpdate(gs, g, x);
    assert ExactGroup(gs[g], ipg);
    SameLength(gs[g].bitmap, x.bitmap);
    var a, b := GroupBits(gs[g], ipg), GroupBits(x, ipg);
    assert b == a[i := on];
    CountFlip(a, i, on);
    hide Bits;
    var now := gs[g := x];
    forall h | 0 <= h < |gs|
      ensures ExactGroup(now[h], ipg)
    {
      assert ExactGroup(gs[h], ipg);
    }
  }

  lemma SameLength(a: seq<bv8>, b: seq<bv8>)
    requires |Bits(a)| == |Bits(b)|
    ensures |a| == |b|
  {
  }

  lemma MarkTaken(was: Groups, now: Groups, ipg: nat, g: nat, i: nat, h: nat, mark: nat, newMark: nat)
    requires BelowMark(was, ipg, h, mark) && i < ipg
    requires forall h: nat, j: nat :: Used(now, ipg, h, j) <==> Used(was, ipg, h, j) || (h == g && j == i)
    requires newMark == if h == g && i >= ipg - mark then ipg - (i + 1) else mark
    ensures BelowMark(now, ipg, h, newMark)
  {
    hide Used;
  }

  lemma MarkKept(was: Groups, now: Groups, ipg: nat, h: nat, mark: nat)
    requires BelowMark(was, ipg, h, mark) && forall h: nat, j: nat :: Used(now, ipg, h, j) ==> Used(was, ipg, h, j)
    ensures BelowMark(now, ipg, h, mark)
  {
    hide Used;
  }
}
