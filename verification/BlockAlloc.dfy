/** The block allocator: single and batch allocation, and frees that may cross groups. */
module BlockAlloc {
  import opened Bytes
  import opened Outcome
  import opened Bitmap
  import opened BlockGroups

  datatype Zone = Zone(first: nat, last: nat)

  /** `from..` up to the group's end, marks of this call included: nothing left to hand out. */
  predicate Spent(gs: Groups, lay: Layout, zones: seq<Zone>, g: nat, from: nat) {
    g < |gs| && lay.bpg <= 8 * |gs[g].bitmap|
    && forall i: nat :: from <= i < lay.bpg ==> GroupBits(gs[g], lay.bpg)[i] || InZone(zones, lay.AddrOf(i, g))
  }

  predicate InZone(zones: seq<Zone>, b: nat) {
    exists z :: 0 <= z < |zones| && zones[z].first <= b <= zones[z].last
  }

  /** The linear scan of the system zones. */
  method IsReserved(zones: seq<Zone>, b: nat) returns (r: bool)
    ensures r == InZone(zones, b)
  {
    for z := 0 to |zones|
      invariant forall k :: 0 <= k < z ==> !(zones[k].first <= b <= zones[k].last)
    {
      if zones[z].first <= b <= zones[z].last {
        return true;
      }
    }
    return false;
  }

  /** The addresses of the blocks `idxs` of group `g`. */
  function Addresses(lay: Layout, g: nat, idxs: seq<nat>): (r: seq<nat>)
    ensures |r| == |idxs| && forall k :: 0 <= k < |idxs| ==> r[k] == lay.AddrOf(idxs[k], g)
  {
    seq(|idxs|, k requires 0 <= k < |idxs| => lay.AddrOf(idxs[k], g))
  }

  /** Indices of one group that may be handed out: in order, clear, outside the system zones. */
  predicate Pickable(bits: seq<bool>, lay: Layout, zones: seq<Zone>, g: nat, idxs: seq<nat>) {
    Rising(idxs) && forall k :: 0 <= k < |idxs| ==>
        idxs[k] < lay.bpg <= |bits| && !bits[idxs[k]] && !InZone(zones, lay.AddrOf(idxs[k], g))
  }

  predicate Below(idxs: seq<nat>, n: nat) {
    forall k :: 0 <= k < |idxs| ==> idxs[k] < n
  }

  /** Everything before `cur` is set or reserved. */
  predicate Scanned(bits: seq<bool>, lay: Layout, zones: seq<Zone>, g: nat, cur: nat)
    requires cur <= |bits|
  {
    forall i: nat :: i < cur ==> bits[i] || InZone(zones, lay.AddrOf(i, g))
  }

  /** The indices below `hi` that are clear and outside the system zones, in order. */
  ghost function FreeIdx(bits: seq<bool>, lay: Layout, zones: seq<Zone>, g: nat, hi: nat): (r: seq<nat>)
    requires hi <= |bits|
    ensures |r| <= hi && Below(r, hi)
  {
    if hi == 0 then []
    else
      FreeIdx(bits, lay, zones, g, hi - 1)
      + if bits[hi - 1] || InZone(zones, lay.AddrOf(hi - 1, g)) then [] else [hi - 1]
  }

  lemma {:induction false} FreeIdxPrefix(bits: seq<bool>, lay: Layout, zones: seq<Zone>, g: nat, lo: nat, hi: nat)
    requires lo <= hi <= |bits|
    ensures FreeIdx(bits, lay, zones, g, lo) <= FreeIdx(bits, lay, zones, g, hi)
    decreases hi
  {
    if lo < hi {
      FreeIdxPrefix(bits, lay, zones, g, lo, hi - 1);
    }
  }

  lemma FreeIdxNone(bits: seq<bool>, lay: Layout, zones: seq<Zone>, g: nat)
    ensures FreeIdx(bits, lay, zones, g, 0) == []
  {
  }

  lemma {:induction false} FreeIdxCount(bits: seq<bool>, lay: Layout, zones: seq<Zone>, g: nat, hi: nat)
    requires hi <= |bits|
    ensures |FreeIdx(bits, lay, zones, g, hi)| <= CountClear(bits[..hi])
  {
    if hi > 0 {
      assert bits[..hi][..hi - 1] == bits[..hi - 1];
      FreeIdxCount(bits, lay, zones, g, hi - 1);
    }
  }

  /** The first elements of a list, or all of it. */
  function Upto<T>(s: seq<T>, n: nat): (r: seq<T>)
    ensures r <= s && |r| <= n
  {
    if n < |s| then s[..n] else s
  }

  /** What group `g` can hand out, as block numbers. */
  ghost function FreeOf(gs: Groups, lay: Layout, zones: seq<Zone>, g: nat): seq<nat>
    requires g < |gs| && lay.bpg <= 8 * |gs[g].bitmap|
  {
    Addresses(lay, g, FreeIdx(Bits(gs[g].bitmap), lay, zones, g, lay.bpg))
  }

  ghost predicate Sized(gs: Groups, lay: Layout) {
    forall g :: 0 <= g < |gs| ==> lay.bpg <= 8 * |gs[g].bitmap|
  }

  /** The group visited after `k` others when the first is `first`. */
  function Turn(first: nat, k: nat, n: nat): (g: nat)
    requires first < n && k <= n
    ensures g < n
  {
    if first + k < n then first + k else first + k - n
  }

  /** What the first `k` groups visited can hand out, in the order of the visit. */
  ghost function FreeFrom(gs: Groups, lay: Layout, zones: seq<Zone>, first: nat, k: nat): seq<nat>
    requires first < |gs| && k <= |gs| && Sized(gs, lay)
  {
    if k == 0 then [] else FreeFrom(gs, lay, zones, first, k - 1) + FreeOf(gs, lay, zones, Turn(first, k - 1, |gs|))
  }

  /** A batch of `count` blocks is complete, or all groups were visited, after `k` groups and not before. */
  ghost predicate EndsAfter(gs: Groups, lay: Layout, zones: seq<Zone>, first: nat, count: nat, k: nat)
    requires first < |gs| && Sized(gs, lay)
  {
    && k <= |gs| && (k < |gs| ==> |FreeFrom(gs, lay, zones, first, k)| >= count)
    && (k > 0 ==> |FreeFrom(gs, lay, zones, first, k - 1)| < count)
  }

  lemma {:induction false} FreeFromPrefix(gs: Groups, lay: Layout, zones: seq<Zone>, first: nat, j: nat, k: nat)
    requires first < |gs| && j <= k <= |gs| && Sized(gs, lay)
    ensures FreeFrom(gs, lay, zones, first, j) <= FreeFrom(gs, lay, zones, first, k)
    decreases k
  {
    hide FreeOf;
    if j < k {
      FreeFromPrefix(gs, lay, zones, first, j, k - 1);
    }
  }

  lemma FreeFromNext(gs: Groups, lay: Layout, zones: seq<Zone>, first: nat, k: nat)
    requires first < |gs| && k < |gs| && Sized(gs, lay)
    ensures FreeFrom(gs, lay, zones, first, k + 1)
         == FreeFrom(gs, lay, zones, first, k) + FreeOf(gs, lay, zones, Turn(first, k, |gs|))
    ensures FreeFrom(gs, lay, zones, first, 0) == []
  {
  }

  lemma UptoMore<T>(a: seq<T>, b: seq<T>, n: nat)
    ensures |a| <= n ==> Upto(a + b, n) == a + Upto(b, n - |a|)
    ensures |a| >= n ==> Upto(a + b, n) == Upto(a, n)
  {
  }

  lemma UptoPrefix<T>(a: seq<T>, b: seq<T>, n: nat)
    requires a <= b && |a| >= n
    ensures Upto(a, n) == Upto(b, n)
  {
  }

  class Allocator {
    const lay: Layout
    const zones: seq<Zone>
    const blockUnits: nat
    var groups: Groups
    var sbFree: nat
    var inodeBlocks: nat

    /** Bitmaps large enough, counters exact. */
    ghost predicate Valid()
      reads this
    {
      lay.bpg > 0 && Exact(groups, lay.bpg) && sbFree == Total(groups)
    }

    /** Groups with exact counters, as mkfs leaves them, and an inode without blocks. */
    constructor (lay: Layout, zones: seq<Zone>, blockUnits: nat, groups: Groups)
      requires lay.bpg > 0 && Exact(groups, lay.bpg)
      ensures Valid() && this.groups == groups && this.lay == lay && this.zones == zones && inodeBlocks == 0
    {
      this.lay, this.zones, this.blockUnits := lay, zones, blockUnits;
      this.groups, sbFree, inodeBlocks := groups, Total(groups), 0;
    }

    // ---- batch allocation --------------------------------------------------------------------------------

    /** Mark up to `max` free blocks of group `g` in a copy of its bitmap, lowest first. */
    method PickInGroup(g: nat, max: nat, data: array<bv8>) returns (idxs: seq<nat>, cur: nat)
      requires g < |groups| && lay.bpg <= 8 * data.Length
      modifies data
      ensures cur <= lay.bpg && |idxs| <= max && (|idxs| < max ==> cur == lay.bpg)
      ensures Pickable(old(Bits(data[..])), lay, zones, g, idxs)
      ensures Bits(data[..]) == MarkAll(old(Bits(data[..])), idxs) && Scanned(Bits(data[..]), lay, zones, g, cur)
      ensures idxs == Upto(FreeIdx(old(Bits(data[..])), lay, zones, g, lay.bpg), max)
    {
      hide Bits, InZone, MarkAll, Layout.AddrOf, FreeIdx;
      ghost var was := Bits(data[..]);
      idxs, cur := [], 0;
      PickNone(was, lay, zones, g);
      FreeIdxNone(was, lay, zones, g);
      while |idxs| < max && cur < lay.bpg
        invariant cur <= lay.bpg && |idxs| <= max && Pickable(was, lay, zones, g, idxs) && Below(idxs, cur)
        invariant Bits(data[..]) == MarkAll(was, idxs) && Scanned(Bits(data[..]), lay, zones, g, cur)
        invariant idxs == FreeIdx(was, lay, zones, g, cur)
      {
        if cur >= data.Length * 8 {
          break;
        }
        var inUse := IsSet(data[..], cur);
        FreeIdxNext(was, lay, zones, g, cur, idxs);
        if !inUse {
          var reserved := IsReserved(zones, lay.AddrOf(cur, g));
          if reserved {
            cur := cur + 1;
            continue;
          }
          PickMore(was, lay, zones, g, idxs, cur);
          BitSet(data, cur);
          idxs := idxs + [cur];
        }
        cur := cur + 1;
      }
      FreeIdxPrefix(was, lay, zones, g, cur, lay.bpg);
    }

    /** Take up to `max` blocks of group `g`, lowest first, and account for them. */
    method TakeFromGroup(g: nat, max: nat) returns (idxs: seq<nat>)
      requires Valid() && g < |groups| && max <= groups[g].free
      modifies this
      ensures Valid() && |groups| == |old(groups)|
      ensures |idxs| <= max && Pickable(Bits(old(groups)[g].bitmap), lay, zones, g, idxs)
      ensures |groups[g].bitmap| == |old(groups)[g].bitmap|
      ensures Bits(groups[g].bitmap) == MarkAll(Bits(old(groups)[g].bitmap), idxs)
      ensures groups == old(groups)[g := groups[g]]
      ensures |idxs| == max || Spent(groups, lay, zones, g, 0)
      ensures lay.bpg <= 8 * |old(groups)[g].bitmap|
      ensures idxs == Upto(FreeIdx(Bits(old(groups)[g].bitmap), lay, zones, g, lay.bpg), max)
      ensures sbFree + |idxs| == old(sbFree) && inodeBlocks == old(inodeBlocks) + |idxs| * blockUnits
    {
      hide Total, Bits, InZone, MarkAll, CountClear, Layout.AddrOf, FreeIdx, Spent;
      ghost var gs := groups;
      assert ExactGroup(groups[g], lay.bpg);
      var bitmap := groups[g].bitmap;
      var n := |bitmap|;
      var data := new bv8[n](k requires 0 <= k < n => bitmap[k]);
      assert data[..] == bitmap;
      var cur;
      idxs, cur := PickInGroup(g, max, data);
      // The search loop that follows starts at the end of the group, so its first probe ends it.
      if |idxs| < max {
        var r := FindClr(data, cur, if lay.bpg < n * 8 then lay.bpg else n * 8);
        assert r == None;
      }
      TakenGroup(gs, lay, zones, g, Group(data[..], gs[g].free - |idxs|), idxs, max, cur);
      if |idxs| > 0 {
        groups := groups[g := Group(data[..], groups[g].free - |idxs|)];
        sbFree := sbFree - |idxs|;
        inodeBlocks := inodeBlocks + |idxs| * blockUnits;
      }
    }

    /** One group's turn: skip it when its counter says it is full. */
    method BatchGroup(g: nat, remaining: nat, ghost gs: Groups, ghost result: seq<nat>) returns (blocks: seq<nat>)
      requires Valid() && g < |groups| && Allocated(gs, groups, lay, zones, result) && remaining > 0
      modifies this
      ensures Valid() && |groups| == |old(groups)| && |blocks| <= remaining
      ensures groups == old(groups)[g := groups[g]] && lay.bpg <= 8 * |old(groups)[g].bitmap|
      ensures blocks == Upto(FreeOf(old(groups), lay, zones, g), remaining)
      ensures Allocated(gs, groups, lay, zones, result + blocks)
      ensures |blocks| < remaining ==> Spent(groups, lay, zones, g, 0)
      ensures forall h: nat :: h < |groups| && h != g && Spent(old(groups), lay, zones, h, 0) ==>
              Spent(groups, lay, zones, h, 0)
      ensures sbFree + |blocks| == old(sbFree) && inodeBlocks == old(inodeBlocks) + |blocks| * blockUnits
    {
      hide Exact, Total, Allocated, Spent, MarkAll, Pickable, Addresses, Bits, FreeOf;
      ghost var before := groups;
      var free := groups[g].free;
      FreeOfCount(groups, lay, zones, g, remaining);
      if free == 0 {
        NoneFree(groups, lay, zones, g);
        assert result + [] == result;
        return [];
      }
      var idxs := TakeFromGroup(g, if remaining < free then remaining else free);
      AllocatedMore(gs, before, groups, lay, zones, result, g, idxs);
      GroupSpent(before, groups, lay, zones, g, idxs, free);
      SpentKept(before, groups, lay, zones, g);
      FreeOfUpto(before, lay, zones, g, remaining, idxs);
      return Addresses(lay, g, idxs);
    }

    /**
     Allocate up to `count` blocks, group by group from `start` on, each group once: the lowest free ones of each,
         and the
     next group only when one has no more. Also answers the group to go on with.
     */
    method AllocBatch(start: nat, count: nat) returns (r: Result<seq<nat>>, next: nat)
      requires Valid()
      modifies this
      ensures r.Err? <==> count > 0 && groups == []
      ensures r.Err? ==>
              r == Err(EINVAL) && groups == old(groups) && sbFree == old(sbFree) && inodeBlocks == old(inodeBlocks)
      ensures r.Ok? ==>
                && Valid() && |groups| == |old(groups)| && |r.value| <= count
                && Allocated(old(groups), groups, lay, zones, r.value)
                && sbFree + |r.value| == old(sbFree) && inodeBlocks == old(inodeBlocks) + |r.value| * blockUnits
                && (|r.value| < count ==> forall g: nat :: g < |groups| ==> Spent(groups, lay, zones, g, 0))
      ensures r.Err? || count == 0 ==> next == start
      ensures r.Ok? && count > 0 ==>
                var n, first := |old(groups)|, if start < |old(groups)| then start else 0;
                && n > 0 && Sized(old(groups), lay)
                && r.value == Upto(FreeFrom(old(groups), lay, zones, first, n), count)
                && exists k: nat :: EndsAfter(old(groups), lay, zones, first, count, k) && next == Turn(first, k, n)
    {
      hide Exact, Total, Allocated, Spent, FreeFrom, FreeOf, Sized, EndsAfter, Distance, BatchState, Turn, Upto;
      AllSized(groups, lay);
      NothingAllocated(groups, lay, zones);
      if count == 0 {
        return Ok([]), start;
      }
      var n := |groups|;
      if n == 0 {
        return Err(EINVAL), start;
      }
      ghost var gs := groups;
      var bgid: nat := if start >= n then 0 else start;
      ghost var first: nat := bgid;
      var result: seq<nat> := [];
      var remaining, checked := count, 0;
      BatchStarts(gs, lay, zones, first, count);
      Distances(first, n);
      while remaining > 0 && checked < n
        invariant Valid() && |groups| == n && 0 <= checked <= n && bgid < n && 0 <= remaining
        invariant |result| + remaining == count
        invariant checked < n ==> Distance(first, bgid, n) == checked
        invariant bgid == Turn(first, checked, n) && BatchState(gs, groups, lay, zones, first, count, checked, result)
        invariant Allocated(gs, groups, lay, zones, result)
        invariant sbFree + |result| == old(sbFree) && inodeBlocks == old(inodeBlocks) + |result| * blockUnits
        invariant remaining > 0 ==> forall g: nat :: g < n && Distance(first, g, n) < checked ==>
                Spent(groups, lay, zones, g, 0)
        decreases n - checked
      {
        NextGroup(first, bgid, n, checked);
        ghost var before := groups;
        BatchUnchanged(gs, groups, lay, zones, first, count, checked, result);
        var blocks := BatchGroup(bgid, remaining, gs, result);
        BatchNext(gs, before, groups, lay, zones, first, count, checked, result, blocks);
        Units(|result|, |blocks|, blockUnits);
        result := result + blocks;
        remaining := remaining - |blocks|;
        bgid := NextBgid(bgid, n);
        checked := checked + 1;
      }
      BatchEnds(gs, groups, lay, zones, first, count, checked, result);
      return Ok(result), bgid;
    }

    // ---- single allocation -------------------------------------------------------------------------------

    /** Mark one free block of group `g` and account for it. */
    method TakeOne(g: nat, i: nat, data: array<bv8>) returns (b: nat)
      requires Valid() && g < |groups| && i < lay.bpg && data[..] == groups[g].bitmap
      requires !Used(groups, lay.bpg, g, i) && !InZone(zones, lay.AddrOf(i, g))
      modifies this, data
      ensures Valid() && b == lay.AddrOf(i, g) && Allocated(old(groups), groups, lay, zones, [b])
      ensures sbFree + 1 == old(sbFree) && inodeBlocks == old(inodeBlocks) + blockUnits
    {
      hide Total, Bits, InZone, MarkAll, CountClear, Layout.AddrOf, Allocated, Exact, Used;
      ghost var gs, was := groups, Bits(data[..]);
      OnePick(gs, lay, zones, g, i);
      BitSet(data, i);
      MarkOne(was, i);
      TakenGroup(gs, lay, zones, g, Group(data[..], gs[g].free - 1), [i], 1, 0);
      groups := groups[g := Group(data[..], groups[g].free - 1)];
      sbFree := sbFree - 1;
      inodeBlocks := inodeBlocks + blockUnits;
      NothingAllocated(gs, lay, zones);
      AllocatedMore(gs, gs, groups, lay, zones, [], g, [i]);
      b := lay.AddrOf(i, g);
      assert [] + Addresses(lay, g, [i]) == [b];
    }

    /**
     Search one group from index `from`: that block, then its 64-block neighbourhood, then the first clear
     bit behind it.
     */
    method AllocInGroup(g: nat, from: nat) returns (r: Option<nat>)
      requires Valid() && g < |groups| && from < lay.bpg
      modifies this
      ensures r.Some? ==> Valid() && Allocated(old(groups), groups, lay, zones, [r.value])
                          && sbFree + 1 == old(sbFree) && inodeBlocks == old(inodeBlocks) + blockUnits
      ensures r.Some? ==> exists i: nat :: PickedAt(old(groups), lay, zones, g, from, i) && r.value == lay.AddrOf(i, g)
      ensures r.None? ==> NoPick(groups, lay, zones, g, from)
      ensures r.None? ==> groups == old(groups) && sbFree == old(sbFree) && inodeBlocks == old(inodeBlocks)
      ensures r.None? && ZonesMarked(groups, lay, zones) ==> FullFrom(groups, lay, g, from)
    {
      hide Total, Bits, InZone, CountClear, Layout.AddrOf, Allocated, Exact, IsSet, FreeBetween, PickedAt, NoPick;
      ghost var gs := groups;
      var bitmap := groups[g].bitmap;
      GroupSized(groups, lay.bpg, g);
      var n := |bitmap|;
      var data := new bv8[n](k requires 0 <= k < n => bitmap[k]);
      assert data[..] == bitmap;
      if !IsSet(data[..], from) {
        var reserved := IsReserved(zones, lay.AddrOf(from, g));
        if !reserved {
          PickFirst(gs, lay, zones, g, from);
          var b := TakeOne(g, from, data);
          return Some(b);
        }
      }
      NotAtFrom(gs, lay, zones, g, from);
      var near := (from + 63) / 64 * 64;
      var end := if near < lay.bpg then near else lay.bpg;
      var i := from + 1;
      while i < end
        invariant from < i && groups == old(groups) && Valid() && sbFree == old(sbFree)
        invariant inodeBlocks == old(inodeBlocks) && FreeBetween(gs, lay, zones, g, from, i)
        invariant fresh(data) && data[..] == bitmap
        decreases end - i
      {
        if !IsSet(data[..], i) {
          var reserved := IsReserved(zones, lay.AddrOf(i, g));
          if !reserved {
            PickNear(gs, lay, zones, g, from, i);
            var b := TakeOne(g, i, data);
            return Some(b);
          }
        }
        FreeBetweenNext(gs, lay, zones, g, from, i);
        i := i + 1;
      }
      var found := FindClr(data, from, lay.bpg);
      if found.Some? {
        var reserved := IsReserved(zones, lay.AddrOf(found.value, g));
        if !reserved {
          PickFar(gs, lay, zones, g, from, i, found.value);
          var b := TakeOne(g, found.value, data);
          return Some(b);
        }
      }
      NotFound(groups, lay, zones, g, from, found);
      PickNothing(gs, lay, zones, g, from, i, found);
      return None;
    }

    /**
     Allocate one block, from the goal's group on; the goal's index is where the search starts in every group. The first
     group with a block to pick gives it.
     */
    method AllocBlock(goal: Option<nat>) returns (r: Result<nat>)
      requires Valid() && (goal.Some? ==> lay.GroupOf(goal.value) < |groups|)
      modifies this
      ensures r.Ok? ==> Valid() && Allocated(old(groups), groups, lay, zones, [r.value])
                        && sbFree + 1 == old(sbFree) && inodeBlocks == old(inodeBlocks) + blockUnits
      ensures r.Err? ==>
              r == Err(ENOSPC) && groups == old(groups) && sbFree == old(sbFree) && inodeBlocks == old(inodeBlocks)
      ensures r.Ok? ==>
                exists k: nat, i: nat ::
                  && FirstPick(old(groups), lay, zones, GoalGroup(lay, goal), GoalIndex(lay, goal), k, i)
                  && r.value == lay.AddrOf(i, Turn(GoalGroup(lay, goal), k, |old(groups)|))
      ensures r.Err? ==>
                forall g: nat :: g < |old(groups)| ==> NoPick(old(groups), lay, zones, g, GoalIndex(lay, goal))
      ensures ZonesMarked(old(groups), lay, zones) ==>
                (r.Err? <==> forall g: nat :: g < |old(groups)| ==> FullFrom(old(groups), lay, g, GoalIndex(lay, goal)))
    {
      hide Total, Allocated, Exact, Distance, FullFrom, ZonesMarked, Layout.GroupOf, Layout.IdxOf, PickedAt, NoPick;
      hide Layout.AddrOf;
      var n := |groups|;
      var bgid: nat := if goal.Some? then lay.GroupOf(goal.value) else 0;
      ghost var gs := groups;
      var from := GoalIndex(lay, goal);
      ghost var first := bgid;
      var checked := 0;
      if n > 0 {
        Distances(first, n);
      }
      while checked < n
        invariant checked <= n && (n > 0 ==> bgid < n) && groups == old(groups) && Valid()
        invariant sbFree == old(sbFree) && inodeBlocks == old(inodeBlocks)
        invariant 0 <= checked < n ==> Distance(first, bgid, n) == checked
        invariant n > 0 ==> bgid == Turn(first, checked, n)
        invariant n > 0 ==> forall k: nat :: k < checked ==> NoPick(gs, lay, zones, Turn(first, k, n), from)
        invariant ZonesMarked(groups, lay, zones) && n > 0 ==>
                    forall g: nat :: g < n && Distance(first, g, n) < checked ==> FullFrom(groups, lay, g, from)
        decreases n - checked
      {
        NextGroup(first, bgid, n, checked);
        if groups[bgid].free == 0 {
          NoneFreeFrom(groups, lay, bgid, from);
          FullNoPick(groups, lay, zones, bgid, from);
        } else {
          var b := AllocInGroup(bgid, from);
          if b.Some? {
            ghost var i: nat :| PickedAt(gs, lay, zones, bgid, from, i) && b.value == lay.AddrOf(i, bgid);
            TookFrom(gs, groups, lay, zones, bgid, from, i);
            assert FirstPick(gs, lay, zones, GoalGroup(lay, goal), from, checked, i);
            return Ok(b.value);
          }
        }
        bgid := NextBgid(bgid, n);
        checked := checked + 1;
      }
      AllTurns(gs, lay, zones, first, from);
      return Err(ENOSPC);
    }

    // ---- freeing -----------------------------------------------------------------------------------------

    /** Clear `cnt` bits of one group and give them back to its count. */
    method FreeInGroup(g: nat, idx: nat, cnt: nat)
      requires Valid() && g < |groups| && cnt > 0 && idx + cnt <= lay.bpg
      requires forall i: nat :: idx <= i < idx + cnt ==> Used(groups, lay.bpg, g, i)
      requires inodeBlocks >= cnt * blockUnits
      modifies this
      ensures Valid() && |groups| == |old(groups)|
      ensures forall h: nat, i: nat :: h < |groups| && i < lay.bpg ==>
                (Used(groups, lay.bpg, h, i) <==> Used(old(groups), lay.bpg, h, i) && !(h == g && idx <= i < idx + cnt))
      ensures sbFree == old(sbFree) + cnt && inodeBlocks + cnt * blockUnits == old(inodeBlocks)
    {
      hide Total, Bits, CountClear, Exact, IsSet, Used;
      ghost var gs := groups;
      var bitmap := groups[g].bitmap;
      GroupSized(groups, lay.bpg, g);
      var n := |bitmap|;
      var data := new bv8[n](k requires 0 <= k < n => bitmap[k]);
      assert data[..] == bitmap;
      BitsFree(data, idx, idx + cnt - 1);
      FreedGroup(gs, lay, g, Group(data[..], gs[g].free + cnt), idx, cnt);
      groups := groups[g := Group(data[..], groups[g].free + cnt)];
      sbFree := sbFree + cnt;
      inodeBlocks := inodeBlocks - cnt * blockUnits;
    }

    /** Free the blocks `start .. start + count`, which may lie in several groups. */
    method FreeBlocks(start: nat, count: nat)
      requires Valid() && count > 0 && lay.Base() <= start && start + count <= lay.FirstOf(|groups|)
      requires forall g: nat, i: nat :: g < |groups| && i < lay.bpg && start <= lay.AddrOf(i, g) < start + count ==>
               Used(groups, lay.bpg, g, i)
      requires inodeBlocks >= count * blockUnits
      modifies this
      ensures Valid() && |groups| == |old(groups)|
      ensures forall g: nat, i: nat :: g < |groups| && i < lay.bpg ==>
                (Used(groups, lay.bpg, g, i) <==>
                    Used(old(groups), lay.bpg, g, i) && !(start <= lay.AddrOf(i, g) < start + count))
      ensures sbFree == old(sbFree) + count && inodeBlocks + count * blockUnits == old(inodeBlocks)
    {
      hide Total, Exact, Used, Layout.GroupOf, Layout.IdxOf, Layout.AddrOf, Layout.FirstOf, Layout.Base;
      ghost var gs := groups;
      var from: nat, left: nat := start, count;
      RangeEnd(lay, start, count, if count < lay.bpg - lay.IdxOf(start) then count else lay.bpg - lay.IdxOf(start));
      var bgFirst, bgLast := lay.GroupOf(start), lay.GroupOf(start + count - 1);
      while bgFirst <= bgLast
        invariant Valid() && |groups| == |gs| && from + left == start + count && start <= from
        invariant left > 0 <==> bgFirst <= bgLast
        invariant left > 0 ==> lay.GroupOf(from) == bgFirst && lay.GroupOf(from + left - 1) == bgLast
        invariant Unmarked(gs, groups, lay, start, from)
        invariant sbFree + left == old(sbFree) + count
        invariant inodeBlocks + count * blockUnits == old(inodeBlocks) + left * blockUnits
        decreases left
      {
        var bgid, idx := lay.GroupOf(from), lay.IdxOf(from);
        var room := lay.bpg - idx;
        var cnt := if left < room then left else room;
        FreeStep(gs, groups, lay, start, from, left, cnt);
        LeftUnits(count, left, cnt, blockUnits);
        FreeInGroup(bgid, idx, cnt);
        left := left - cnt;
        from := from + cnt;
        bgFirst := bgFirst + 1;
      }
    }
  }

  function NextBgid(bgid: nat, n: nat): (r: nat)
    requires bgid < n
    ensures r < n && r == if bgid + 1 == n then 0 else bgid + 1
  {
    (bgid + 1) % n
  }

  // ---- batch allocation, step by step ------------------------------------------------------------------

  lemma PickNone(bits: seq<bool>, lay: Layout, zones: seq<Zone>, g: nat)
    ensures Pickable(bits, lay, zones, g, []) && Below([], 0) && MarkAll(bits, []) == bits
    ensures Scanned(bits, lay, zones, g, 0)
  {
  }

  lemma PickMore(bits: seq<bool>, lay: Layout, zones: seq<Zone>, g: nat, idxs: seq<nat>, cur: nat)
    requires Pickable(bits, lay, zones, g, idxs) && Below(idxs, cur) && cur < lay.bpg <= |bits|
    requires !MarkAll(bits, idxs)[cur] && !InZone(zones, lay.AddrOf(cur, g))
    ensures Pickable(bits, lay, zones, g, idxs + [cur]) && Below(idxs + [cur], cur + 1)
    ensures MarkAll(bits, idxs + [cur]) == MarkAll(bits, idxs)[cur := true]
  {
    hide InZone, Layout.AddrOf, MarkAll;
    MarkAllFacts(bits, idxs);
    MarkMore(bits, idxs, cur);
  }

  /** What the index at `cur` adds to the free ones. */
  lemma FreeIdxNext(bits: seq<bool>, lay: Layout, zones: seq<Zone>, g: nat, cur: nat, idxs: seq<nat>)
    requires cur < lay.bpg <= |bits| && Pickable(bits, lay, zones, g, idxs) && Below(idxs, cur)
    ensures |MarkAll(bits, idxs)| == |bits| && MarkAll(bits, idxs)[cur] == bits[cur]
    ensures FreeIdx(bits, lay, zones, g, cur + 1)
         == FreeIdx(bits, lay, zones, g, cur)
            + if bits[cur] || InZone(zones, lay.AddrOf(cur, g)) then [] else [cur]
  {
    hide InZone, Layout.AddrOf, MarkAll;
    MarkAllFacts(bits, idxs);
  }

  /** One group's bitmap and counters changed together. */
  lemma TakenGroup(gs: Groups, lay: Layout, zones: seq<Zone>, g: nat, x: Group, idxs: seq<nat>, max: nat, cur: nat)
    requires Exact(gs, lay.bpg) && g < |gs| && |idxs| <= max <= gs[g].free && x.free == gs[g].free - |idxs|
    requires Pickable(Bits(gs[g].bitmap), lay, zones, g, idxs) && |x.bitmap| == |gs[g].bitmap|
    requires Bits(x.bitmap) == MarkAll(Bits(gs[g].bitmap), idxs)
    requires cur <= lay.bpg <= |Bits(x.bitmap)| && Scanned(Bits(x.bitmap), lay, zones, g, cur)
    requires (|idxs| < max ==> cur == lay.bpg)
    ensures Exact(gs[g := x], lay.bpg) && Total(gs[g := x]) + |idxs| == Total(gs) && |idxs| <= Total(gs)
    ensures |idxs| == max || Spent(gs[g := x], lay, zones, g, 0)
    ensures idxs == [] ==> |idxs| == max || Spent(gs, lay, zones, g, 0)
    ensures idxs == [] ==> Bits(gs[g].bitmap) == MarkAll(Bits(gs[g].bitmap), idxs)
  {
    hide InZone, Layout.AddrOf, CountClear, Total, IsSet;
    var was, n := Bits(gs[g].bitmap), lay.bpg;
    assert ExactGroup(gs[g], n);
    MarkPrefix(was, idxs, n);
    assert forall k :: 0 <= k < |idxs| ==> was[..n][idxs[k]] == was[idxs[k]];
    MarkAllCount(was[..n], idxs);
    assert ExactGroup(x, n);
    TotalUpdate(gs, g, x);
    assert forall h :: 0 <= h < |gs| ==> ExactGroup(gs[h], n);
  }

  // ---- the order of a batch -----------------------------------------------------------------------------

  lemma AllSized(gs: Groups, lay: Layout)
    requires Exact(gs, lay.bpg)
    ensures Sized(gs, lay)
  {
    forall g | 0 <= g < |gs|
      ensures lay.bpg <= 8 * |gs[g].bitmap|
    {
      assert ExactGroup(gs[g], lay.bpg);
    }
  }

  /** A group hands out no more than its counter says. */
  lemma FreeOfCount(gs: Groups, lay: Layout, zones: seq<Zone>, g: nat, n: nat)
    requires Exact(gs, lay.bpg) && g < |gs|
    ensures lay.bpg <= 8 * |gs[g].bitmap| && |FreeIdx(Bits(gs[g].bitmap), lay, zones, g, lay.bpg)| <= gs[g].free
    ensures gs[g].free == 0 ==> Upto(FreeOf(gs, lay, zones, g), n) == []
  {
    hide InZone, Layout.AddrOf, CountClear, FreeIdx;
    assert ExactGroup(gs[g], lay.bpg);
    FreeIdxCount(Bits(gs[g].bitmap), lay, zones, g, lay.bpg);
  }

  lemma FreeOfUpto(gs: Groups, lay: Layout, zones: seq<Zone>, g: nat, n: nat, idxs: seq<nat>)
    requires Exact(gs, lay.bpg) && g < |gs| && lay.bpg <= 8 * |gs[g].bitmap|
    requires idxs == Upto(FreeIdx(Bits(gs[g].bitmap), lay, zones, g, lay.bpg),
                          if n < gs[g].free then n else gs[g].free)
    ensures Addresses(lay, g, idxs) == Upto(FreeOf(gs, lay, zones, g), n)
  {
    hide InZone, Layout.AddrOf, CountClear, FreeIdx, Exact;
    FreeOfCount(gs, lay, zones, g, n);
  }

  /** After `k` groups: the blocks so far are the first `count` of theirs, and the groups to come are as they were. */
  ghost predicate BatchState(gs: Groups, now: Groups, lay: Layout, zones: seq<Zone>, first: nat, count: nat, k: nat,
      result: seq<nat>)
    requires first < |gs| && Sized(gs, lay)
  {
    && k <= |gs| == |now| && result == Upto(FreeFrom(gs, lay, zones, first, k), count)
    && (forall h: nat :: h < |gs| && Distance(first, h, |gs|) >= k ==> now[h] == gs[h])
    && (k > 0 ==> |FreeFrom(gs, lay, zones, first, k - 1)| < count)
  }

  lemma BatchStarts(gs: Groups, lay: Layout, zones: seq<Zone>, first: nat, count: nat)
    requires first < |gs| && Sized(gs, lay)
    ensures BatchState(gs, gs, lay, zones, first, count, 0, []) && Turn(first, 0, |gs|) == first
  {
  }

  lemma BatchUnchanged(gs: Groups, now: Groups, lay: Layout, zones: seq<Zone>, first: nat, count: nat, k: nat,
      result: seq<nat>)
    requires first < |gs| && Sized(gs, lay) && k < |gs| && BatchState(gs, now, lay, zones, first, count, k, result)
    ensures var g := Turn(first, k, |gs|); |now| == |gs| && now[g] == gs[g]
  {
    hide FreeFrom;
    assert Distance(first, Turn(first, k, |gs|), |gs|) == k;
  }

  lemma BatchNext(gs: Groups, before: Groups, now: Groups, lay: Layout, zones: seq<Zone>, first: nat, count: nat,
      k: nat,
      result: seq<nat>, blocks: seq<nat>)
    requires first < |gs| && Sized(gs, lay) && k < |gs| && BatchState(gs, before, lay, zones, first, count, k, result)
    requires |result| < count
    requires var g := Turn(first, k, |gs|);
             && |before| == |gs| == |now| && now == before[g := now[g]] && lay.bpg <= 8 * |before[g].bitmap|
             && blocks == Upto(FreeOf(before, lay, zones, g), count - |result|)
    ensures BatchState(gs, now, lay, zones, first, count, k + 1, result + blocks)
    ensures Turn(first, k + 1, |gs|) == NextBgid(Turn(first, k, |gs|), |gs|)
  {
    hide FreeFrom, FreeIdx, Layout.AddrOf;
    var g := Turn(first, k, |gs|);
    BatchUnchanged(gs, before, lay, zones, first, count, k, result);
    FreeFromNext(gs, lay, zones, first, k);
    assert FreeOf(before, lay, zones, g) == FreeOf(gs, lay, zones, g);
    hide FreeOf;
    var sofar := FreeFrom(gs, lay, zones, first, k);
    assert result == sofar;
    UptoMore(sofar, FreeOf(gs, lay, zones, g), count);
    forall h: nat | h < |gs| && Distance(first, h, |gs|) >= k + 1
      ensures now[h] == gs[h]
    {
      assert Distance(first, g, |gs|) == k;
    }
  }

  lemma BatchEnds(gs: Groups, now: Groups, lay: Layout, zones: seq<Zone>, first: nat, count: nat, k: nat,
      result: seq<nat>)
    requires first < |gs| && Sized(gs, lay) && k <= |gs| && BatchState(gs, now, lay, zones, first, count, k, result)
    requires |result| == count || k == |gs|
    ensures result == Upto(FreeFrom(gs, lay, zones, first, |gs|), count) && EndsAfter(gs, lay, zones, first, count, k)
  {
    hide FreeFrom;
    if k < |gs| {
      FreeFromPrefix(gs, lay, zones, first, k, |gs|);
      UptoPrefix(FreeFrom(gs, lay, zones, first, k), FreeFrom(gs, lay, zones, first, |gs|), count);
    }
  }

  // ---- the meaning of an allocation -------------------------------------------------------------------

  /** `b` is block `i` of group `g`, free before and outside the system zones. */
  predicate WasFree(gs: Groups, lay: Layout, zones: seq<Zone>, b: nat, g: nat, i: nat) {
    && g < |gs| && i < lay.bpg && b == lay.AddrOf(i, g)
    && !Used(gs, lay.bpg, g, i) && !InZone(zones, b)
  }

  ghost predicate AllFree(was: Groups, lay: Layout, zones: seq<Zone>, blocks: seq<nat>) {
    forall k :: 0 <= k < |blocks| ==> FreeSomewhere(was, lay, zones, blocks[k])
  }

  ghost predicate FreeSomewhere(was: Groups, lay: Layout, zones: seq<Zone>, b: nat) {
    exists g: nat, i: nat :: WasFree(was, lay, zones, b, g, i)
  }

  predicate NoRepeats(blocks: seq<nat>) {
    forall j, k :: 0 <= j < k < |blocks| ==> blocks[j] != blocks[k]
  }

  ghost predicate NowUsed(was: Groups, now: Groups, lay: Layout, blocks: seq<nat>) {
    forall g: nat, i: nat :: g < |was| && i < lay.bpg ==>
      (Used(now, lay.bpg, g, i) <==> Used(was, lay.bpg, g, i) || lay.AddrOf(i, g) in blocks)
  }

  /** Exactly `blocks` went from free to used: they are distinct, were free and are no system blocks. */
  ghost predicate Allocated(was: Groups, now: Groups, lay: Layout, zones: seq<Zone>, blocks: seq<nat>) {
    |now| == |was| && AllFree(was, lay, zones, blocks) && NoRepeats(blocks) && NowUsed(was, now, lay, blocks)
  }

  lemma NothingAllocated(gs: Groups, lay: Layout, zones: seq<Zone>)
    ensures Allocated(gs, gs, lay, zones, [])
  {
  }

  /** Which blocks of the groups one group's marks change. */
  lemma GroupMarked(before: Groups, now: Groups, lay: Layout, zones: seq<Zone>, g: nat, idxs: seq<nat>, h: nat, i: nat)
    requires Exact(before, lay.bpg) && Exact(now, lay.bpg) && g < |before| && |now| == |before|
    requires now == before[g := now[g]]
    requires Pickable(Bits(before[g].bitmap), lay, zones, g, idxs)
    requires Bits(now[g].bitmap) == MarkAll(Bits(before[g].bitmap), idxs)
    requires h < |before| && i < lay.bpg
    ensures Used(now, lay.bpg, h, i) <==> Used(before, lay.bpg, h, i) || (h == g && i in idxs)
  {
    hide InZone, Layout.AddrOf, CountClear, IsSet;
    assert ExactGroup(before[h], lay.bpg) && ExactGroup(now[h], lay.bpg) && ExactGroup(before[g], lay.bpg);
    MarkAllFacts(Bits(before[g].bitmap), idxs);
  }

  lemma InAddresses(lay: Layout, g: nat, idxs: seq<nat>, h: nat, i: nat)
    requires lay.bpg > 0 && i < lay.bpg && forall k :: 0 <= k < |idxs| ==> idxs[k] < lay.bpg
    ensures lay.AddrOf(i, h) in Addresses(lay, g, idxs) <==> h == g && i in idxs
  {
    hide Layout.AddrOf;
    var r := Addresses(lay, g, idxs);
    if lay.AddrOf(i, h) in r {
      var k :| 0 <= k < |r| && r[k] == lay.AddrOf(i, h);
      AddressInjective(lay, h, i, g, idxs[k]);
    }
    if h == g && i in idxs {
      var k :| 0 <= k < |idxs| && idxs[k] == i;
      assert r[k] == lay.AddrOf(i, h);
    }
  }

  lemma AllocatedMore(was: Groups, before: Groups, now: Groups, lay: Layout, zones: seq<Zone>, blocks: seq<nat>, g: nat,
      idxs: seq<nat>)
    requires Allocated(was, before, lay, zones, blocks) && lay.bpg > 0
    requires Exact(before, lay.bpg) && Exact(now, lay.bpg) && g < |before| && |now| == |before|
    requires now == before[g := now[g]]
    requires Pickable(Bits(before[g].bitmap), lay, zones, g, idxs)
    requires Bits(now[g].bitmap) == MarkAll(Bits(before[g].bitmap), idxs)
    ensures Allocated(was, now, lay, zones, blocks + Addresses(lay, g, idxs))
  {
    hide InZone, Layout.AddrOf, Exact, Bits, Used, MarkAll, WasFree, AllFree, NowUsed, NoRepeats, Rising;
    var more := Addresses(lay, g, idxs);
    UsedMore(was, before, now, lay, zones, blocks, g, idxs);
    forall k: nat | k < |idxs|
      ensures WasFree(was, lay, zones, more[k], g, idxs[k]) && more[k] !in blocks
    {
      PickedWasFree(was, before, lay, zones, blocks, g, idxs, k);
    }
    FreeMore(was, lay, zones, blocks, g, idxs);
    StillDistinct(lay, blocks, g, idxs);
  }

  lemma FreeMore(was: Groups, lay: Layout, zones: seq<Zone>, blocks: seq<nat>, g: nat, idxs: seq<nat>)
    requires AllFree(was, lay, zones, blocks)
    requires forall k: nat :: k < |idxs| ==> WasFree(was, lay, zones, Addresses(lay, g, idxs)[k], g, idxs[k])
    ensures AllFree(was, lay, zones, blocks + Addresses(lay, g, idxs))
  {
    hide InZone, Layout.AddrOf, Used;
    var more := Addresses(lay, g, idxs);
    var all := blocks + more;
    forall k | 0 <= k < |all|
      ensures FreeSomewhere(was, lay, zones, all[k])
    {
      if k < |blocks| {
        assert all[k] == blocks[k];
      } else {
        var d: nat := k - |blocks|;
        assert all[k] == more[d] && WasFree(was, lay, zones, more[d], g, idxs[d]);
      }
    }
  }

  lemma UsedMore(was: Groups, before: Groups, now: Groups, lay: Layout, zones: seq<Zone>, blocks: seq<nat>, g: nat,
      idxs: seq<nat>)
    requires |before| == |was| && NowUsed(was, before, lay, blocks) && lay.bpg > 0
    requires Exact(before, lay.bpg) && Exact(now, lay.bpg) && g < |before| && |now| == |before|
    requires now == before[g := now[g]]
    requires Pickable(Bits(before[g].bitmap), lay, zones, g, idxs)
    requires Bits(now[g].bitmap) == MarkAll(Bits(before[g].bitmap), idxs)
    ensures NowUsed(was, now, lay, blocks + Addresses(lay, g, idxs))
  {
    hide InZone, Layout.AddrOf, Exact, Bits, Used, MarkAll, Rising;
    var all := blocks + Addresses(lay, g, idxs);
    forall h: nat, i: nat | h < |was| && i < lay.bpg
      ensures Used(now, lay.bpg, h, i) <==> Used(was, lay.bpg, h, i) || lay.AddrOf(i, h) in all
    {
      GroupMarked(before, now, lay, zones, g, idxs, h, i);
      InAddresses(lay, g, idxs, h, i);
      assert lay.AddrOf(i, h) in all <==> lay.AddrOf(i, h) in blocks || lay.AddrOf(i, h) in Addresses(lay, g, idxs);
    }
  }

  lemma StillDistinct(lay: Layout, blocks: seq<nat>, g: nat, idxs: seq<nat>)
    requires Rising(idxs) && NoRepeats(blocks)
    requires forall k: nat :: k < |idxs| ==> Addresses(lay, g, idxs)[k] !in blocks
    ensures NoRepeats(blocks + Addresses(lay, g, idxs))
  {
    hide Layout.AddrOf;
    var more := Addresses(lay, g, idxs);
    var all := blocks + more;
    forall j, k | 0 <= j < k < |all|
      ensures all[j] != all[k]
    {
      if j >= |blocks| {
        AddressOrder(lay, g, idxs, j - |blocks|, k - |blocks|);
      } else if k >= |blocks| {
        assert more[k - |blocks|] !in blocks && all[j] in blocks;
      }
    }
  }

  lemma PickedWasFree(was: Groups, before: Groups, lay: Layout, zones: seq<Zone>, blocks: seq<nat>, g: nat,
      idxs: seq<nat>, k: nat)
    requires Allocated(was, before, lay, zones, blocks) && g < |before| && k < |idxs|
    requires Exact(before, lay.bpg) && Pickable(Bits(before[g].bitmap), lay, zones, g, idxs)
    ensures var b := Addresses(lay, g, idxs)[k];
            WasFree(was, lay, zones, b, g, idxs[k]) && b !in blocks
  {
    hide InZone, Layout.AddrOf, CountClear, IsSet;
    assert ExactGroup(before[g], lay.bpg);
    assert !Used(before, lay.bpg, g, idxs[k]);
  }

  lemma AddressOrder(lay: Layout, g: nat, idxs: seq<nat>, j: nat, k: nat)
    requires Rising(idxs) && j < k < |idxs|
    ensures lay.AddrOf(idxs[j], g) != lay.AddrOf(idxs[k], g)
  {
  }

  /** A group without free blocks has nothing to hand out. */
  lemma NoneFree(gs: Groups, lay: Layout, zones: seq<Zone>, g: nat)
    requires Exact(gs, lay.bpg) && g < |gs| && gs[g].free == 0
    ensures Spent(gs, lay, zones, g, 0)
  {
    hide InZone, Layout.AddrOf, IsSet;
    assert ExactGroup(gs[g], lay.bpg);
    NoneClear(GroupBits(gs[g], lay.bpg));
  }

  /** Having taken as many blocks as were free leaves none. */
  lemma GroupSpent(before: Groups, now: Groups, lay: Layout, zones: seq<Zone>, g: nat, idxs: seq<nat>, free: nat)
    requires Exact(before, lay.bpg) && Exact(now, lay.bpg) && g < |before| == |now| && before[g].free == free
    requires Pickable(Bits(before[g].bitmap), lay, zones, g, idxs)
    requires Bits(now[g].bitmap) == MarkAll(Bits(before[g].bitmap), idxs)
    ensures |idxs| == free ==> Spent(now, lay, zones, g, 0)
  {
    hide InZone, Layout.AddrOf, IsSet, CountClear;
    if |idxs| == free {
      var n, was := lay.bpg, Bits(before[g].bitmap);
      assert ExactGroup(before[g], n) && ExactGroup(now[g], n);
      MarkPrefix(was, idxs, n);
      assert forall k :: 0 <= k < |idxs| ==> was[..n][idxs[k]] == was[idxs[k]];
      MarkAllCount(was[..n], idxs);
      NoneClear(GroupBits(now[g], n));
    }
  }

  /** Other groups' states do not change. */
  lemma SpentKept(before: Groups, now: Groups, lay: Layout, zones: seq<Zone>, g: nat)
    requires g < |before| == |now| && now == before[g := now[g]]
    ensures forall h: nat :: h < |now| && h != g && Spent(before, lay, zones, h, 0) ==> Spent(now, lay, zones, h, 0)
  {
  }

  lemma Units(a: nat, b: nat, u: nat)
    ensures (a + b) * u == a * u + b * u
  {
  }

  /** Groups from `first` to `g`, wrapping at `n`. */
  function Distance(first: nat, g: nat, n: nat): nat
    requires first < n && g < n
  {
    if g >= first then g - first else g + n - first
  }

  lemma NextGroup(first: nat, bgid: nat, n: nat, checked: nat)
    requires first < n && bgid < n && Distance(first, bgid, n) == checked < n
    ensures checked + 1 < n ==> Distance(first, NextBgid(bgid, n), n) == checked + 1
    ensures forall g: nat :: g < n && Distance(first, g, n) < checked + 1 ==>
            g == bgid || Distance(first, g, n) < checked
    ensures forall g: nat :: g < n ==> Distance(first, g, n) < n
  {
  }

  lemma Distances(first: nat, n: nat)
    requires first < n
    ensures Distance(first, first, n) == 0 && forall g: nat :: g < n ==> Distance(first, g, n) < n
  {
  }

  // ---- single allocation, step by step -----------------------------------------------------------------

  /** The blocks of the system zones are marked in use. */
  ghost predicate ZonesMarked(gs: Groups, lay: Layout, zones: seq<Zone>) {
    forall g: nat, i: nat :: g < |gs| && i < lay.bpg && InZone(zones, lay.AddrOf(i, g)) ==> Used(gs, lay.bpg, g, i)
  }

  /** Group `g` has no free block at index `from` or later. */
  ghost predicate FullFrom(gs: Groups, lay: Layout, g: nat, from: nat) {
    forall i: nat :: from <= i < lay.bpg ==> Used(gs, lay.bpg, g, i)
  }

  /** Where a search without a goal starts: the first block of the first group. */
  function GoalGroup(lay: Layout, goal: Option<nat>): nat
    requires lay.bpg > 0
  {
    if goal.Some? then lay.GroupOf(goal.value) else 0
  }

  function GoalIndex(lay: Layout, goal: Option<nat>): nat
    requires lay.bpg > 0
    ensures GoalIndex(lay, goal) < lay.bpg
  {
    if goal.Some? then lay.IdxOf(goal.value) else 0
  }

  lemma GroupSized(gs: Groups, bpg: nat, g: nat)
    requires Exact(gs, bpg) && g < |gs|
    ensures bpg <= 8 * |gs[g].bitmap|
    ensures forall i: nat :: i < bpg ==> (Used(gs, bpg, g, i) <==> IsSet(gs[g].bitmap, i))
  {
    hide IsSet, CountClear;
    assert ExactGroup(gs[g], bpg);
  }

  lemma MarkOne(bits: seq<bool>, i: nat)
    requires i < |bits|
    ensures MarkAll(bits, [i]) == bits[i := true]
  {
    assert [i][..0] == [];
  }

  lemma OnePick(gs: Groups, lay: Layout, zones: seq<Zone>, g: nat, i: nat)
    requires Exact(gs, lay.bpg) && g < |gs| && i < lay.bpg
    requires !Used(gs, lay.bpg, g, i) && !InZone(zones, lay.AddrOf(i, g))
    ensures Pickable(Bits(gs[g].bitmap), lay, zones, g, [i]) && i < lay.bpg <= 8 * |gs[g].bitmap| && gs[g].free >= 1
    ensures lay.bpg <= |Bits(gs[g].bitmap)|
  {
    hide IsSet, CountClear, InZone, Layout.AddrOf;
    assert ExactGroup(gs[g], lay.bpg);
    NoneClear(GroupBits(gs[g], lay.bpg));
    assert !GroupBits(gs[g], lay.bpg)[i];
  }

  lemma NotFound(gs: Groups, lay: Layout, zones: seq<Zone>, g: nat, from: nat, found: Option<nat>)
    requires Exact(gs, lay.bpg) && g < |gs| && from < lay.bpg <= |Bits(gs[g].bitmap)|
    requires FirstClear(Bits(gs[g].bitmap), from, lay.bpg, found)
    requires found.Some? ==> InZone(zones, lay.AddrOf(found.value, g))
    ensures ZonesMarked(gs, lay, zones) ==> FullFrom(gs, lay, g, from)
  {
    hide InZone, Layout.AddrOf, CountClear;
    GroupSized(gs, lay.bpg, g);
  }

  lemma NoneFreeFrom(gs: Groups, lay: Layout, g: nat, from: nat)
    requires Exact(gs, lay.bpg) && g < |gs| && gs[g].free == 0
    ensures FullFrom(gs, lay, g, from)
  {
    hide IsSet;
    assert ExactGroup(gs[g], lay.bpg);
    NoneClear(GroupBits(gs[g], lay.bpg));
  }

  /** What was allocated was free at the goal's index or later. */
  lemma TookFrom(was: Groups, now: Groups, lay: Layout, zones: seq<Zone>, g: nat, from: nat, i: nat)
    requires PickedAt(was, lay, zones, g, from, i)
    ensures !FullFrom(was, lay, g, from)
  {
    hide InZone, Layout.AddrOf, Used;
  }

  // ---- which block a single allocation picks -----------------------------------------------------------------

  /** Block `i` of group `g` may be handed out. */
  predicate FreeAt(gs: Groups, lay: Layout, zones: seq<Zone>, g: nat, i: nat) {
    !Used(gs, lay.bpg, g, i) && !InZone(zones, lay.AddrOf(i, g))
  }

  /** No block of the group in `[from, upto)` may. */
  ghost predicate FreeBetween(gs: Groups, lay: Layout, zones: seq<Zone>, g: nat, from: nat, upto: nat) {
    forall j: nat :: from <= j < upto ==> !FreeAt(gs, lay, zones, g, j)
  }

  /** The near search ends at the next multiple of 64 behind `from`, or with the group. */
  function NearEnd(lay: Layout, from: nat): nat {
    var near := (from + 63) / 64 * 64;
    if near < lay.bpg then near else lay.bpg
  }

  /**
   The block a search of group `g` from index `from` on picks: the first that may be handed out, but behind the near
   search only if nothing in front of it is even clear.
   */
  ghost predicate PickedAt(gs: Groups, lay: Layout, zones: seq<Zone>, g: nat, from: nat, i: nat) {
    && from <= i < lay.bpg && FreeAt(gs, lay, zones, g, i) && FreeBetween(gs, lay, zones, g, from, i)
    && (i <= from || i < NearEnd(lay, from) || forall j: nat :: from <= j < i ==> Used(gs, lay.bpg, g, j))
  }

  ghost predicate NoPick(gs: Groups, lay: Layout, zones: seq<Zone>, g: nat, from: nat) {
    forall i: nat :: !PickedAt(gs, lay, zones, g, from, i)
  }

  /** Of the groups in the order of the search, number `k` is the first with a block to pick, and `i` is that block. */
  ghost predicate FirstPick(gs: Groups, lay: Layout, zones: seq<Zone>, first: nat, from: nat, k: nat, i: nat) {
    && first < |gs| && k < |gs| && PickedAt(gs, lay, zones, Turn(first, k, |gs|), from, i)
    && forall j: nat :: j < k ==> NoPick(gs, lay, zones, Turn(first, j, |gs|), from)
  }

  /** With the system zones marked the pick is the first clear block, and there is none only in a full group. */
  lemma MarkedPick(gs: Groups, lay: Layout, zones: seq<Zone>, g: nat, from: nat, i: nat)
    requires ZonesMarked(gs, lay, zones) && g < |gs|
    ensures PickedAt(gs, lay, zones, g, from, i) <==>
            && from <= i < lay.bpg && !Used(gs, lay.bpg, g, i)
            && forall j: nat :: from <= j < i ==> Used(gs, lay.bpg, g, j)
  {
    hide InZone, Layout.AddrOf, Used;
    forall j: nat | from <= j < lay.bpg
      ensures FreeAt(gs, lay, zones, g, j) <==> !Used(gs, lay.bpg, g, j)
    {
    }
    if PickedAt(gs, lay, zones, g, from, i) {
      forall j: nat | from <= j < i
        ensures Used(gs, lay.bpg, g, j)
      {
        assert !FreeAt(gs, lay, zones, g, j);
      }
    }
  }

  lemma PickFirst(gs: Groups, lay: Layout, zones: seq<Zone>, g: nat, from: nat)
    requires from < lay.bpg && FreeAt(gs, lay, zones, g, from)
    ensures PickedAt(gs, lay, zones, g, from, from)
  {
    hide InZone, Layout.AddrOf, Used;
  }

  lemma NotAtFrom(gs: Groups, lay: Layout, zones: seq<Zone>, g: nat, from: nat)
    requires !FreeAt(gs, lay, zones, g, from)
    ensures FreeBetween(gs, lay, zones, g, from, from + 1)
  {
    hide FreeAt;
  }

  lemma FreeBetweenNext(gs: Groups, lay: Layout, zones: seq<Zone>, g: nat, from: nat, i: nat)
    requires FreeBetween(gs, lay, zones, g, from, i) && !FreeAt(gs, lay, zones, g, i)
    ensures FreeBetween(gs, lay, zones, g, from, i + 1)
  {
    hide FreeAt;
  }

  lemma PickNear(gs: Groups, lay: Layout, zones: seq<Zone>, g: nat, from: nat, i: nat)
    requires FreeBetween(gs, lay, zones, g, from, i) && FreeAt(gs, lay, zones, g, i)
    requires from <= i < NearEnd(lay, from)
    ensures PickedAt(gs, lay, zones, g, from, i)
  {
    hide FreeAt;
  }

  lemma PickFar(gs: Groups, lay: Layout, zones: seq<Zone>, g: nat, from: nat, i: nat, found: nat)
    requires Exact(gs, lay.bpg) && g < |gs| && from < lay.bpg <= |Bits(gs[g].bitmap)|
    requires FirstClear(Bits(gs[g].bitmap), from, lay.bpg, Some(found)) && FreeAt(gs, lay, zones, g, found)
    ensures PickedAt(gs, lay, zones, g, from, found)
  {
    hide InZone, Layout.AddrOf, CountClear;
    GroupSized(gs, lay.bpg, g);
  }

  lemma PickNothing(gs: Groups, lay: Layout, zones: seq<Zone>, g: nat, from: nat, end: nat, found: Option<nat>)
    requires Exact(gs, lay.bpg) && g < |gs| && from < lay.bpg <= |Bits(gs[g].bitmap)|
    requires FreeBetween(gs, lay, zones, g, from, end) && from < end && NearEnd(lay, from) <= end
    requires FirstClear(Bits(gs[g].bitmap), from, lay.bpg, found)
    requires found.Some? ==> InZone(zones, lay.AddrOf(found.value, g))
    ensures NoPick(gs, lay, zones, g, from)
  {
    hide InZone, Layout.AddrOf, CountClear;
    GroupSized(gs, lay.bpg, g);
  }

  lemma FullNoPick(gs: Groups, lay: Layout, zones: seq<Zone>, g: nat, from: nat)
    requires FullFrom(gs, lay, g, from)
    ensures NoPick(gs, lay, zones, g, from)
  {
    hide InZone, Layout.AddrOf, Used;
  }

  /** Every group has its turn. */
  lemma AllTurns(gs: Groups, lay: Layout, zones: seq<Zone>, first: nat, from: nat)
    requires first < |gs| ==> forall k: nat :: k < |gs| ==> NoPick(gs, lay, zones, Turn(first, k, |gs|), from)
    requires gs != [] ==> first < |gs|
    ensures forall g: nat :: g < |gs| ==> NoPick(gs, lay, zones, g, from)
  {
    hide NoPick;
    forall g: nat | g < |gs|
      ensures NoPick(gs, lay, zones, g, from)
    {
      assert Turn(first, Distance(first, g, |gs|), |gs|) == g;
    }
  }

  // ---- freeing, step by step ---------------------------------------------------------------------------

  /** The blocks `start..from` are no longer used, all others as before. */
  ghost predicate Unmarked(was: Groups, now: Groups, lay: Layout, start: nat, from: nat) {
    forall g: nat, i: nat :: g < |was| && i < lay.bpg ==>
      (Used(now, lay.bpg, g, i) <==> Used(was, lay.bpg, g, i) && !(start <= lay.AddrOf(i, g) < from))
  }

  lemma FreedGroup(gs: Groups, lay: Layout, g: nat, x: Group, idx: nat, cnt: nat)
    requires Exact(gs, lay.bpg) && g < |gs| && idx + cnt <= lay.bpg <= 8 * |gs[g].bitmap| == 8 * |x.bitmap|
    requires forall i: nat :: idx <= i < idx + cnt ==> Used(gs, lay.bpg, g, i)
    requires Bits(x.bitmap) == Cleared(Bits(gs[g].bitmap), idx, idx + cnt) && x.free == gs[g].free + cnt
    ensures Exact(gs[g := x], lay.bpg) && Total(gs[g := x]) == Total(gs) + cnt
    ensures forall h: nat, i: nat :: h < |gs| && i < lay.bpg ==>
              (Used(gs[g := x], lay.bpg, h, i) <==> Used(gs, lay.bpg, h, i) && !(h == g && idx <= i < idx + cnt))
  {
    hide CountClear, Total, IsSet;
    var n, was := lay.bpg, Bits(gs[g].bitmap);
    assert forall h :: 0 <= h < |gs| ==> ExactGroup(gs[h], n);
    assert Cleared(was, idx, idx + cnt)[..n] == Cleared(was[..n], idx, idx + cnt);
    forall i | idx <= i < idx + cnt
      ensures was[..n][i]
    {
      assert Used(gs, n, g, i);
    }
    ClearedCount(was[..n], idx, idx + cnt);
    assert ExactGroup(x, n);
    TotalUpdate(gs, g, x);
    forall h: nat, i: nat | h < |gs| && i < n
      ensures Used(gs[g := x], n, h, i) <==> Used(gs, n, h, i) && !(h == g && idx <= i < idx + cnt)
    {
      if h == g {
        assert GroupBits(x, n)[i] == Cleared(was, idx, idx + cnt)[i];
      }
    }
  }

  lemma LeftUnits(count: nat, left: nat, cnt: nat, u: nat)
    requires cnt <= left <= count
    ensures left * u == (left - cnt) * u + cnt * u && cnt * u <= left * u <= count * u
  {
  }

  /** A run inside one group is a run of addresses. */
  lemma InRun(lay: Layout, from: nat, cnt: nat, h: nat, i: nat)
    requires lay.bpg > 0 && lay.Base() <= from && lay.IdxOf(from) + cnt <= lay.bpg && i < lay.bpg
    ensures from <= lay.AddrOf(i, h) < from + cnt <==>
            h == lay.GroupOf(from) && lay.IdxOf(from) <= i < lay.IdxOf(from) + cnt
  {
    AddressOf(lay, from);
    var g := lay.GroupOf(from);
    hide Layout.GroupOf, Layout.IdxOf, Layout.Base;
    if h < g {
      NextBlock(lay, h, g);
    } else if h > g {
      NextBlock(lay, g, h);
    }
  }

  /** All of group `g` lies before all of a later group. */
  lemma NextBlock(lay: Layout, g: nat, h: nat)
    requires g < h
    ensures lay.bpg * g + lay.bpg <= lay.bpg * h
  {
    Multiples(g + 1, h, lay.bpg);
    assert lay.bpg * g + lay.bpg == (g + 1) * lay.bpg;
  }

  /** The group of an address inside the device. */
  lemma GroupInside(lay: Layout, b: nat, n: nat)
    requires lay.bpg > 0 && lay.Base() <= b < lay.FirstOf(n)
    ensures lay.GroupOf(b) < n
  {
    AddressOf(lay, b);
    var g := lay.GroupOf(b);
    if n <= g {
      Multiples(n, g, lay.bpg);
    }
  }

  /** A range that ends in its first group, or goes on in the next. */
  lemma RangeEnd(lay: Layout, from: nat, left: nat, cnt: nat)
    requires lay.bpg > 0 && lay.Base() <= from && left > 0
    requires cnt == (if left < lay.bpg - lay.IdxOf(from) then left else lay.bpg - lay.IdxOf(from))
    ensures if cnt == left then lay.GroupOf(from + left - 1) == lay.GroupOf(from)
            else lay.GroupOf(from + cnt) == lay.GroupOf(from) + 1
                 && lay.GroupOf(from + left - 1) >= lay.GroupOf(from) + 1
  {
    var g, idx := lay.GroupOf(from), lay.IdxOf(from);
    AddressOf(lay, from);
    if cnt == left {
      AddressRoundTrip(lay, g, idx + cnt - 1);
      assert lay.AddrOf(idx + cnt - 1, g) == from + left - 1;
    } else {
      AddressRoundTrip(lay, g + 1, 0);
      NextStart(lay, g);
      assert lay.AddrOf(0, g + 1) == from + cnt;
      var last := from + left - 1;
      AddressOf(lay, last);
      if lay.GroupOf(last) <= g {
        NextBlock(lay, lay.GroupOf(last), g + 1);
      }
    }
  }

  lemma NextStart(lay: Layout, g: nat)
    ensures lay.bpg * (g + 1) == lay.bpg * g + lay.bpg
  {
  }

  /** One group's share of a range: its blocks, and where the rest of the range starts. */
  lemma FreeStep(was: Groups, now: Groups, lay: Layout, start: nat, from: nat, left: nat, cnt: nat)
    requires lay.bpg > 0 && |now| == |was| && left > 0 && lay.Base() <= start <= from
    requires from + left <= lay.FirstOf(|was|)
    requires forall g: nat, i: nat :: g < |was| && i < lay.bpg && start <= lay.AddrOf(i, g) < from + left ==>
             Used(was, lay.bpg, g, i)
    requires cnt == (if left < lay.bpg - lay.IdxOf(from) then left else lay.bpg - lay.IdxOf(from))
    requires Unmarked(was, now, lay, start, from)
    ensures 0 < cnt <= left && lay.GroupOf(from) < |was| && lay.IdxOf(from) + cnt <= lay.bpg
    ensures forall i: nat :: lay.IdxOf(from) <= i < lay.IdxOf(from) + cnt ==> Used(now, lay.bpg, lay.GroupOf(from), i)
    ensures forall h: nat, i: nat :: h < |was| && i < lay.bpg ==>
              (from <= lay.AddrOf(i, h) < from + cnt <==>
                  h == lay.GroupOf(from) && lay.IdxOf(from) <= i < lay.IdxOf(from) + cnt)
    ensures if cnt == left then lay.GroupOf(from + left - 1) == lay.GroupOf(from)
            else lay.GroupOf(from + cnt) == lay.GroupOf(from) + 1
                 && lay.GroupOf(from + left - 1) >= lay.GroupOf(from) + 1
  {
    hide Used, Layout.GroupOf, Layout.IdxOf, Layout.AddrOf, Layout.FirstOf, Layout.Base;
    var g, idx := lay.GroupOf(from), lay.IdxOf(from);
    GroupInside(lay, from, |was|);
    RangeEnd(lay, from, left, cnt);
    forall h: nat, i: nat | h < |was| && i < lay.bpg
      ensures from <= lay.AddrOf(i, h) < from + cnt <==> h == g && idx <= i < idx + cnt
    {
      InRun(lay, from, cnt, h, i);
    }
    forall i: nat | idx <= i < idx + cnt
      ensures Used(now, lay.bpg, g, i)
    {
      InRun(lay, from, cnt, g, i);
      assert start <= lay.AddrOf(i, g) < from + left;
    }
  }

  /** Freeing what one allocation returned, run by run or block by block, restores every mark. */
  lemma AllocThenFree(was: Groups, mid: Groups, now: Groups, lay: Layout, zones: seq<Zone>, blocks: seq<nat>)
    requires Allocated(was, mid, lay, zones, blocks) && |now| == |was| && lay.bpg > 0
    requires forall g: nat, i: nat :: g < |was| && i < lay.bpg ==>
               (Used(now, lay.bpg, g, i) <==> Used(mid, lay.bpg, g, i) && lay.AddrOf(i, g) !in blocks)
    ensures forall g: nat, i: nat :: g < |was| && i < lay.bpg ==>
            (Used(now, lay.bpg, g, i) <==> Used(was, lay.bpg, g, i))
  {
    hide InZone, Layout.AddrOf, Used;
    forall g: nat, i: nat | g < |was| && i < lay.bpg
      ensures Used(now, lay.bpg, g, i) <==> Used(was, lay.bpg, g, i)
    {
      var b := lay.AddrOf(i, g);
      if b in blocks {
        var k :| 0 <= k < |blocks| && blocks[k] == b;
        assert FreeSomewhere(was, lay, zones, blocks[k]);
        var h: nat, j: nat :| WasFree(was, lay, zones, b, h, j);
        AddressInjective(lay, g, i, h, j);
      }
    }
  }

  ghost predicate SameMarks(was: Groups, now: Groups, lay: Layout) {
    |now| == |was| && forall g: nat, i: nat :: g < |was| && i < lay.bpg ==>
      (Used(now, lay.bpg, g, i) <==> Used(was, lay.bpg, g, i))
  }

  /** Exact counters follow the marks. */
  lemma SameCounters(was: Groups, now: Groups, lay: Layout, g: nat)
    requires Exact(was, lay.bpg) && Exact(now, lay.bpg) && SameMarks(was, now, lay) && g < |was|
    ensures now[g].free == was[g].free
  {
    hide CountClear, Bits;
    assert ExactGroup(was[g], lay.bpg) && ExactGroup(now[g], lay.bpg);
    forall i: nat | i < lay.bpg
      ensures GroupBits(now[g], lay.bpg)[i] == GroupBits(was[g], lay.bpg)[i]
    {
      assert Used(now, lay.bpg, g, i) <==> Used(was, lay.bpg, g, i);
    }
    assert GroupBits(now[g], lay.bpg) == GroupBits(was[g], lay.bpg);
  }

  /** The blocks of `mid` but for those in `gone`. */
  ghost predicate UsedBut(mid: Groups, now: Groups, lay: Layout, gone: seq<nat>) {
    |now| == |mid| && forall g: nat, i: nat :: g < |mid| && i < lay.bpg ==>
      (Used(now, lay.bpg, g, i) <==> Used(mid, lay.bpg, g, i) && lay.AddrOf(i, g) !in gone)
  }

  /** A block just allocated can be freed. */
  lemma CanFree(was: Groups, mid: Groups, now: Groups, lay: Layout, zones: seq<Zone>, blocks: seq<nat>, k: nat)
    requires Allocated(was, mid, lay, zones, blocks) && k < |blocks| && UsedBut(mid, now, lay, blocks[..k])
    ensures lay.Base() <= blocks[k] && blocks[k] + 1 <= lay.FirstOf(|now|)
    ensures forall g: nat, i: nat :: g < |now| && i < lay.bpg && blocks[k] <= lay.AddrOf(i, g) < blocks[k] + 1 ==>
            Used(now, lay.bpg, g, i)
  {
    hide InZone, Used;
    assert FreeSomewhere(was, lay, zones, blocks[k]);
    var h: nat, j: nat :| WasFree(was, lay, zones, blocks[k], h, j);
    Multiples(h + 1, |now|, lay.bpg);
    assert (h + 1) * lay.bpg == lay.bpg * h + lay.bpg;
    assert blocks[k] !in blocks[..k];
  }

  lemma OneFreed(mid: Groups, before: Groups, now: Groups, lay: Layout, blocks: seq<nat>, k: nat)
    requires k < |blocks| && UsedBut(mid, before, lay, blocks[..k]) && |now| == |before|
    requires Unmarked(before, now, lay, blocks[k], blocks[k] + 1)
    ensures UsedBut(mid, now, lay, blocks[..k + 1])
  {
    hide Used, Layout.AddrOf;
    assert blocks[..k + 1] == blocks[..k] + [blocks[k]];
  }

  /** Allocate a batch and give every block of it back: marks and counters are what they were. */
  method AllocateAndFree(a: Allocator, start: nat, count: nat) returns (r: Result<seq<nat>>)
    requires a.Valid()
    modifies a
    ensures r.Err? <==> count > 0 && old(a.groups) == []
    ensures a.Valid() && a.sbFree == old(a.sbFree) && a.inodeBlocks == old(a.inodeBlocks)
    ensures SameMarks(old(a.groups), a.groups, a.lay)
    ensures forall g: nat :: g < |a.groups| ==> a.groups[g].free == old(a.groups)[g].free
  {
    hide Allocated, Used, Exact, Total, UsedBut, SameMarks, Layout.AddrOf, Spent, FreeFrom, EndsAfter, Turn, Upto;
    hide Sized;
    ghost var was := a.groups;
    var next;
    r, next := a.AllocBatch(start, count);
    if r.Err? {
      AllSame(was, a.lay);
      return;
    }
    var blocks := r.value;
    ghost var mid := a.groups;
    NoneGone(mid, a.lay, blocks);
    for k := 0 to |blocks|
      invariant a.Valid() && |a.groups| == |was| && UsedBut(mid, a.groups, a.lay, blocks[..k])
      invariant a.sbFree + (|blocks| - k) == old(a.sbFree)
      invariant a.inodeBlocks == old(a.inodeBlocks) + (|blocks| - k) * a.blockUnits
    {
      CanFree(was, mid, a.groups, a.lay, a.zones, blocks, k);
      UnitsLeft(|blocks| - k, a.blockUnits);
      ghost var before := a.groups;
      a.FreeBlocks(blocks[k], 1);
      OneFreed(mid, before, a.groups, a.lay, blocks, k);
    }
    AllGone(was, mid, a.groups, a.lay, a.zones, blocks);
    forall g: nat | g < |a.groups|
      ensures a.groups[g].free == was[g].free
    {
      SameCounters(was, a.groups, a.lay, g);
    }
  }

  lemma AllSame(gs: Groups, lay: Layout)
    ensures SameMarks(gs, gs, lay)
  {
  }

  lemma NoneGone(mid: Groups, lay: Layout, blocks: seq<nat>)
    ensures UsedBut(mid, mid, lay, blocks[..0])
  {
  }

  lemma UnitsLeft(n: nat, units: nat)
    requires n > 0
    ensures n * units >= units && (n - 1) * units == n * units - 1 * units
  {
    assert n * units == (n - 1) * units + units;
  }

  lemma AllGone(was: Groups, mid: Groups, now: Groups, lay: Layout, zones: seq<Zone>, blocks: seq<nat>)
    requires Allocated(was, mid, lay, zones, blocks) && lay.bpg > 0 && UsedBut(mid, now, lay, blocks[..|blocks|])
    ensures SameMarks(was, now, lay) && |was| == |now|
  {
    hide InZone, Used, Layout.AddrOf;
    assert blocks[..|blocks|] == blocks;
    AllocThenFree(was, mid, now, lay, zones, blocks);
  }
}
