/** Block groups as values: addresses, bitmaps with exact counters, and what marking and clearing bits does. */
module BlockGroups {
  import opened Bytes
  import opened Outcome
  import opened Bitmap

  /** Bitmap block and free count of one group. */
  datatype Group = Group(bitmap: seq<bv8>, free: nat)

  type Groups = seq<Group>

  /** Blocks per group, and whether addresses are shifted by one because block 0 holds the boot sector alone. */
  datatype Layout = Layout(bpg: nat, firstDataBlock: nat) {
    function Base(): nat {
      if firstDataBlock != 0 then 1 else 0
    }

    function Shift(b: nat): nat {
      if firstDataBlock != 0 && b != 0 then b - 1 else b
    }

    /** `get_bgid_of_block` */
    function GroupOf(b: nat): nat
      requires bpg > 0
    {
      Shift(b) / bpg
    }

    /** `addr_to_idx_bg` */
    function IdxOf(b: nat): (i: nat)
      requires bpg > 0
      ensures i < bpg
    {
      Shift(b) % bpg
    }

    /** `get_block_of_bgid` */
    function FirstOf(g: nat): nat {
      Base() + g * bpg
    }

    /** `bg_idx_to_addr` */
    function AddrOf(i: nat, g: nat): nat {
      bpg * g + (i + Base())
    }
  }

  lemma Divided(bpg: nat, g: nat, i: nat)
    requires i < bpg
    ensures (g * bpg + i) / bpg == g && (g * bpg + i) % bpg == i
  {
    BlockOf(g * bpg + i, g, bpg);
  }

  /** Group and index are the inverse of the address. */
  lemma AddressRoundTrip(lay: Layout, g: nat, i: nat)
    requires lay.bpg > 0 && i < lay.bpg
    ensures lay.GroupOf(lay.AddrOf(i, g)) == g && lay.IdxOf(lay.AddrOf(i, g)) == i
  {
    Divided(lay.bpg, g, i);
    assert lay.Shift(lay.AddrOf(i, g)) == g * lay.bpg + i;
  }

  lemma AddressOf(lay: Layout, b: nat)
    requires lay.bpg > 0 && b >= lay.Base()
    ensures lay.AddrOf(lay.IdxOf(b), lay.GroupOf(b)) == b
  {
    var s := lay.Shift(b);
    assert s == s / lay.bpg * lay.bpg + s % lay.bpg;
  }

  lemma AddressInjective(lay: Layout, g: nat, i: nat, h: nat, j: nat)
    requires lay.bpg > 0 && i < lay.bpg && j < lay.bpg && lay.AddrOf(i, g) == lay.AddrOf(j, h)
    ensures g == h && i == j
  {
    AddressRoundTrip(lay, g, i);
    AddressRoundTrip(lay, h, j);
  }

  // ---- counting clear bits -----------------------------------------------------------------------------

  function CountClear(bits: seq<bool>): nat {
    if bits == [] then 0 else CountClear(bits[..|bits| - 1]) + if bits[|bits| - 1] then 0 else 1
  }

  lemma {:induction false} CountConcat(a: seq<bool>, b: seq<bool>)
    ensures CountClear(a + b) == CountClear(a) + CountClear(b)
    decreases |b|
  {
    if b == [] {
      assert a + b == a;
    } else {
      CountConcat(a, b[..|b| - 1]);
      assert (a + b)[..|a + b| - 1] == a + b[..|b| - 1];
    }
  }

  lemma CountFlip(bits: seq<bool>, i: nat, on: bool)
    requires i < |bits| && bits[i] != on
    ensures if on then CountClear(bits[i := on]) + 1 == CountClear(bits)
            else CountClear(bits[i := on]) == CountClear(bits) + 1
  {
    hide CountClear;
    var a, c := bits[..i], bits[i + 1..];
    assert bits == a + [bits[i]] + c && bits[i := on] == a + [on] + c;
    CountConcat(a + [bits[i]], c);
    CountConcat(a, [bits[i]]);
    CountConcat(a + [on], c);
    CountConcat(a, [on]);
    CountOne(on);
    CountOne(bits[i]);
  }

  lemma CountOne(b: bool)
    ensures CountClear([b]) == if b then 0 else 1
  {
    assert [b][..0] == [];
  }

  lemma {:induction false} NoneClear(bits: seq<bool>)
    ensures CountClear(bits) == 0 <==> forall i :: 0 <= i < |bits| ==> bits[i]
    ensures CountClear(bits) <= |bits|
  {
    if bits != [] {
      NoneClear(bits[..|bits| - 1]);
    }
  }

  // ---- marking bits ------------------------------------------------------------------------------------

  /** The bits at `idxs` set. */
  function MarkAll(bits: seq<bool>, idxs: seq<nat>): (r: seq<bool>)
    requires forall k :: 0 <= k < |idxs| ==> idxs[k] < |bits|
    ensures |r| == |bits|
  {
    if idxs == [] then bits else MarkAll(bits, idxs[..|idxs| - 1])[idxs[|idxs| - 1] := true]
  }

  predicate Rising(idxs: seq<nat>) {
    forall j, k :: 0 <= j < k < |idxs| ==> idxs[j] < idxs[k]
  }

  lemma {:induction false} MarkAllFacts(bits: seq<bool>, idxs: seq<nat>)
    requires forall k :: 0 <= k < |idxs| ==> idxs[k] < |bits|
    ensures forall i: nat :: i < |bits| ==> MarkAll(bits, idxs)[i] == (bits[i] || i in idxs)
  {
    if idxs != [] {
      var init, last := idxs[..|idxs| - 1], idxs[|idxs| - 1];
      MarkAllFacts(bits, init);
      assert idxs == init + [last];
    }
  }

  lemma {:induction false} MarkAllCount(bits: seq<bool>, idxs: seq<nat>)
    requires Rising(idxs) && forall k :: 0 <= k < |idxs| ==> idxs[k] < |bits| && !bits[idxs[k]]
    ensures CountClear(MarkAll(bits, idxs)) + |idxs| == CountClear(bits)
  {
    hide CountClear;
    if idxs != [] {
      var init, last := idxs[..|idxs| - 1], idxs[|idxs| - 1];
      MarkAllCount(bits, init);
      MarkAllFacts(bits, init);
      forall k | 0 <= k < |init|
        ensures init[k] != last
      {
        assert idxs[k] < idxs[|idxs| - 1];
      }
      CountFlip(MarkAll(bits, init), last, true);
    }
  }

  lemma MarkMore(bits: seq<bool>, idxs: seq<nat>, i: nat)
    requires i < |bits| && forall k :: 0 <= k < |idxs| ==> idxs[k] < |bits|
    ensures forall k :: 0 <= k < |idxs + [i]| ==> (idxs + [i])[k] < |bits|
    ensures MarkAll(bits, idxs + [i]) == MarkAll(bits, idxs)[i := true]
  {
    assert (idxs + [i])[..|idxs|] == idxs;
  }

  lemma {:induction false} MarkPrefix(bits: seq<bool>, idxs: seq<nat>, n: nat)
    requires n <= |bits| && forall k :: 0 <= k < |idxs| ==> idxs[k] < n
    ensures MarkAll(bits, idxs)[..n] == MarkAll(bits[..n], idxs)
  {
    if idxs != [] {
      MarkPrefix(bits, idxs[..|idxs| - 1], n);
    }
  }

  /** Clearing a stretch of set bits adds its length to the clear ones. */
  lemma {:induction false} ClearedCount(bits: seq<bool>, from: nat, end: nat)
    requires from <= end <= |bits| && forall i :: from <= i < end ==> bits[i]
    ensures CountClear(Cleared(bits, from, end)) == CountClear(bits) + (end - from)
    decreases end - from
  {
    hide CountClear;
    if from == end {
      assert Cleared(bits, from, end) == bits;
    } else {
      ClearedCount(bits, from, end - 1);
      CountFlip(Cleared(bits, from, end - 1), end - 1, false);
      assert Cleared(bits, from, end) == Cleared(bits, from, end - 1)[end - 1 := false];
    }
  }

  // ---- all groups --------------------------------------------------------------------------------------

  function GroupBits(g: Group, bpg: nat): (r: seq<bool>)
    requires bpg <= 8 * |g.bitmap|
    ensures |r| == bpg
  {
    Bits(g.bitmap)[..bpg]
  }

  predicate ExactGroup(g: Group, bpg: nat) {
    bpg <= 8 * |g.bitmap| && g.free == CountClear(GroupBits(g, bpg))
  }

  /** Every group's free count is the number of its clear bits. */
  predicate Exact(gs: Groups, bpg: nat) {
    forall g :: 0 <= g < |gs| ==> ExactGroup(gs[g], bpg)
  }

  function Total(gs: Groups): nat {
    if gs == [] then 0 else Total(gs[..|gs| - 1]) + gs[|gs| - 1].free
  }

  lemma {:induction false} TotalUpdate(gs: Groups, g: nat, x: Group)
    requires g < |gs|
    ensures Total(gs[g := x]) + gs[g].free == Total(gs) + x.free
    ensures gs[g].free <= Total(gs)
  {
    var n := |gs| - 1;
    if g == n {
      assert gs[g := x][..n] == gs[..n];
    } else {
      TotalUpdate(gs[..n], g, x);
      assert gs[g := x][..n] == gs[..n][g := x];
    }
  }

  /** Block `i` of group `g` is marked in use. */
  predicate Used(gs: Groups, bpg: nat, g: nat, i: nat) {
    g < |gs| && i < bpg && bpg <= 8 * |gs[g].bitmap| && GroupBits(gs[g], bpg)[i]
  }
}
