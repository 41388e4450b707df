/** Runs of physical blocks, and what is left of them when a start is kept in 32 bits only. */
module FreedRuns {
  import opened Extents

  /** A run of physical blocks. */
  datatype Run = Run(start: nat, len: nat)

  predicate InRun(r: Run, b: nat) {
    r.start <= b < r.start + r.len
  }

  predicate InRuns(rs: seq<Run>, b: nat) {
    exists i :: 0 <= i < |rs| && InRun(rs[i], b)
  }

  lemma RunsConcat(a: seq<Run>, c: seq<Run>, b: nat)
    ensures InRuns(a + c, b) <==> InRuns(a, b) || InRuns(c, b)
  {
    if InRuns(a, b) {
      var i :| 0 <= i < |a| && InRun(a[i], b);
      assert InRun((a + c)[i], b);
    }
    if InRuns(c, b) {
      var i :| 0 <= i < |c| && InRun(c[i], b);
      assert InRun((a + c)[|a| + i], b);
    }
  }

  lemma NoRuns()
    ensures forall b: nat :: !InRuns([], b)
  {
  }

  // ---- starts of 32 bits ----------------------------------------------------------------------------------

  /** The run the allocator is handed: its start is computed in 32 bits. */
  function Narrow(r: Run): Run {
    Run(r.start % PBLOCK_LOW, r.len)
  }

  function Narrowed(rs: seq<Run>): (r: seq<Run>)
    ensures |r| == |rs| && forall i :: 0 <= i < |r| ==> r[i] == Narrow(rs[i])
  {
    seq(|rs|, i requires 0 <= i < |rs| => Narrow(rs[i]))
  }

  lemma NarrowedMore(rs: seq<Run>, r: Run)
    ensures Narrowed(rs + [r]) == Narrowed(rs) + [Narrow(r)]
  {
  }

  /** Every run starts where 32 bits can say it. */
  predicate AllLow(rs: seq<Run>) {
    forall i :: 0 <= i < |rs| ==> rs[i].start < PBLOCK_LOW
  }

  /** Two runs have no block in common. */
  ghost predicate Separate(p: Run, q: Run) {
    forall b: nat :: !(InRun(p, b) && InRun(q, b))
  }

  ghost predicate AllSeparate(rs: seq<Run>) {
    && (forall i :: 0 <= i < |rs| ==> rs[i].len > 0)
    && (forall i, j :: 0 <= i < j < |rs| ==> Separate(rs[i], rs[j]))
  }

  /** The runs handed over hold the same blocks. */
  ghost predicate SameBlocks(rs: seq<Run>) {
    forall b: nat :: InRuns(Narrowed(rs), b) <==> InRuns(rs, b)
  }

  lemma LowSame(rs: seq<Run>)
    ensures Narrowed(rs) == rs <==> AllLow(rs)
    ensures AllLow(rs) ==> SameBlocks(rs)
  {
    if Narrowed(rs) == rs {
      forall i | 0 <= i < |rs|
        ensures rs[i].start < PBLOCK_LOW
      {
        assert rs[i] == Narrow(rs[i]);
      }
    }
  }

  /** The run that reaches furthest. */
  lemma {:induction false} Furthest(rs: seq<Run>) returns (k: nat)
    requires rs != []
    ensures k < |rs| && forall i :: 0 <= i < |rs| ==> rs[i].start + rs[i].len <= rs[k].start + rs[k].len
  {
    var n := |rs| - 1;
    k := n;
    if n > 0 {
      var j := Furthest(rs[..n]);
      assert forall i :: 0 <= i < n ==> rs[i] == rs[..n][i];
      k := if rs[j].start + rs[j].len <= rs[n].start + rs[n].len then n else j;
    }
  }

  /**
   Runs that share no block stay the same blocks exactly when each of them starts below 2^32: the highest block of all
   would otherwise have to come from a run cut down to it, and that run reached further.
   */
  lemma NarrowExact(rs: seq<Run>)
    requires AllSeparate(rs)
    ensures SameBlocks(rs) <==> AllLow(rs)
  {
    hide SameBlocks, Separate, InRun, InRuns, Narrowed;
    LowSame(rs);
    if SameBlocks(rs) && rs != [] {
      var k := Furthest(rs);
      var top := rs[k].start + rs[k].len - 1;
      TopFreed(rs, k, top);
      var j := Holder(rs, top);
      forall i | 0 <= i < |rs|
        ensures rs[i].start < PBLOCK_LOW
      {
        LowBelow(rs, i, j, top);
      }
    }
  }

  lemma TopFreed(rs: seq<Run>, k: nat, top: nat)
    requires k < |rs| && rs[k].len > 0 && top == rs[k].start + rs[k].len - 1 && SameBlocks(rs)
    ensures InRuns(Narrowed(rs), top)
  {
    assert InRun(rs[k], top);
    assert InRuns(rs, top);
  }

  lemma Holder(rs: seq<Run>, top: nat) returns (j: nat)
    requires InRuns(Narrowed(rs), top)
    ensures j < |rs| && InRun(Narrow(rs[j]), top)
  {
    j :| 0 <= j < |rs| && InRun(Narrowed(rs)[j], top);
  }

  /** The run that gives the highest block is not cut, so it would meet any run that starts high. */
  lemma LowBelow(rs: seq<Run>, i: nat, j: nat, top: nat)
    requires AllSeparate(rs) && i < |rs| && j < |rs| && InRun(Narrow(rs[j]), top)
    requires rs[i].start + rs[i].len <= top + 1 && rs[j].start + rs[j].len <= top + 1
    ensures rs[i].start < PBLOCK_LOW
  {
    assert rs[i].len > 0;
    if rs[i].start >= PBLOCK_LOW && i != j {
      assert Separate(rs[i], rs[j]) || Separate(rs[j], rs[i]);
      assert InRun(rs[i], rs[i].start);
    }
  }
}
