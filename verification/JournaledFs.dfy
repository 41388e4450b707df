/** Opening and closing journaled operations over the capturing device: every call is one step of a run. */
module JournaledFs {
  import opened Bytes
  import opened Outcome
  import opened JournalCodec
  import opened CrashDisk
  import opened JournalLog
  import opened Journal
  import opened JournalQuiet
  import opened JournalCrash
  import opened JournalAtomic
  import opened JournalCrashSafe
  import opened JournalReplay
  import opened JournalRuns
  import opened JournaledDevice
  import opened DeviceRuns

  function BlockAt(bytes: seq<byte>, bs: nat, b: nat): (r: Block)
    requires bs > 0 && |bytes| % bs == 0 && b < |bytes| / bs
    ensures |r| == bs
  {
    WholeCount(|bytes|, bs);
    BlockEnds(b, |bytes| / bs, bs);
    bytes[b * bs..b * bs + bs]
  }

  /** The bytes of a device as whole blocks. */
  function Blocks(bytes: seq<byte>, bs: nat): (r: Image)
    requires bs > 0 && |bytes| % bs == 0
    ensures |r| == |bytes| / bs && |r| * bs == |bytes|
    ensures forall b :: 0 <= b < |r| ==> |r[b]| == bs
  {
    WholeCount(|bytes|, bs);
    hide BlockAt;
    seq(|bytes| / bs, b requires 0 <= b < |bytes| / bs => BlockAt(bytes, bs, b))
  }

  lemma WholeCount(n: nat, bs: nat)
    requires bs > 0 && n % bs == 0
    ensures n / bs * bs == n
  {
    BlockOf(n, n / bs, bs);
  }

  lemma BlockEnds(b: nat, n: nat, bs: nat)
    requires b < n
    ensures b * bs + bs <= n * bs
  {
    Multiples(b + 1, n, bs);
    assert (b + 1) * bs == b * bs + bs;
  }

  /** Cutting and flattening are inverse. */
  lemma FlatBlocks(bytes: seq<byte>, bs: nat)
    requires bs > 0 && |bytes| % bs == 0
    ensures Flat(Blocks(bytes, bs), bs) == bytes
  {
    var r := Flat(Blocks(bytes, bs), bs);
    WholeCount(|bytes|, bs);
    forall k | 0 <= k < |bytes|
      ensures r[k] == bytes[k]
    {
      InsideImage(k, |bytes| / bs, bs);
      BlockOf(k, k / bs, bs);
      BlockEnds(k / bs, |bytes| / bs, bs);
    }
  }

  lemma BlocksFlat(img: Image, bs: nat)
    requires bs > 0 && forall b :: 0 <= b < |img| ==> |img[b]| == bs
    ensures |Flat(img, bs)| % bs == 0 && Blocks(Flat(img, bs), bs) == img
  {
    BlockOf(|img| * bs, |img|, bs);
    var r := Blocks(Flat(img, bs), bs);
    forall b | 0 <= b < |img|
      ensures r[b] == img[b]
    {
      BlockEnds(b, |img|, bs);
      forall x | 0 <= x < bs
        ensures r[b][x] == img[b][x]
      {
        BlockOf(b * bs + x, b, bs);
      }
    }
  }

  /** What the outermost end of an operation relies on; the limits matter only if the commit is not refused. */
  predicate MayEnd(geo: Geometry, img: Image, txn: Transaction) {
    && Bounded(geo, img, txn)
    && (!txn.IsEmpty() && CommitPre(geo, img, txn) && CommitTrace(geo, img, txn, NoCrash).Ok? ==>
          WithinLimits(geo, img, txn))
  }

  /**
   What the outermost end of a successful operation leaves if a crash point was set: an image a loss of power may leave
   during the commit; the device as it was if there was nothing to commit or the commit is refused.
   */
  ghost predicate Stops(geo: Geometry, img: Image, txn: Transaction, crash: CrashPoint, c: Image) {
    && Bounded(geo, img, txn) && CommitPre(geo, img, txn)
    && if CommitTrace(geo, img, txn, crash).Err? || txn.IsEmpty() then c == img else CrashImage(geo, img, txn, crash, c)
  }

  class FileSystem {
    const geo: Geometry
    const jd: JournalDevice

    constructor (geo: Geometry, jd: JournalDevice)
      requires jd.Valid() && jd.blockSize == geo.blockSize
      ensures this.geo == geo && this.jd == jd
    {
      this.geo, this.jd := geo, jd;
    }

    ghost predicate Valid()
      reads jd, jd.inner
    {
      jd.Valid() && jd.blockSize == geo.blockSize
    }

    ghost function State(): DeviceState
      requires Valid()
      reads jd, jd.inner
    {
      DeviceState(Blocks(jd.inner.bytes, jd.blockSize), jd.depth, jd.txn)
    }

    /** Read the sequence the journal expects next, and open an operation with it. */
    method JournalBegin(ghost sn: u32) returns (r: Result<()>)
      requires Valid() && Inv(geo, State(), sn)
      modifies jd
      ensures Valid() && (r.Ok? <==> LiveSb(geo, old(State()).img).Ok?)
      ensures if r.Ok? then Moves(geo, old(State()), Begin, State())
              && Inv(geo, State(), sn) else State() == old(State())
    {
      hide Flat, Blocks, Overlay, Quiet, LiveSb, Stageable, ParseJournalSuperblock, LogBlock, Moves, Inv, ValidImage;
      hide Geometry.Map;
      ghost var s := State();
      HeadRange(geo, s, sn, jd.inner.bytes);
      var at := geo.Map(0) * geo.blockSize;
      var head := jd.ReadOffset(at, geo.blockSize);
      HeadSeen(geo, s, sn, jd.inner.bytes, jd.View());
      var sb := ParseJournalSuperblock(head);
      HeadDecides(geo, s.img);
      if sb.Err? {
        return Err(sb.errno);
      }
      jd.Begin(sb.value.sequence);
      Opens(geo, s, State(), sn, sb.value);
      return Ok(());
    }

    /** A write of the running operation. */
    method Write(offset: nat, data: seq<byte>, ghost sn: u32)
      requires Valid() && Inv(geo, State(), sn) && jd.txn.Some? && geo.blockSize > 0
      requires Writable(geo, State().img, offset, |data|)
      modifies jd`txn
      ensures Valid() && Moves(geo, old(State()), DeviceEvent.Write(offset, data), State()) && Inv(geo, State(), sn)
    {
      hide Flat, Blocks, Overlay, Quiet, LiveSb, StagedBy, Writable;
      ghost var s := State();
      InvReadable(geo, s, sn);
      FlatBlocks(jd.inner.bytes, jd.blockSize);
      InRangeOf(geo, s.img, offset, |data|, jd.inner.bytes);
      jd.WriteOffset(offset, data);
      StepKeeps(geo, s, DeviceEvent.Write(offset, data), State(), sn);
    }

    /**
     Close an operation: the outermost close commits what was captured if it succeeded, else drops it. A crash point set
     before stops that commit.
     */
    method JournalEnd(ok: bool, ghost sn: u32) returns (r: Result<()>)
      requires Valid() && Inv(geo, State(), sn)
      requires ok && jd.depth == 1 ==> MayEnd(geo, State().img, jd.txn.value)
      modifies jd, jd.inner
      ensures Valid()
      ensures if ok && old(jd.depth) == 1 && old(jd.crash) != NoCrash then
                && jd.depth == 0 && jd.txn == None && jd.crash == NoCrash
                && Stops(geo, old(State()).img, old(jd.txn).value, old(jd.crash), State().img)
              else Moves(geo, old(State()), End(ok), State())
      ensures r.Ok? <==>
              !(ok && old(jd.depth) == 1) || CommitTrace(geo, old(State()).img, old(jd.txn).value, NoCrash).Ok?
    {
      hide Flat, Blocks, Overlay, Quiet, LiveSb, Bounded, WithinLimits, CommitPre, CommitTrace, Ends, Durable;
      hide Stageable, ValidImage, Inv, Moves, Stops;
      ghost var s := State();
      OpenHasTxn(geo, sn, s);
      var closed := jd.End();
      r := Ok(());
      if closed.Some? && ok {
        r := CommitClosed(closed.value, s, sn);
      }
      if !(ok && s.depth == 1 && old(jd.crash) != NoCrash) {
        EndMoves(geo, s, ok, State());
      }
    }

    /** Commit what the outermost close handed over. */
    method CommitClosed(txn: Transaction, ghost s: DeviceState, ghost sn: u32) returns (r: Result<()>)
      requires Valid() && State() == DeviceState(s.img, 0, None) && Inv(geo, s, sn) && s.depth == 1
      requires s.txn == Some(txn)
      requires MayEnd(geo, s.img, txn)
      modifies jd, jd.inner
      ensures Valid() && jd.depth == 0 && jd.txn == None && jd.crash == NoCrash && CommitPre(geo, s.img, txn)
      ensures if old(jd.crash) == NoCrash then Ends(geo, s.img, txn, State().img)
              else Stops(geo, s.img, txn, old(jd.crash), State().img)
      ensures r.Ok? <==> CommitTrace(geo, s.img, txn, NoCrash).Ok?
    {
      hide Flat, Blocks, Overlay, Quiet, LiveSb, Bounded, WithinLimits, CommitTrace, Ends, Stageable, Inv, Stops;
      var crash := jd.TakeCrash();
      InvReadable(geo, s, sn);
      var dev := new Device(Blocks(jd.inner.bytes, jd.blockSize));
      BoundedCommits(geo, s, sn);
      hide CommitPre, ValidImage;
      r := CommitWithCrash(geo, dev, txn, crash);
      TraceFrom(dev.trace);
      if crash == NoCrash {
        CommitSettles(geo, s, sn);
        CommitEnds(geo, s, dev.trace, dev.cells);
        EndsWhole(geo, s, sn, dev.cells);
      } else {
        StopLeaves(geo, s, sn, crash, dev.trace, dev.cells);
      }
      BlocksFlat(dev.cells, jd.blockSize);
      jd.inner.bytes := Flat(dev.cells, jd.blockSize);
    }
  }

  lemma TraceFrom(t: seq<Op>)
    ensures [] + t == t
  {
  }

  /** Reading the device at rest shows one of the images a loss of power may leave. */
  lemma NowIsCrash(img: Image, ops: seq<Op>)
    requires OpsInRange(img, ops)
    ensures CrashDuring(img, ops, View(img, ops))
  {
    hide Run;
    var d := Run(img, ops);
    var keep := seq(|d.pending|, i => true);
    AllSurvive(d.durable, d.pending);
    assert ops[..|ops|] == ops;
    assert Survivor(d.durable, d.pending, keep) == View(img, ops);
    assert CrashAfter(img, ops[..|ops|], View(img, ops));
  }

  /** A crash point decides neither whether a commit is refused nor what an empty one does. */
  lemma SameRefusal(geo: Geometry, img: Image, txn: Transaction, crash: CrashPoint)
    requires CommitPre(geo, img, txn)
    ensures CommitTrace(geo, img, txn, crash).Ok? <==> CommitTrace(geo, img, txn, NoCrash).Ok?
    ensures txn.IsEmpty() ==> CommitTrace(geo, img, txn, crash) == Ok([])
  {
    hide LiveSb, CommitPre, CommitEpochs;
  }

  lemma NoOps(img: Image)
    ensures View(img, []) == img
  {
  }

  lemma CasesWhole(geo: Geometry, img: Image, txn: Transaction, c: Image)
    requires Before(geo, img, txn.sequence, c) || Midway(geo, img, txn, c) || After(geo, img, txn, c)
    ensures ValidImage(geo, c)
  {
    hide LiveSb, QuietArea, SameFs, Toward, CommitOnDisk, Stageable, Staged;
  }

  /** A commit stopped at a crash point. */
  lemma StopLeaves(geo: Geometry, s: DeviceState, sn: u32, crash: CrashPoint, trace: seq<Op>, cells: Image)
    requires Inv(geo, s, sn) && s.txn.Some? && Bounded(geo, s.img, s.txn.value) && CommitPre(geo, s.img, s.txn.value)
    requires MayEnd(geo, s.img, s.txn.value)
    requires var t := CommitTrace(geo, s.img, s.txn.value, crash);
             if t.Ok? then trace == t.value && OpsInRange(s.img, trace) && cells == View(s.img, trace)
             else cells == s.img
    ensures Stops(geo, s.img, s.txn.value, crash, cells)
    ensures forall b :: 0 <= b < |cells| ==> |cells[b]| == geo.blockSize
    ensures CommitTrace(geo, s.img, s.txn.value, crash).Ok? <==> CommitTrace(geo, s.img, s.txn.value, NoCrash).Ok?
  {
    hide Quiet, LiveSb, Bounded, WithinLimits, CommitPre, CommitTrace, Run, View, Acceptable, Startable, FitsLog;
    hide Harmless;
    hide Stageable, CrashDuring, Before, Midway, After;
    var img, txn := s.img, s.txn.value;
    QuietFacts(geo, img, sn);
    SameRefusal(geo, img, txn, crash);
    NoOps(img);
    if CommitTrace(geo, img, txn, crash).Ok? && !txn.IsEmpty() {
      NowIsCrash(img, trace);
      CutAccepted(geo, s, sn, crash, cells);
      AcceptableStarts(geo, img, sn, txn);
      CommitCrashCases(geo, img, LiveSb(geo, img).value, txn, crash, cells);
      CasesWhole(geo, img, txn, cells);
    }
  }

  /** Mounting what such a stop leaves is a cut end of a run. */
  lemma StopThenMount(geo: Geometry, s: DeviceState, crash: CrashPoint, c: Image, retries: seq<Image>, next: Image)
    requires s.depth == 1 && s.txn.Some? && !s.txn.value.IsEmpty() && WithinLimits(geo, s.img, s.txn.value)
    requires Stops(geo, s.img, s.txn.value, crash, c) && CommitTrace(geo, s.img, s.txn.value, crash).Ok?
    requires Recovers(geo, c, retries, next)
    ensures Moves(geo, s, EndCut(crash, c, retries), DeviceState(next, 0, None))
  {
    hide WithinLimits, CommitPre, CommitTrace, CrashImage, Recovers, Bounded;
  }

  /** The cases of an end. */
  lemma EndMoves(geo: Geometry, s: DeviceState, ok: bool, t: DeviceState)
    requires (s.depth > 0 <==> s.txn.Some?)
    requires s.depth == 0 ==> t == s
    requires s.depth > 1 ==> t == s.(depth := s.depth - 1)
    requires s.depth == 1 ==>
             t.depth == 0 && t.txn == None && if ok then Ends(geo, s.img, s.txn.value, t.img) else t.img == s.img
    ensures Moves(geo, s, End(ok), t)
  {
    hide Ends;
  }

  /** The journal superblock lies on the device. */
  lemma HeadRange(geo: Geometry, s: DeviceState, sn: u32, bytes: seq<byte>)
    requires Inv(geo, s, sn) && geo.blockSize > 0 && |bytes| % geo.blockSize == 0
    requires s.img == Blocks(bytes, geo.blockSize)
    ensures ValidImage(geo, s.img) && geo.Map(0) < |s.img| && geo.Map(0) * geo.blockSize + geo.blockSize <= |bytes|
  {
    hide LiveSb, QuietArea, Stageable;
    BlockEnds(geo.Map(0), |s.img|, geo.blockSize);
  }

  /** Readers see the journal superblock as it is on the device, captured writes or not. */
  lemma HeadSeen(geo: Geometry, s: DeviceState, sn: u32, bytes: seq<byte>, view: seq<byte>)
    requires Inv(geo, s, sn) && geo.blockSize > 0 && |bytes| % geo.blockSize == 0
    requires s.img == Blocks(bytes, geo.blockSize)
    requires s.txn.Some? ==> WholeStaged(s.txn.value.blocks, geo.blockSize)
    requires view == if s.txn.Some? then Overlay(bytes, geo.blockSize, s.txn.value.blocks) else bytes
    ensures ValidImage(geo, s.img) && geo.Map(0) * geo.blockSize + geo.blockSize <= |view|
    ensures view[geo.Map(0) * geo.blockSize..geo.Map(0) * geo.blockSize + geo.blockSize] == LogBlock(geo, s.img, 0)
  {
    hide LiveSb, QuietArea;
    HeadRange(geo, s, sn, bytes);
    var b, bs := geo.Map(0), geo.blockSize;
    var part := view[b * bs..b * bs + bs];
    assert geo.InLog(b) by { assert geo.logMap[0] == b; }
    forall x | 0 <= x < bs
      ensures part[x] == s.img[b][x]
    {
      BlockOf(b * bs + x, b, bs);
    }
  }

  lemma HeadDecides(geo: Geometry, img: Image)
    requires ValidImage(geo, img)
    ensures LiveSb(geo, img).Ok? <==> ParseJournalSuperblock(LogBlock(geo, img, 0)).Ok?
  {
    hide ParseJournalSuperblock, LogBlock;
  }

  lemma Opens(geo: Geometry, s: DeviceState, t: DeviceState, sn: u32, sb: JournalSuperblock)
    requires Inv(geo, s, sn) && ValidImage(geo, s.img) && ParseJournalSuperblock(LogBlock(geo, s.img, 0)) == Ok(sb)
    requires t.img == s.img && t.depth == s.depth + 1
    requires t.txn == if s.depth == 0 then Some(Transaction(sb.sequence, map[], {})) else s.txn
    ensures Moves(geo, s, Begin, t) && Inv(geo, t, sn)
  {
    hide Quiet, ParseJournalSuperblock, LogBlock, Stageable;
    QuietFacts(geo, s.img, sn);
    StepKeeps(geo, s, Begin, t, sn);
  }

  lemma InRangeOf(geo: Geometry, img: Image, offset: nat, len: nat, bytes: seq<byte>)
    requires geo.blockSize > 0 && |bytes| % geo.blockSize == 0 && img == Blocks(bytes, geo.blockSize)
    requires Writable(geo, img, offset, len)
    ensures offset + len <= |bytes|
  {
  }

  /** What an open transaction within its bounds needs to be committed. */
  lemma BoundedCommits(geo: Geometry, s: DeviceState, sn: u32)
    requires Inv(geo, s, sn) && s.txn.Some? && MayEnd(geo, s.img, s.txn.value)
    ensures Bounded(geo, s.img, s.txn.value) && CommitPre(geo, s.img, s.txn.value)
  {
    hide LiveSb, QuietArea, Numbers64, Stageable, WithinLimits, CommitTrace;
  }

  /** A commit that goes through leaves nothing pending. */
  lemma CommitSettles(geo: Geometry, s: DeviceState, sn: u32)
    requires Inv(geo, s, sn) && s.txn.Some? && CommitPre(geo, s.img, s.txn.value)
    requires MayEnd(geo, s.img, s.txn.value)
    ensures var t := CommitTrace(geo, s.img, s.txn.value, NoCrash);
            t.Ok? ==> OpsInRange(s.img, t.value) && Run(s.img, t.value).pending == []
  {
    hide Quiet, LiveSb, WithinLimits, CommitPre, CommitTrace, Run, Acceptable, Startable, FitsLog, Harmless, Stageable;
    var txn := s.txn.value;
    if txn.IsEmpty() {
      EmptyTraceOk(geo, s.img, txn);
      NothingPending(s.img);
    } else if CommitTrace(geo, s.img, txn, NoCrash).Ok? {
      EndAccepted(geo, s, sn);
      AcceptableStarts(geo, s.img, sn, txn);
      CommitComplete(geo, s.img, LiveSb(geo, s.img).value, txn);
    }
  }

  lemma NothingPending(img: Image)
    ensures Run(img, []).pending == []
  {
  }

  lemma CommitEnds(geo: Geometry, s: DeviceState, trace: seq<Op>, cells: Image)
    requires s.txn.Some? && Bounded(geo, s.img, s.txn.value) && CommitPre(geo, s.img, s.txn.value)
    requires MayEnd(geo, s.img, s.txn.value)
    requires var t := CommitTrace(geo, s.img, s.txn.value, NoCrash);
             if t.Ok? then
               trace == t.value && OpsInRange(s.img, trace) && cells == View(s.img, trace)
                   && Run(s.img, trace).pending == []
             else cells == s.img
    ensures Ends(geo, s.img, s.txn.value, cells)
  {
    hide Bounded, WithinLimits, CommitPre, CommitTrace, Run;
    var t := CommitTrace(geo, s.img, s.txn.value, NoCrash);
    if t.Ok? {
      NothingToApply(Run(s.img, trace).durable);
    }
  }

  lemma NothingToApply(img: Image)
    ensures Apply(img, []) == img
  {
  }

  lemma EndsWhole(geo: Geometry, s: DeviceState, sn: u32, cells: Image)
    requires Inv(geo, s, sn) && s.depth == 1 && s.txn.Some? && Ends(geo, s.img, s.txn.value, cells)
    ensures forall b :: 0 <= b < |cells| ==> |cells[b]| == geo.blockSize
  {
    hide Quiet, LiveSb, Ends, Stageable, Durable, SameFs;
    var t := DeviceState(cells, 0, None);
    EndStep(geo, s, t, sn);
    QuietFacts(geo, cells, sn + |Durable(geo, s, End(true))|);
  }
}
