/** The two side conditions of the crash theorem are needed: exactly what goes wrong without them. */
module JournalLimits {
  import opened Bytes
  import opened Outcome
  import opened JournalCodec
  import opened CrashDisk
  import opened JournalLog
  import opened Journal
  import opened JournalRecovery
  import opened JournalReplay
  import opened JournalQuiet
  import opened JournalCommitted
  import opened JournalCrash
  import opened JournalAtomic
  import opened JournalCrashSafe

  // ---- revoking what the same transaction staged ------------------------------------------------

  /** The image at the injected stop after the commit block is a crash image of the commit. */
  lemma StopIsCrash(geo: Geometry, img: Image, live: Live, txn: Transaction)
    requires Startable(geo, img, live, txn)
    ensures ValidImage(geo, img) && Ready(geo, img, live, txn) && EpochsFit(img, CommitEpochs(geo, img, live, txn))
    ensures var st := StagesOf(img, CommitEpochs(geo, img, live, txn));
            && CrashImage(geo, img, txn, AfterCommitBlock, st.recoverOn)
            && CrashImage(geo, img, txn, NoCrash, st.recoverOn)
  {
    hide Body, UpdateSuperblock, PatchRecover, JournaledWrites, TagCapacity, RevokesFit, Apply, Startable, AfterEpochs;
    hide LiveSb, Ready, Trace, Run, CommitPre, CommitEpochs, CommitTrace, StagesOf, Survivor, CrashDuring;
    hide EpochsInRange;
    StartableTrace(geo, img, live, txn, AfterCommitBlock);
    StartableTrace(geo, img, live, txn, NoCrash);
    CommitFits(geo, img, live, txn);
    var e := CommitEpochs(geo, img, live, txn);
    FirstStages(img, e);
    RunTrace(img, e.All()[..4]);
    StopAtRest(img, Trace(e.All()[..4]));
    StoppedIsPrefix(e, AfterCommitBlock);
    PrefixCrash(img, Trace(e.All()[..4]), Trace(e.All()), StagesOf(img, e).recoverOn);
  }

  lemma StopAtRest(img: Image, ops: seq<Op>)
    requires OpsInRange(img, ops) && Run(img, ops).pending == []
    ensures CrashDuring(img, ops, Run(img, ops).durable)
  {
    hide Run;
    var d := Run(img, ops);
    assert ops[..|ops|] == ops;
    assert Survivor(d.durable, d.pending, []) == d.durable;
    assert CrashAfter(img, ops[..|ops|], d.durable);
  }

  /** Recovery drops a block that was both staged and revoked, so atomicity fails unless that changes nothing. */
  lemma RevokedBlockLost(geo: Geometry, img: Image, live: Live, txn: Transaction, b: nat)
    requires Startable(geo, img, live, txn) && FitsLog(geo, live.sb, txn)
    requires b in txn.revokes && b in txn.blocks && b < |img|
    requires ValidImage(geo, img) && Ready(geo, img, live, txn) && EpochsFit(img, CommitEpochs(geo, img, live, txn))
    requires AllOrNothing(geo, img, txn, StagesOf(img, CommitEpochs(geo, img, live, txn)).recoverOn)
    ensures SameBlock(geo, b, txn.blocks[b], img[b])
  {
    hide PatchRecover, WithoutRevoked, SameBlock, JournaledWrites, CommitOnDisk, LiveSb, RecoverPre, Quiet, Startable;
    hide CommitEpochs;
    hide SameFs, Recovered, NothingNewer, ScanLog, Plan, StagesOf, FitsLog, Apply, Committable, TagCapacity, ValidImage;
    hide SameLog;
    CommittedStages(geo, img, live, txn);
    var c := StagesOf(img, CommitEpochs(geo, img, live, txn)).recoverOn;
    var all := JournaledWrites(geo, img, txn);
    var ws := WithoutRevoked(all, txn.revokes);
    PendingRecovers(geo, c, txn.sequence, ws);
    var r := Recovered(geo, c).value;
    JournaledOutsideLog(geo, img, txn);
    assert InRange(c, all);
    ApplyWithout(c, all, txn.revokes, b);
    RecoverOnBlock(geo, img, live, txn, b);
    SameFsSym(geo, r, Apply(c, ws));
    SameFsTrans(geo, Apply(c, ws), r, Staged(img, txn));
    SameFsAt(geo, Apply(c, ws), Staged(img, txn), b);
    SameBlockChain(geo, b, Staged(img, txn)[b], c[b], img[b]);
  }

  lemma SameFsAt(geo: Geometry, a: Image, b: Image, i: nat)
    requires SameFs(geo, a, b) && i < |a| && !geo.InLog(i)
    ensures SameBlock(geo, i, a[i], b[i])
  {
    hide PatchRecover;
  }

  lemma SameBlockChain(geo: Geometry, b: nat, x: Block, y: Block, z: Block)
    requires SameBlock(geo, b, y, x) && SameBlock(geo, b, y, z)
    ensures SameBlock(geo, b, x, z)
  {
    hide PatchRecover;
  }

  /** Before the checkpoint every block outside the log is the old one. */
  lemma RecoverOnBlock(geo: Geometry, img: Image, live: Live, txn: Transaction, b: nat)
    requires Startable(geo, img, live, txn) && FitsLog(geo, live.sb, txn)
    requires ValidImage(geo, img) && Ready(geo, img, live, txn) && EpochsFit(img, CommitEpochs(geo, img, live, txn))
    requires b < |img| && !geo.InLog(b)
    ensures SameBlock(geo, b, StagesOf(img, CommitEpochs(geo, img, live, txn)).recoverOn[b], img[b])
  {
    hide PatchRecover, JournaledWrites, CommitOnDisk, LiveSb, Quiet, Startable, Body, Apply, UpdateSuperblock, LogBlock;
    hide FitsLog, Committable, TagCapacity, SameLog, Midway;
    CommittedStages(geo, img, live, txn);
    PatchRecoverTwice(geo.crc, img[geo.SbBlock()], geo.SbOff(), true, false);
  }

  /** Every crash image of a commit recovers to all or nothing exactly when revoking the staged blocks is harmless. */
  lemma AtomicIffHarmless(geo: Geometry, img: Image, live: Live, txn: Transaction)
    requires Startable(geo, img, live, txn) && FitsLog(geo, live.sb, txn)
    ensures (forall c :: CrashImage(geo, img, txn, NoCrash, c) ==> AllOrNothing(geo, img, txn, c))
       <==> Harmless(geo, img, txn, txn.revokes)
  {
    hide Startable, FitsLog, CrashImage, AllOrNothing, SameBlock, CommitEpochs, StagesOf, Ready;
    if Harmless(geo, img, txn, txn.revokes) {
      forall c | CrashImage(geo, img, txn, NoCrash, c)
        ensures AllOrNothing(geo, img, txn, c)
      {
        CommitCrashAtomic(geo, img, live, txn, NoCrash, c);
      }
    }
    if forall c :: CrashImage(geo, img, txn, NoCrash, c) ==> AllOrNothing(geo, img, txn, c) {
      StopIsCrash(geo, img, live, txn);
      forall b | b in txn.revokes && b in txn.blocks && b < |img|
        ensures SameBlock(geo, b, txn.blocks[b], img[b])
      {
        RevokedBlockLost(geo, img, live, txn, b);
      }
    }
  }

  // ---- a transaction larger than the log ---------------------------------------------------------

  /** Some write to a block decides its content. */
  lemma {:induction false} ApplyTargeted(img: Image, ws: seq<BlockWrite>, b: nat)
    requires InRange(img, ws) && b < |img| && Targets(ws, b)
    ensures exists i :: 0 <= i < |ws| && ws[i] == BlockWrite(b, Apply(img, ws)[b])
    decreases |ws|
  {
    var img' := img[ws[0].target := ws[0].data];
    assert Apply(img, ws) == Apply(img', ws[1..]);
    if Targets(ws[1..], b) {
      ApplyTargeted(img', ws[1..], b);
      var i :| 0 <= i < |ws[1..]| && ws[1..][i] == BlockWrite(b, Apply(img', ws[1..])[b]);
      assert ws[i + 1] == BlockWrite(b, Apply(img, ws)[b]);
    } else {
      TargetsHead(ws, b);
      ApplyBlock(img', ws[1..], b);
      assert ws[0] == BlockWrite(b, Apply(img, ws)[b]);
    }
  }

  /** More than a whole round of the log visits every position again after the first block. */
  lemma Revisited(sb: JournalSuperblock, n: nat, pos: nat) returns (i: nat)
    requires sb.first < sb.maxlen && n >= sb.maxlen - sb.first && sb.first <= pos < sb.maxlen
    ensures 1 <= i <= n && AdvanceBy(sb.first, sb.maxlen, sb.first, i) == pos
  {
    if pos > sb.first {
      i := pos - sb.first;
      Linear(sb, sb.first, i);
    } else {
      i := sb.maxlen - sb.first;
      Linear(sb, sb.first, i - 1);
      AdvanceOne(sb, sb.first, i - 1);
    }
  }

  /** The revoke pass can read the block. */
  predicate RevokeReads(geo: Geometry, live: Live, block: Block) {
    (live.hasCsum ==> TailCsumOk(geo.crc, live.seed, block)) && ParseRevokeBlock(block, live.has64).Ok?
  }

  /** Not a descriptor, and readable if it is a revoke block. */
  predicate Leftover(geo: Geometry, live: Live, block: Block) {
    |block| >= HEADER_LEN && (GetBe32(block, 0) == MAGIC ==>
      GetBe32(block, 4) != DESCRIPTOR_BLOCK && (GetBe32(block, 4) == REVOKE_BLOCK ==> RevokeReads(geo, live, block)))
  }

  predicate RevokesRead(geo: Geometry, img: Image, live: Live, idxs: seq<nat>)
    requires ValidImage(geo, img)
  {
    forall i :: 0 <= i < |idxs| ==> RevokeReads(geo, live, LogBlock(geo, img, idxs[i]))
  }

  predicate NoData(geo: Geometry, img: Image, live: Live, txns: seq<ScannedTxn>)
    requires ValidImage(geo, img)
  {
    forall i :: 0 <= i < |txns| ==> txns[i].blocks == [] && RevokesRead(geo, img, live, txns[i].revokeLogBlocks)
  }

  /** A walk that meets no descriptor finds transactions without data. */
  lemma {:induction false} WalkLeftover(geo: Geometry, img: Image, live: Live, s: ScanState, fuel: nat)
    requires ValidImage(geo, img) && live.sb.first <= s.cursor < live.sb.maxlen && SaneLog(geo, live.sb)
    requires forall pos: nat :: live.sb.first <= pos < live.sb.maxlen ==> Leftover(geo, live, LogBlock(geo, img, pos))
    requires s.blocks == [] && RevokesRead(geo, img, live, s.revokes) && NoData(geo, img, live, s.txns)
    ensures Walk(geo, img, live, s, fuel).Ok? && NoData(geo, img, live, Walk(geo, img, live, s, fuel).value)
    decreases fuel
  {
    hide GetBe32, ParseDescriptor, LogBlock, CommitCsumOk, RevokeReads;
    if fuel > 0 {
      assert Leftover(geo, live, LogBlock(geo, img, s.cursor));
      var step := Step(geo, img, live, s);
      if step.Go? {
        WalkLeftover(geo, img, live, step.next, fuel - 1);
      }
    }
  }

  lemma {:induction false} ReadBlocks(geo: Geometry, img: Image, live: Live, table: RevokeTable, idxs: seq<nat>)
    requires ValidImage(geo, img) && RevokesRead(geo, img, live, idxs)
    ensures AddRevokeBlocks(geo, img, live, table, idxs).Ok?
    decreases |idxs|
  {
    hide TailCsumOk, ParseRevokeBlock, AddRevoked, LogBlock;
    if idxs != [] {
      assert RevokeReads(geo, live, LogBlock(geo, img, idxs[0]));
      var rb := ParseRevokeBlock(LogBlock(geo, img, idxs[0]), live.has64).value;
      ReadBlocks(geo, img, live, AddRevoked(table, rb.blocks, rb.sequence), idxs[1..]);
    }
  }

  lemma {:induction false} ReadTxns(geo: Geometry, img: Image, live: Live, table: RevokeTable, txns: seq<ScannedTxn>)
    requires ValidImage(geo, img) && NoData(geo, img, live, txns)
    ensures AddTxnRevokes(geo, img, live, table, txns).Ok?
    decreases |txns|
  {
    hide AddRevokeBlocks, RevokesRead;
    if txns != [] {
      ReadBlocks(geo, img, live, table, txns[0].revokeLogBlocks);
      ReadTxns(geo, img, live, AddRevokeBlocks(geo, img, live, table, txns[0].revokeLogBlocks).value, txns[1..]);
    }
  }

  lemma {:induction false} NoDataNoReplay(geo: Geometry, img: Image, live: Live, table: RevokeTable,
      txns: seq<ScannedTxn>)
    requires ValidImage(geo, img) && NoData(geo, img, live, txns)
    ensures ToReplay(table, txns) == []
    decreases |txns|
  {
    if txns != [] {
      NoDataNoReplay(geo, img, live, table, txns[1..]);
    }
  }

  /** A log without descriptors is recovered without touching the file system. */
  lemma LeftoverRecovers(geo: Geometry, img: Image, live: Live)
    requires ValidImage(geo, img) && LiveSb(geo, img) == Ok(live) && SaneLog(geo, live.sb)
    requires live.sb.start == live.sb.first
    requires forall pos: nat :: live.sb.first <= pos < live.sb.maxlen ==> Leftover(geo, live, LogBlock(geo, img, pos))
    ensures RecoverPre(geo, img) && Recovered(geo, img).Ok? && SameFs(geo, Recovered(geo, img).value, img)
  {
    hide LiveSb, LogBlock, Leftover, PatchRecover, UpdateSuperblock, ParseJournalSuperblock, AfterEpochs, Apply, SameFs;
    WalkLeftover(geo, img, live, StartState(live.sb), live.sb.maxlen);
    var txns := ScanLog(geo, img).value.txns;
    SameFsSelf(geo, img);
    if txns != [] {
      ReadTxns(geo, img, live, map[], txns);
      NoDataNoReplay(geo, img, live, RevokesOf(geo, img, txns).value, txns);
      NothingReplayed(geo, img, img, []);
      LeftoverPlan(geo, img);
    }
  }

  lemma LeftoverPlan(geo: Geometry, img: Image)
    requires RecoverPre(geo, img) && ScanLog(geo, img).Ok? && ScanLog(geo, img).value.txns != []
    requires RevokesOf(geo, img, ScanLog(geo, img).value.txns).Ok?
    requires ToReplay(RevokesOf(geo, img, ScanLog(geo, img).value.txns).value, ScanLog(geo, img).value.txns) == []
    ensures Recovered(geo, img).Ok? && SameFs(geo, Recovered(geo, img).value, img)
  {
    hide LiveSb, LogBlock, PatchRecover, UpdateSuperblock, ParseJournalSuperblock, AfterEpochs, Apply, SameFs, ScanLog;
    hide RevokesOf, RecoverPre;
    PreValid(geo, img);
    PlanFacts(geo, img, LiveCsum(geo, img));
    var p := Plan(geo, img, LiveCsum(geo, img)).value;
    PlanEpochs(img, p);
    NothingReplayed(geo, img, img, []);
    HeadThenOff(geo, img, p.head.data);
  }

  lemma BodyLeftover(geo: Geometry, img: Image, live: Live, txn: Transaction, i: nat)
    requires ValidImage(geo, img) && Ready(geo, img, live, txn)
    requires RevokesFit(|txn.revokes|, geo.blockSize, live.has64, live.hasCsum)
    requires 1 <= i < |Body(geo, img, live, txn)|
    ensures Leftover(geo, Dirty(live), Body(geo, img, live, txn)[i])
  {
    hide Body, GetBe32, ParseDescriptor, RevokesFit, TagCapacity, JournaledWrites, ParseRevokeBlock, Ready, EscapeData;
    hide TailCsumOk;
    hide Revoked64, StoredRevokes, ValidImage, JournaledCount, StoredTags, TagsFor;
    if i <= JournaledCount(geo, txn) {
      BodyData(geo, img, live, txn, i - 1);
    } else {
      BodyRevokes(geo, img, live, txn);
    }
  }

  /** In an overflowing body every position that is not the commit block's holds a later block than the descriptor. */
  lemma OverflowBody(geo: Geometry, img: Image, live: Live, txn: Transaction, pos: nat)
    requires ValidImage(geo, img) && Ready(geo, img, live, txn) && EpochsFit(img, CommitEpochs(geo, img, live, txn))
    requires !FitsLog(geo, live.sb, txn) && live.sb.first <= pos < live.sb.maxlen
    requires geo.Map(pos) != CommitEpochs(geo, img, live, txn).commit.target && geo.Map(pos) < |img|
    ensures exists k :: 1 <= k < |Body(geo, img, live, txn)|
                        && StagesOf(img, CommitEpochs(geo, img, live, txn)).body[geo.Map(pos)]
                            == Body(geo, img, live, txn)[k]
  {
    hide Body, CommitBlock, UpdateSuperblock, PatchRecover, JournaledWrites, TagCapacity, RevokesFit, AdvanceBy;
    hide JournaledCount, Committable;
    hide Geometry.Valid, Apply;
    var body := Body(geo, img, live, txn);
    var ws := LogWrites(geo, live.sb, body);
    var i := Revisited(live.sb, |body|, pos);
    var b := geo.Map(pos);
    assert i < |body|;
    LaterBlock(geo, img, ws, b, i);
    var k :| 1 <= k < |ws| && ws[k].data == Apply(img, ws)[b];
    assert body[k] == Apply(img, ws)[b];
  }

  lemma LaterBlock(geo: Geometry, img: Image, ws: seq<BlockWrite>, b: nat, i: nat)
    requires InRange(img, ws) && b < |img| && 1 <= i < |ws| && ws[i].target == b
    ensures exists k :: 1 <= k < |ws| && ws[k].data == Apply(img, ws)[b]
  {
    var img' := img[ws[0].target := ws[0].data];
    assert ws[1..][i - 1].target == b;
    ApplyTargeted(img', ws[1..], b);
    var k :| 0 <= k < |ws[1..]| && ws[1..][k] == BlockWrite(b, Apply(img', ws[1..])[b]);
    assert ws[k + 1].data == Apply(img, ws)[b];
  }

  lemma OverflowArea(geo: Geometry, img: Image, live: Live, txn: Transaction, pos: nat)
    requires ValidImage(geo, img) && Ready(geo, img, live, txn) && EpochsFit(img, CommitEpochs(geo, img, live, txn))
    requires RevokesFit(|txn.revokes|, geo.blockSize, live.has64, live.hasCsum)
    requires !FitsLog(geo, live.sb, txn) && live.sb.first <= pos < live.sb.maxlen
    requires ValidImage(geo, StagesOf(img, CommitEpochs(geo, img, live, txn)).commit)
    ensures Leftover(geo, Dirty(live), LogBlock(geo, StagesOf(img, CommitEpochs(geo, img, live, txn)).commit, pos))
  {
    hide Body, CommitBlock, UpdateSuperblock, PatchRecover, JournaledWrites, TagCapacity, RevokesFit, AdvanceBy;
    hide JournaledCount, Committable;
    hide Apply, GetBe32, RevokeReads, FitsLog;
    CursorApart(geo, |img|, live.sb, pos);
    var e := CommitEpochs(geo, img, live, txn);
    if geo.Map(pos) == e.commit.target {
      CommitBlockValid(geo.crc, live.seed, txn.sequence, geo.blockSize, live.hasCsum);
    } else {
      OverflowBody(geo, img, live, txn, pos);
      var k :| 1 <= k < |Body(geo, img, live, txn)|
          && StagesOf(img, e).body[geo.Map(pos)] == Body(geo, img, live, txn)[k];
      BodyLeftover(geo, img, live, txn, k);
    }
  }

  lemma CommitBlockPut(geo: Geometry, img: Image, live: Live, txn: Transaction)
    requires Startable(geo, img, live, txn)
    ensures ValidImage(geo, img) && Ready(geo, img, live, txn) && EpochsFit(img, CommitEpochs(geo, img, live, txn))
    ensures var st := StagesOf(img, CommitEpochs(geo, img, live, txn));
            && ValidImage(geo, st.commit) && LiveSb(geo, st.commit) == Ok(Dirty(live))
                && SameOutside(geo, st.commit, img)
            && ValidImage(geo, st.recoverOn) && SameLog(geo, st.commit, st.recoverOn)
            && SameFs(geo, st.recoverOn, img)
  {
    hide Body, UpdateSuperblock, PatchRecover, JournaledWrites, TagCapacity, RevokesFit, LogWrites, Apply, Quiet;
    hide LiveSb, NumbersFit, LogBlock, CommitBlock, JournaledCount, Geometry.Valid, Committable, SameFs, SameOutside;
    StartableReady(geo, img, live, txn);
    CommitFits(geo, img, live, txn);
    DirtyStage(geo, img, live, txn);
    var e := CommitEpochs(geo, img, live, txn);
    var st := StagesOf(img, e);
    var pos := AdvanceBy(live.sb.first, live.sb.maxlen, live.sb.first, |Body(geo, img, live, txn)|);
    QuietIsValid(geo, st.dirty, txn.sequence);
    OneLogBlock(geo, st.dirty, live.sb, pos, e.commit.data);
    LiveFrame(geo, st.dirty, st.commit);
    OutsideChain(geo, st.commit, st.dirty, img);
    TowardPatched(geo, img, txn, st.commit, true);
    PatchedSameFs(geo, st.commit, img, true);
  }

  lemma QuietIsValid(geo: Geometry, a: Image, s: u32)
    requires Quiet(geo, a, s)
    ensures ValidImage(geo, a)
  {
    hide LiveSb, QuietArea;
  }

  lemma OutsideChain(geo: Geometry, a: Image, b: Image, c: Image)
    requires SameOutside(geo, a, b) && SameOutside(geo, b, c)
    ensures SameOutside(geo, a, c)
  {
    hide Geometry.InLog;
  }

  lemma PatchedSameFs(geo: Geometry, a: Image, img: Image, on: bool)
    requires ValidImage(geo, a) && ValidImage(geo, img) && SameOutside(geo, a, img)
    ensures SameFs(geo, a[geo.SbBlock() := PatchRecover(geo.crc, img[geo.SbBlock()], geo.SbOff(), on)], img)
  {
    hide PatchRecover;
    PatchRecoverTwice(geo.crc, img[geo.SbBlock()], geo.SbOff(), on, false);
  }

  /**
   A transaction that does not fit the log overwrites its own descriptor while it is being logged. Its commit
   succeeds, but a crash right after the commit block loses all of it.
   */
  lemma OverflowLosesCommit(geo: Geometry, img: Image, live: Live, txn: Transaction)
    requires Startable(geo, img, live, txn) && !FitsLog(geo, live.sb, txn)
    ensures ValidImage(geo, img) && Ready(geo, img, live, txn) && EpochsFit(img, CommitEpochs(geo, img, live, txn))
    ensures var c := StagesOf(img, CommitEpochs(geo, img, live, txn)).recoverOn;
            RecoverPre(geo, c) && Recovered(geo, c).Ok? && SameFs(geo, Recovered(geo, c).value, img)
  {
    hide Body, UpdateSuperblock, PatchRecover, JournaledWrites, TagCapacity, LogWrites, Apply, Quiet, StagesOf;
    hide CommitEpochs;
    hide LiveSb, NumbersFit, LogBlock, CommitBlock, JournaledCount, Committable, SameFs, SameOutside, RecoverPre;
    hide Recovered, Leftover;
    hide FitsLog;
    CommitBlockPut(geo, img, live, txn);
    var st := StagesOf(img, CommitEpochs(geo, img, live, txn));
    var c := st.recoverOn;
    forall pos: nat | live.sb.first <= pos < live.sb.maxlen
      ensures Leftover(geo, Dirty(live), LogBlock(geo, c, pos))
    {
      OverflowArea(geo, img, live, txn, pos);
      assert LogBlock(geo, st.commit, pos) == LogBlock(geo, c, pos);
    }
    HeadKept(geo, st.commit, st.commit, c) by { SameLogSelf(geo, st.commit); }
    LeftoverRecovers(geo, c, Dirty(live));
    SameFsTrans(geo, Recovered(geo, c).value, c, img);
  }

  lemma SameLogSelf(geo: Geometry, a: Image)
    requires ValidImage(geo, a)
    ensures SameLog(geo, a, a)
  {
  }

  /**
   Power lost right after the commit block became durable: recovery gives the whole transaction exactly when
   it fit the log and revoked nothing it changed, or when it changed nothing at all.
   */
  lemma DurableIff(geo: Geometry, img: Image, live: Live, txn: Transaction)
    requires Startable(geo, img, live, txn)
    ensures ValidImage(geo, img) && Ready(geo, img, live, txn) && EpochsFit(img, CommitEpochs(geo, img, live, txn))
    ensures var c := StagesOf(img, CommitEpochs(geo, img, live, txn)).recoverOn;
            && CrashImage(geo, img, txn, AfterCommitBlock, c) && RecoverPre(geo, c) && Recovered(geo, c).Ok?
            && (SameFs(geo, Recovered(geo, c).value, Staged(img, txn)) <==>
                  SameFs(geo, img, Staged(img, txn))
                  || (FitsLog(geo, live.sb, txn) && Harmless(geo, img, txn, txn.revokes)))
  {
    hide PatchRecover, LiveSb, Quiet, StagesOf, CommitEpochs, Startable, SameBlock, Committable, TagCapacity, SameLog;
    hide SameFs, RecoverPre, Recovered, FitsLog, CrashImage, CommitOnDisk, Toward, Pending, SameOutside, LogBlock;
    StopIsCrash(geo, img, live, txn);
    var c := StagesOf(img, CommitEpochs(geo, img, live, txn)).recoverOn;
    if FitsLog(geo, live.sb, txn) {
      CommittedStages(geo, img, live, txn);
      MidwayRecovers(geo, img, txn, c);
      if SameFs(geo, img, Staged(img, txn)) {
        forall b | b in txn.revokes && b in txn.blocks && b < |img|
          ensures SameBlock(geo, b, txn.blocks[b], img[b])
        {
          SameFsAt(geo, img, Staged(img, txn), b);
          SameBlockSym(geo, b, img[b], txn.blocks[b]);
        }
      }
      if SameFs(geo, Recovered(geo, c).value, Staged(img, txn)) {
        forall b | b in txn.revokes && b in txn.blocks && b < |img|
          ensures SameBlock(geo, b, txn.blocks[b], img[b])
        {
          RevokedBlockLost(geo, img, live, txn, b);
        }
      }
    } else {
      OverflowLosesCommit(geo, img, live, txn);
      var r := Recovered(geo, c).value;
      SameFsSym(geo, r, img);
      if SameFs(geo, img, Staged(img, txn)) {
        SameFsTrans(geo, r, img, Staged(img, txn));
      }
      if SameFs(geo, r, Staged(img, txn)) {
        SameFsTrans(geo, img, r, Staged(img, txn));
      }
    }
  }

  lemma SameBlockSym(geo: Geometry, b: nat, x: Block, y: Block)
    requires SameBlock(geo, b, x, y)
    ensures SameBlock(geo, b, y, x)
  {
    hide PatchRecover;
  }
}
