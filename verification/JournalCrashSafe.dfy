/** The crash theorem of a commit, and exactly when it needs its side conditions. */
module JournalCrashSafe {
  import opened Bytes
  import opened Outcome
  import opened JournalCodec
  import opened CrashDisk
  import opened JournalLog
  import opened Journal
  import opened JournalRecovery
  import opened JournalReplay
  import opened JournalQuiet
  import opened JournalCommitted
  import opened JournalCrash
  import opened JournalAtomic

  /** Nothing of the transaction shows, and recovery has nothing to do. */
  predicate Before(geo: Geometry, img: Image, s: u32, c: Image) {
    Quiet(geo, c, s) && SameFs(geo, c, img) && !CommitOnDisk(geo, c, s)
  }

  /** Committed, the checkpoint under way. */
  predicate Midway(geo: Geometry, img: Image, txn: Transaction, c: Image) {
    && ValidImage(geo, img) && Stageable(geo, img, txn)
    && Pending(geo, c, txn.sequence, WithoutRevoked(JournaledWrites(geo, img, txn), txn.revokes))
    && Toward(geo, img, txn, c) && CommitOnDisk(geo, c, txn.sequence)
  }

  /** All in place, the journal clean. */
  predicate After(geo: Geometry, img: Image, txn: Transaction, c: Image) {
    && txn.sequence < 0xFFFF_FFFF && Quiet(geo, c, txn.sequence + 1)
    && SameFs(geo, c, Staged(img, txn)) && CommitOnDisk(geo, c, txn.sequence)
  }

  // ---- stage by stage -----------------------------------------------------------------------

  lemma QuietIsBefore(geo: Geometry, img: Image, s: u32, c: Image)
    requires ValidImage(geo, img) && Quiet(geo, c, s) && SameOutside(geo, c, img)
    ensures Before(geo, img, s, c)
  {
    hide LiveSb, QuietArea, LogBlock, SaneLog, SameFs, CommitOnDisk, SameOutside;
    QuietHasNoCommit(geo, c, s);
    OutsideSameFs(geo, c, img);
  }

  lemma LoggedOnDisk(geo: Geometry, live: Live, body: seq<Block>, s: u32, c: Image)
    requires Logged(geo, live, body, s, c)
    ensures CommitOnDisk(geo, c, s)
  {
    hide LiveSb, LogBlock, NothingNewer, CommitBlock, GetBe32;
    CommitBlockValid(geo.crc, live.seed, s, geo.blockSize, live.hasCsum);
    assert CommitAt(geo, c, live.sb.first + |body|, s);
  }

  /** The log from index 1 on agrees. */
  predicate SameTail(geo: Geometry, a: Image, b: Image)
    requires ValidImage(geo, a) && ValidImage(geo, b)
  {
    forall idx :: 1 <= idx < |geo.logMap| ==> LogBlock(geo, a, idx) == LogBlock(geo, b, idx)
  }

  lemma CommitStays(geo: Geometry, a: Image, b: Image, s: u32)
    requires ValidImage(geo, a) && ValidImage(geo, b) && SameTail(geo, a, b) && CommitOnDisk(geo, a, s)
    requires LiveSb(geo, b).Ok? && SaneLog(geo, LiveSb(geo, a).value.sb)
    requires LiveSb(geo, b).value.sb.first == LiveSb(geo, a).value.sb.first
    requires LiveSb(geo, b).value.sb.maxlen == LiveSb(geo, a).value.sb.maxlen
    ensures CommitOnDisk(geo, b, s)
  {
    hide LiveSb, LogBlock, GetBe32;
    var sb := LiveSb(geo, a).value.sb;
    var pos :| sb.first <= pos < sb.maxlen && CommitAt(geo, a, pos, s);
    assert LogBlock(geo, a, pos) == LogBlock(geo, b, pos);
    assert CommitAt(geo, b, pos, s);
  }

  lemma CommitStaysSameLog(geo: Geometry, a: Image, b: Image, s: u32)
    requires ValidImage(geo, a) && ValidImage(geo, b) && SameLog(geo, a, b) && CommitOnDisk(geo, a, s)
    requires LiveSb(geo, a).Ok? && SaneLog(geo, LiveSb(geo, a).value.sb)
    ensures CommitOnDisk(geo, b, s) && LiveSb(geo, b) == LiveSb(geo, a)
  {
    hide LiveSb, LogBlock, CommitOnDisk;
    assert LogBlock(geo, a, 0) == LogBlock(geo, b, 0);
    LiveFrame(geo, a, b);
    CommitStays(geo, a, b, s);
  }

  lemma OutsideIsToward(geo: Geometry, img: Image, txn: Transaction, c: Image)
    requires ValidImage(geo, img) && ValidImage(geo, c) && SameOutside(geo, c, img)
    ensures Toward(geo, img, txn, c)
  {
    hide PatchRecover;
    forall b: nat | b < |img| && !geo.InLog(b)
      ensures SameBlock(geo, b, c[b], img[b])
    {
    }
  }

  lemma TowardPatched(geo: Geometry, img: Image, txn: Transaction, c: Image, on: bool)
    requires ValidImage(geo, img) && ValidImage(geo, c) && SameOutside(geo, c, img)
    ensures var d := c[geo.SbBlock() := PatchRecover(geo.crc, img[geo.SbBlock()], geo.SbOff(), on)];
            ValidImage(geo, d) && SameLog(geo, c, d) && Toward(geo, img, txn, d)
  {
    hide PatchRecover;
    PatchRecoverTwice(geo.crc, img[geo.SbBlock()], geo.SbOff(), on, false);
    LogButSb(geo, c, PatchRecover(geo.crc, img[geo.SbBlock()], geo.SbOff(), on));
    var d := c[geo.SbBlock() := PatchRecover(geo.crc, img[geo.SbBlock()], geo.SbOff(), on)];
    forall b: nat | b < |img| && !geo.InLog(b)
      ensures SameBlock(geo, b, d[b], img[b])
    {
    }
  }

  /** The commit block is durable, with and without RECOVER set. */
  lemma CommittedStages(geo: Geometry, img: Image, live: Live, txn: Transaction)
    requires Startable(geo, img, live, txn) && FitsLog(geo, live.sb, txn)
    ensures ValidImage(geo, img) && Ready(geo, img, live, txn) && EpochsFit(img, CommitEpochs(geo, img, live, txn))
    ensures var st := StagesOf(img, CommitEpochs(geo, img, live, txn));
            && Midway(geo, img, txn, st.commit) && Midway(geo, img, txn, st.recoverOn)
            && SameLog(geo, st.commit, st.recoverOn)
            && LiveSb(geo, st.commit) == LiveSb(geo, st.recoverOn) == Ok(Dirty(live))
            && ValidImage(geo, st.commit) && SameOutside(geo, st.commit, img)
            && LogBlock(geo, st.commit, 0) == CommitEpochs(geo, img, live, txn).dirty.data
  {
    hide Body, UpdateSuperblock, PatchRecover, JournaledWrites, TagCapacity, RevokesFit, LogWrites, Apply, Pending;
    hide Toward;
    hide LiveSb, NumbersFit, LogBlock, CommitBlock, GetBe32, NothingNewer, JournaledCount, WithoutRevoked, Quiet;
    hide SameOutside, CommitOnDisk, SameLog, FitsLog, Committable;
    CommitStage(geo, img, live, txn);
    var e := CommitEpochs(geo, img, live, txn);
    var st := StagesOf(img, e);
    LoggedPending(geo, img, live, txn, st.commit);
    LoggedOnDisk(geo, Dirty(live), Body(geo, img, live, txn), txn.sequence, st.commit);
    OutsideIsToward(geo, img, txn, st.commit);
    TowardPatched(geo, img, txn, st.commit, true);
    PendingSame(geo, st.commit, st.recoverOn, txn.sequence,
        WithoutRevoked(JournaledWrites(geo, img, txn), txn.revokes));
    CommitStaysSameLog(geo, st.commit, st.recoverOn, txn.sequence);
  }

  /** Writing some of the journaled blocks to their places keeps an image on its way. */
  lemma CheckpointSurvivor(geo: Geometry, img: Image, txn: Transaction, a: Image, keep: seq<bool>)
    requires Midway(geo, img, txn, a) && |keep| == |JournaledWrites(geo, img, txn)|
    ensures InRange(a, JournaledWrites(geo, img, txn))
    ensures var c := Survivor(a, JournaledWrites(geo, img, txn), keep);
            ValidImage(geo, a) && ValidImage(geo, c) && SameLog(geo, a, c) && Midway(geo, img, txn, c)
  {
    hide PatchRecover, Survivor, WithoutRevoked, Geometry.InLog, SameBlock, JournaledWrites, CommitOnDisk, LiveSb;
    hide Pending, SameLog;
    hide Stageable;
    var ws := JournaledWrites(geo, img, txn);
    JournaledOutsideLog(geo, img, txn);
    SurvivorLog(geo, a, ws, keep);
    var c := Survivor(a, ws, keep);
    PendingLive(geo, a, txn.sequence, WithoutRevoked(ws, txn.revokes));
    PendingSame(geo, a, c, txn.sequence, WithoutRevoked(ws, txn.revokes));
    CommitStaysSameLog(geo, a, c, txn.sequence);
    forall b: nat | b < |img| && !geo.InLog(b)
      ensures SameBlock(geo, b, c[b], img[b]) || SameBlock(geo, b, c[b], Staged(img, txn)[b])
    {
      SurvivorBlock(a, ws, keep, b);
      if c[b] != a[b] {
        var i :| 0 <= i < |ws| && ws[i] == BlockWrite(b, c[b]);
        JournaledSame(geo, img, txn, i);
      }
    }
  }

  lemma PendingLive(geo: Geometry, a: Image, s: u32, ws: seq<BlockWrite>)
    requires Pending(geo, a, s, ws)
    ensures ValidImage(geo, a) && LiveSb(geo, a).Ok? && SaneLog(geo, LiveSb(geo, a).value.sb)
    ensures NothingNewer(geo, a, LiveSb(geo, a).value.sb, s)
  {
    hide LiveSb, ScanLog, Plan, NothingNewer;
  }

  lemma JournaledSame(geo: Geometry, img: Image, txn: Transaction, i: nat)
    requires ValidImage(geo, img) && Stageable(geo, img, txn) && i < |JournaledWrites(geo, img, txn)|
    ensures var w := JournaledWrites(geo, img, txn)[i];
            w.target < |img| && SameBlock(geo, w.target, w.data, Staged(img, txn)[w.target])
  {
    hide PatchRecover, InOrder, SameBlock, Stageable;
    InOrderFacts(Journaled(geo, img, txn));
    JournaledIsStaged(geo, img, txn, JournaledWrites(geo, img, txn)[i].target);
  }

  // ---- the end of a commit --------------------------------------------------------------------

  lemma WithoutNone(ws: seq<BlockWrite>)
    ensures WithoutRevoked(ws, {}) == ws
    decreases |ws|
  {
    if ws != [] {
      WithoutNone(ws[1..]);
      assert ws == [ws[0]] + ws[1..];
    }
  }

  /** The whole checkpoint puts every staged block in place. */
  lemma CheckpointStage(geo: Geometry, img: Image, txn: Transaction, a: Image)
    requires Midway(geo, img, txn, a)
    ensures InRange(a, JournaledWrites(geo, img, txn))
    ensures var c := Apply(a, JournaledWrites(geo, img, txn));
            && ValidImage(geo, a) && ValidImage(geo, c) && SameLog(geo, a, c) && Midway(geo, img, txn, c)
            && SameFs(geo, c, Staged(img, txn))
  {
    hide PatchRecover, Survivor, WithoutRevoked, SameBlock, JournaledWrites, CommitOnDisk, LiveSb, Pending, SameLog;
    hide Apply;
    hide Stageable, Toward, SameFs, Kept;
    var ws := JournaledWrites(geo, img, txn);
    CheckpointSurvivor(geo, img, txn, a, seq(|ws|, i => true));
    AllSurvive(a, ws);
    FinishesStaged(geo, img, txn, a, {});
    WithoutNone(ws);
  }

  /** A head update of a live journal, in terms of what it changes. */
  lemma CleanStage(geo: Geometry, img: Image, txn: Transaction, a: Image, live: Live)
    requires ValidImage(geo, img) && Stageable(geo, img, txn) && SameFs(geo, a, Staged(img, txn)) && ValidImage(geo, a)
    requires LiveSb(geo, a) == Ok(live) && SaneLog(geo, live.sb) && live.sb.sequence == txn.sequence < 0xFFFF_FFFF
    requires NothingNewer(geo, a, live.sb, txn.sequence) && CommitOnDisk(geo, a, txn.sequence)
    ensures var head := UpdateSuperblock(geo.crc, LogBlock(geo, a, 0), txn.sequence + 1, 0, live.hasCsum);
            After(geo, img, txn, a[geo.Map(0) := head])
  {
    hide PatchRecover, WithoutRevoked, SameBlock, JournaledWrites, CommitOnDisk, LiveSb, SameLog, UpdateSuperblock;
    hide Toward, SameFs, NothingNewer, LogBlock, Quiet, Plan, ScanLog, RecoverPre;
    var s := txn.sequence;
    var head := UpdateSuperblock(geo.crc, LogBlock(geo, a, 0), s + 1, 0, live.hasCsum);
    var c := a[geo.Map(0) := head];
    HeadUpdated(geo, a, s + 1, 0);
    LogButHead(geo, a, head);
    CleanedIsQuiet(geo, a, c, live.sb, s);
    HeadSameFs(geo, a, head);
    SameFsTrans(geo, c, a, Staged(img, txn));
    CommitStays(geo, a, c, s);
  }

  /** Clearing RECOVER ends a commit. */
  lemma OffStage(geo: Geometry, img: Image, txn: Transaction, c: Image)
    requires ValidImage(geo, img) && Stageable(geo, img, txn) && After(geo, img, txn, c)
    ensures After(geo, img, txn, c[geo.SbBlock() := PatchRecover(geo.crc, SuperBuf(geo, img, txn), geo.SbOff(), false)])
  {
    hide PatchRecover, CommitOnDisk, LiveSb, SameLog, LogBlock, QuietArea;
    var data := PatchRecover(geo.crc, SuperBuf(geo, img, txn), geo.SbOff(), false);
    var d := c[geo.SbBlock() := data];
    LogButSb(geo, c, data);
    QuietSame(geo, c, d, txn.sequence + 1);
    CommitStaysSameLog(geo, c, d, txn.sequence);
    PatchRecoverTwice(geo.crc, SuperBuf(geo, img, txn), geo.SbOff(), false, false);
  }

  lemma MidwayLive(geo: Geometry, img: Image, txn: Transaction, a: Image)
    requires Midway(geo, img, txn, a)
    ensures ValidImage(geo, img) && Stageable(geo, img, txn) && ValidImage(geo, a) && txn.sequence < 0xFFFF_FFFF
    ensures LiveSb(geo, a).Ok? && SaneLog(geo, LiveSb(geo, a).value.sb) && CommitOnDisk(geo, a, txn.sequence)
    ensures NothingNewer(geo, a, LiveSb(geo, a).value.sb, txn.sequence)
  {
    hide LiveSb, ScanLog, Plan, NothingNewer, CommitOnDisk, Toward;
  }

  /** The durable images of the last epochs. */
  lemma LastImages(geo: Geometry, img: Image, live: Live, txn: Transaction)
    requires Startable(geo, img, live, txn) && FitsLog(geo, live.sb, txn)
    ensures ValidImage(geo, img) && Ready(geo, img, live, txn) && EpochsFit(img, CommitEpochs(geo, img, live, txn))
    ensures var st := StagesOf(img, CommitEpochs(geo, img, live, txn));
            && Midway(geo, img, txn, st.recoverOn) && Midway(geo, img, txn, st.checkpoint)
            && After(geo, img, txn, st.clean) && After(geo, img, txn, st.recoverOff)
  {
    hide Body, UpdateSuperblock, PatchRecover, JournaledWrites, TagCapacity, RevokesFit, LogWrites, Apply, Midway;
    hide After;
    hide LiveSb, NumbersFit, LogBlock, CommitBlock, Quiet, SameOutside, CommitOnDisk, SameLog, FitsLog, Committable;
    hide SameFs, NothingNewer;
    CommittedStages(geo, img, live, txn);
    StartableReady(geo, img, live, txn);
    var e := CommitEpochs(geo, img, live, txn);
    var st := StagesOf(img, e);
    CheckpointStage(geo, img, txn, st.recoverOn);
    HeadKept(geo, st.commit, st.recoverOn, st.checkpoint);
    MidwayLive(geo, img, txn, st.checkpoint);
    CleanStage(geo, img, txn, st.checkpoint, Dirty(live));
    OffStage(geo, img, txn, st.clean);
  }

  lemma HeadKept(geo: Geometry, a: Image, b: Image, c: Image)
    requires ValidImage(geo, a) && ValidImage(geo, b) && ValidImage(geo, c) && SameLog(geo, a, b) && SameLog(geo, b, c)
    ensures LogBlock(geo, c, 0) == LogBlock(geo, a, 0) && LiveSb(geo, c) == LiveSb(geo, a)
  {
    hide LiveSb, LogBlock;
    assert LogBlock(geo, c, 0) == LogBlock(geo, b, 0) == LogBlock(geo, a, 0);
    LiveFrame(geo, a, c);
  }

  // ---- every crash ---------------------------------------------------------------------------

  /** `c` is what a crash may leave while `txn` is being committed to `img`, injected stop or not. */
  ghost predicate CrashImage(geo: Geometry, img: Image, txn: Transaction, crash: CrashPoint, c: Image) {
    && CommitPre(geo, img, txn) && CommitTrace(geo, img, txn, crash).Ok?
    && CrashDuring(img, CommitTrace(geo, img, txn, crash).value, c)
  }

  lemma StartableTrace(geo: Geometry, img: Image, live: Live, txn: Transaction, crash: CrashPoint)
    requires Startable(geo, img, live, txn)
    ensures ValidImage(geo, img) && Ready(geo, img, live, txn) && CommitPre(geo, img, txn)
    ensures CommitTrace(geo, img, txn, crash) == Ok(StoppedTrace(CommitEpochs(geo, img, live, txn), crash))
  {
    hide LiveSb, TagCapacity, RevokesFit, NumbersFit, LogBlock, CommitEpochs, StoppedTrace, JournaledCount, QuietArea;
  }

  /** A commit that stops early does a prefix of what a full commit does. */
  lemma StoppedIsPrefix(e: Epochs, crash: CrashPoint)
    ensures StoppedTrace(e, crash) <= Trace(e.All())
  {
    hide Trace;
    SevenEpochs(e);
    if crash.MidCheckpoint? && crash.n < |e.checkpoint| {
      assert Writes(e.checkpoint[..crash.n]) == Writes(e.checkpoint)[..crash.n];
    }
  }

  lemma PrefixCrash(img: Image, a: seq<Op>, b: seq<Op>, c: Image)
    requires a <= b && CrashDuring(img, a, c)
    ensures CrashDuring(img, b, c)
  {
    hide CrashAfter;
    var k :| 0 <= k <= |a| && CrashAfter(img, a[..k], c);
    assert a[..k] == b[..k];
  }

  lemma CrashIsFull(geo: Geometry, img: Image, live: Live, txn: Transaction, crash: CrashPoint, c: Image)
    requires Startable(geo, img, live, txn) && CrashImage(geo, img, txn, crash, c)
    ensures ValidImage(geo, img) && Ready(geo, img, live, txn)
    ensures CrashDuring(img, Trace(CommitEpochs(geo, img, live, txn).All()), c)
  {
    hide CommitTrace, CrashDuring, StoppedTrace, Trace, CommitEpochs, Startable, CommitPre, Ready, ValidImage;
    StartableTrace(geo, img, live, txn, crash);
    var e := CommitEpochs(geo, img, live, txn);
    StoppedIsPrefix(e, crash);
    PrefixCrash(img, StoppedTrace(e, crash), Trace(e.All()), c);
  }

  lemma CrashEpoch(img: Image, e: Epochs, c: Image) returns (j: nat, keep: seq<bool>)
    requires EpochsFit(img, e) && CrashDuring(img, Trace(e.All()), c)
    ensures j < 7
    ensures var st := StagesOf(img, e);
            match j
            case 0 => |keep| == |e.body| && c == Survivor(img, e.body, keep)
            case 1 => c == st.body || c == st.dirty
            case 2 => c == st.dirty || c == st.commit
            case 3 => c == st.commit || c == st.recoverOn
            case 4 => |keep| == |e.checkpoint| && c == Survivor(st.recoverOn, e.checkpoint, keep)
            case 5 => c == st.checkpoint || c == st.clean
            case _ => c == st.clean || c == st.recoverOff
  {
    hide Apply, AfterEpochs, EpochsInRange, CrashDuring, Trace, Survivor;
    FirstStages(img, e);
    LastStages(img, e);
    var all, st := e.All(), StagesOf(img, e);
    j, keep := CrashInsideEpoch(img, all, c);
    if j == 0 {
    } else if j == 1 {
      SurvivorOne(st.body, e.dirty, keep);
    } else if j == 2 {
      SurvivorOne(st.dirty, e.commit, keep);
    } else if j == 3 {
      SurvivorOne(st.commit, e.recoverOn, keep);
    } else if j == 5 {
      SurvivorOne(st.checkpoint, e.clean, keep);
    } else if j == 6 {
      SurvivorOne(st.clean, e.recoverOff, keep);
    }
  }

  /** Every crash image of a commit is from before the commit block, from the checkpoint, or from after it. */
  lemma CommitCrashCases(geo: Geometry, img: Image, live: Live, txn: Transaction, crash: CrashPoint, c: Image)
    requires Startable(geo, img, live, txn) && FitsLog(geo, live.sb, txn) && CrashImage(geo, img, txn, crash, c)
    ensures Before(geo, img, txn.sequence, c) || Midway(geo, img, txn, c) || After(geo, img, txn, c)
  {
    hide Body, UpdateSuperblock, PatchRecover, JournaledWrites, TagCapacity, RevokesFit, Apply, Midway, After, Before;
    hide Startable;
    hide LiveSb, LogBlock, CommitBlock, Quiet, SameOutside, SameLog, FitsLog, Ready, CrashImage, Survivor, Trace;
    CrashIsFull(geo, img, live, txn, crash, c);
    CommitFits(geo, img, live, txn);
    var e := CommitEpochs(geo, img, live, txn);
    var st := StagesOf(img, e);
    var j, keep := CrashEpoch(img, e, c);
    if j == 0 {
      BodyCrash(geo, img, live, txn, keep, c);
    } else if j <= 3 {
      EarlyCrash(geo, img, live, txn, c);
    } else {
      LastImages(geo, img, live, txn);
      if j == 4 {
        CheckpointSurvivor(geo, img, txn, st.recoverOn, keep);
      }
    }
  }

  lemma BodyCrash(geo: Geometry, img: Image, live: Live, txn: Transaction, keep: seq<bool>, c: Image)
    requires Startable(geo, img, live, txn) && ValidImage(geo, img) && Ready(geo, img, live, txn)
    requires EpochsFit(img, CommitEpochs(geo, img, live, txn))
    requires var ws := CommitEpochs(geo, img, live, txn).body;
             |keep| == |ws| && c == Survivor(img, ws, keep)
    ensures Before(geo, img, txn.sequence, c)
  {
    hide Body, UpdateSuperblock, PatchRecover, JournaledWrites, TagCapacity, RevokesFit, Apply, Before;
    hide LiveSb, LogBlock, CommitBlock, Quiet, FitsLog, Ready, Survivor, Startable, LogWrites;
    BodyWritesWhole(geo, img, live, txn);
    BodySurvivorQuiet(geo, img, live, txn, keep);
    QuietIsBefore(geo, img, txn.sequence, c);
  }

  lemma EarlyCrash(geo: Geometry, img: Image, live: Live, txn: Transaction, c: Image)
    requires Startable(geo, img, live, txn) && FitsLog(geo, live.sb, txn)
    requires ValidImage(geo, img) && Ready(geo, img, live, txn) && EpochsFit(img, CommitEpochs(geo, img, live, txn))
    requires var st := StagesOf(img, CommitEpochs(geo, img, live, txn));
             c == st.body || c == st.dirty || c == st.commit || c == st.recoverOn
    ensures Before(geo, img, txn.sequence, c) || Midway(geo, img, txn, c)
  {
    hide Body, UpdateSuperblock, PatchRecover, JournaledWrites, TagCapacity, RevokesFit, Apply, Before, Midway;
    hide CommitEpochs;
    hide LiveSb, LogBlock, CommitBlock, Quiet, FitsLog, Ready, Startable, SameLog, SameOutside, StagesOf;
    var st := StagesOf(img, CommitEpochs(geo, img, live, txn));
    if c == st.body {
      BodyStage(geo, img, live, txn);
      QuietIsBefore(geo, img, txn.sequence, c);
    } else if c == st.dirty {
      DirtyStage(geo, img, live, txn);
      QuietIsBefore(geo, img, txn.sequence, c);
    } else {
      CommittedStages(geo, img, live, txn);
    }
  }

  // ---- what recovery makes of them --------------------------------------------------------------

  /** Recovery of `c` gives the whole transaction when its commit block is on disk, and nothing of it otherwise. */
  predicate AllOrNothing(geo: Geometry, img: Image, txn: Transaction, c: Image) {
    && RecoverPre(geo, c) && Recovered(geo, c).Ok?
    && SameFs(geo, Recovered(geo, c).value, if CommitOnDisk(geo, c, txn.sequence) then Staged(img, txn) else img)
  }

  /** The journal is ready for the next transaction, whose sequence number is not in use. */
  predicate ReadyAgain(geo: Geometry, txn: Transaction, c: Image) {
    && RecoverPre(geo, c) && Recovered(geo, c).Ok? && txn.sequence < 0xFFFF_FFFF
    && Quiet(geo, Recovered(geo, c).value, if CommitOnDisk(geo, c, txn.sequence) then txn.sequence + 1
        else txn.sequence)
  }

  lemma MidwayRecovers(geo: Geometry, img: Image, txn: Transaction, c: Image)
    requires Midway(geo, img, txn, c)
    ensures ReadyAgain(geo, txn, c)
    ensures Harmless(geo, img, txn, txn.revokes) ==> AllOrNothing(geo, img, txn, c)
  {
    hide PatchRecover, WithoutRevoked, SameBlock, JournaledWrites, CommitOnDisk, LiveSb, RecoverPre, Quiet;
    hide Stageable, Toward, SameFs, Harmless, Recovered, NothingNewer, ScanLog, Plan, ValidImage;
    var ws := WithoutRevoked(JournaledWrites(geo, img, txn), txn.revokes);
    PendingRecovers(geo, c, txn.sequence, ws);
    if Harmless(geo, img, txn, txn.revokes) {
      FinishesStaged(geo, img, txn, c, txn.revokes);
      SameFsTrans(geo, Recovered(geo, c).value, Apply(c, ws), Staged(img, txn));
    }
  }

  /**
   Crash atomicity: whatever a crash at any point of a commit leaves of the unflushed writes, recovery
   gives the whole transaction if its commit block is on disk and nothing of it otherwise, and the journal
   is ready for the next transaction.
   */
  lemma CommitCrashAtomic(geo: Geometry, img: Image, live: Live, txn: Transaction, crash: CrashPoint, c: Image)
    requires Startable(geo, img, live, txn) && FitsLog(geo, live.sb, txn) && Harmless(geo, img, txn, txn.revokes)
    requires CrashImage(geo, img, txn, crash, c)
    ensures AllOrNothing(geo, img, txn, c) && ReadyAgain(geo, txn, c)
  {
    hide PatchRecover, CommitOnDisk, LiveSb, RecoverPre, Quiet, Midway, Startable, FitsLog, CrashImage;
    hide SameFs, Harmless, Recovered;
    CommitCrashCases(geo, img, live, txn, crash, c);
    StartableSequence(geo, img, live, txn);
    if Midway(geo, img, txn, c) {
      MidwayRecovers(geo, img, txn, c);
    } else if Before(geo, img, txn.sequence, c) {
      QuietRecovers(geo, c, txn.sequence);
    } else {
      QuietRecovers(geo, c, txn.sequence + 1);
    }
  }

  lemma StartableSequence(geo: Geometry, img: Image, live: Live, txn: Transaction)
    requires Startable(geo, img, live, txn)
    ensures txn.sequence < 0xFFFF_FFFF
  {
    hide Quiet, LiveSb, Ready, NumbersFit, RevokesFit;
  }

  /** A commit that runs to the end leaves the whole transaction in place and the journal clean at the next sequence. */
  lemma CommitComplete(geo: Geometry, img: Image, live: Live, txn: Transaction)
    requires Startable(geo, img, live, txn) && FitsLog(geo, live.sb, txn)
    ensures CommitPre(geo, img, txn) && CommitTrace(geo, img, txn, NoCrash).Ok?
    ensures var ops := CommitTrace(geo, img, txn, NoCrash).value;
            && OpsInRange(img, ops) && Run(img, ops).pending == []
            && After(geo, img, txn, Run(img, ops).durable)
  {
    hide Body, UpdateSuperblock, PatchRecover, JournaledWrites, TagCapacity, RevokesFit, Apply, After, Startable;
    hide AfterEpochs;
    hide LiveSb, Quiet, FitsLog, Ready, Trace, Run, CommitPre, CommitEpochs, CommitTrace, StagesOf;
    StartableTrace(geo, img, live, txn, NoCrash);
    LastImages(geo, img, live, txn);
    var e := CommitEpochs(geo, img, live, txn);
    LastStages(img, e);
    RunTrace(img, e.All());
  }
}
