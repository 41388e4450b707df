/** Whole runs: commits, aborts, crashes in commits, crashes in recoveries, remounts. */
module JournalRuns {
  import opened Bytes
  import opened Outcome
  import opened JournalCodec
  import opened CrashDisk
  import opened JournalLog
  import opened Journal
  import opened JournalRecovery
  import opened JournalReplay
  import opened JournalQuiet
  import opened JournalCommitted
  import opened JournalCrash
  import opened JournalAtomic
  import opened JournalCrashSafe

  /** What the operations rely on: begun at the live sequence, and within the limits of the journal. */
  predicate Acceptable(geo: Geometry, img: Image, txn: Transaction) {
    && ValidImage(geo, img) && LiveSb(geo, img).Ok?
    && var live := LiveSb(geo, img).value;
       && live.sb.sequence == txn.sequence < 0xFFFF_FFFF && Ready(geo, img, live, txn) && !txn.IsEmpty()
       && NumbersFit(live, txn) && RevokesFit(|txn.revokes|, geo.blockSize, live.has64, live.hasCsum)
       && FitsLog(geo, live.sb, txn) && Harmless(geo, img, txn, txn.revokes)
  }

  datatype Event =
    | Committed(txn: Transaction)  // journal_end(true) returned Ok
    | Rejected(txn: Transaction)  // journal_end(true) returned an error
    | Aborted  // journal_end(false): the transaction is dropped
    | Interrupted(attempt: Transaction, crash: CrashPoint, image: Image, retries: seq<Image>)
    | Remounted

  /** Each image is what a crash during the recovery of the one before may leave. */
  ghost predicate RecoveryChain(geo: Geometry, c: Image, retries: seq<Image>)
    decreases |retries|
  {
    retries != [] ==>
      && RecoverPre(geo, c) && RecoverTrace(geo, c, LiveCsum(geo, c)).Ok?
      && CrashDuring(c, RecoverTrace(geo, c, LiveCsum(geo, c)).value, retries[0])
      && RecoveryChain(geo, retries[0], retries[1..])
  }

  function LastImage(c: Image, retries: seq<Image>): Image {
    if retries == [] then c else retries[|retries| - 1]
  }

  /** One event takes the idle device from `img` to `next`. */
  ghost predicate Happens(geo: Geometry, img: Image, ev: Event, next: Image) {
    match ev
    case Committed(txn) =>
      && (txn.IsEmpty() || Acceptable(geo, img, txn)) && CommitPre(geo, img, txn)
          && CommitTrace(geo, img, txn, NoCrash).Ok?
      && var ops := CommitTrace(geo, img, txn, NoCrash).value;
         OpsInRange(img, ops) && Run(img, ops) == Disk(next, [])
    case Rejected(txn) => CommitPre(geo, img, txn) && CommitTrace(geo, img, txn, NoCrash).Err? && next == img
    case Aborted => next == img
    case Interrupted(txn, crash, c, retries) =>
      && Acceptable(geo, img, txn) && CrashImage(geo, img, txn, crash, c) && RecoveryChain(geo, c, retries)
      && var last := LastImage(c, retries);
         RecoverPre(geo, last) && Recovered(geo, last) == Ok(next)
    case Remounted => RecoverPre(geo, img) && Recovered(geo, img) == Ok(next)
  }

  ghost predicate Reaches(geo: Geometry, img: Image, evs: seq<Event>, images: seq<Image>) {
    && |images| == |evs| + 1 && images[0] == img
    && forall i :: 0 <= i < |evs| ==> Happens(geo, images[i], evs[i], images[i + 1])
  }

  /** The transaction an event made durable, if any. */
  function Effect(geo: Geometry, ev: Event): (r: seq<Transaction>)
    ensures |r| <= 1
  {
    match ev
    case Committed(txn) => if txn.IsEmpty() then [] else [txn]
    case Interrupted(txn, _, c, _) => if ValidImage(geo, c) && CommitOnDisk(geo, c, txn.sequence) then [txn] else []
    case _ => []
  }

  function Effects(geo: Geometry, evs: seq<Event>): seq<Transaction> {
    if evs == [] then [] else Effects(geo, evs[..|evs| - 1]) + Effect(geo, evs[|evs| - 1])
  }

  /** The file system after the transactions, in order. */
  function Fold(img: Image, txns: seq<Transaction>): (r: Image)
    ensures |r| == |img|
  {
    if txns == [] then img else Staged(Fold(img, txns[..|txns| - 1]), txns[|txns| - 1])
  }

  // ---- crashes in recovery ----------------------------------------------------------------------

  /** Recovery, however often it is interrupted, ends with a quiet journal at sequence `s`. */
  ghost predicate Settles(geo: Geometry, c: Image, s: u32) {
    Quiet(geo, c, s) || exists ws :: SettlesBy(geo, c, s, ws)
  }

  predicate SettlesBy(geo: Geometry, c: Image, s: u32, ws: seq<BlockWrite>) {
    s > 0 && Pending(geo, c, s - 1, ws)
  }

  lemma SettlesRecovers(geo: Geometry, c: Image, s: u32)
    requires Settles(geo, c, s)
    ensures RecoverPre(geo, c) && Recovered(geo, c).Ok? && Quiet(geo, Recovered(geo, c).value, s)
  {
    hide Quiet, RecoverPre, Plan, ScanLog, LiveSb, NothingNewer, Recovered, LiveCsum;
    if Quiet(geo, c, s) {
      QuietRecovers(geo, c, s);
    } else {
      var ws :| SettlesBy(geo, c, s, ws);
      PendingRecovers(geo, c, s - 1, ws);
    }
  }

  lemma SettlesCrash(geo: Geometry, c: Image, s: u32, d: Image)
    requires Settles(geo, c, s) && RecoverPre(geo, c) && RecoverTrace(geo, c, LiveCsum(geo, c)).Ok?
    requires CrashDuring(c, RecoverTrace(geo, c, LiveCsum(geo, c)).value, d)
    ensures Settles(geo, d, s) && RecoverPre(geo, d) && Recovered(geo, d).Ok? && Recovered(geo, c).Ok?
    ensures SameFs(geo, Recovered(geo, d).value, Recovered(geo, c).value)
  {
    hide Quiet, RecoverPre, RecoverTrace, LiveCsum, Pending, CrashDuring, Recovered, SameFs;
    SettlesRecovers(geo, c, s);
    if Quiet(geo, c, s) {
      QuietRecovers(geo, c, s);
      NothingToDo(c, d);
    } else {
      var ws :| SettlesBy(geo, c, s, ws);
      PendingCrash(geo, c, s - 1, ws, d);
      assert Quiet(geo, d, s) || SettlesBy(geo, d, s, ws);
    }
    RecoverCrashIdempotent(geo, c, d);
  }

  lemma {:induction false} ChainSettles(geo: Geometry, c: Image, s: u32, retries: seq<Image>)
    requires Settles(geo, c, s) && RecoveryChain(geo, c, retries)
    ensures var last := LastImage(c, retries);
            && RecoverPre(geo, c) && Recovered(geo, c).Ok? && RecoverPre(geo, last) && Recovered(geo, last).Ok?
            && Quiet(geo, Recovered(geo, last).value, s)
            && SameFs(geo, Recovered(geo, last).value, Recovered(geo, c).value)
    decreases |retries|
  {
    hide Quiet, RecoverPre, RecoverTrace, LiveCsum, CrashDuring, Recovered, SameFs, Settles;
    if retries == [] {
      SettlesRecovers(geo, c, s);
      SameFsOfQuiet(geo, Recovered(geo, c).value, s);
    } else {
      SettlesCrash(geo, c, s, retries[0]);
      ChainSettles(geo, retries[0], s, retries[1..]);
      SameFsTrans(geo, Recovered(geo, LastImage(c, retries)).value, Recovered(geo, retries[0]).value,
          Recovered(geo, c).value);
    }
  }

  lemma SameFsOfQuiet(geo: Geometry, a: Image, s: u32)
    requires Quiet(geo, a, s)
    ensures SameFs(geo, a, a) && ValidImage(geo, a)
  {
    hide LiveSb, QuietArea;
    SameFsSelf(geo, a);
  }

  // ---- one event ----------------------------------------------------------------------------------

  lemma AcceptableStarts(geo: Geometry, img: Image, s: u32, txn: Transaction)
    requires Quiet(geo, img, s) && Acceptable(geo, img, txn)
    ensures LiveSb(geo, img).Ok? && txn.sequence == s < 0xFFFF_FFFF && Startable(geo, img, LiveSb(geo, img).value, txn)
    ensures FitsLog(geo, LiveSb(geo, img).value.sb, txn) && Harmless(geo, img, txn, txn.revokes)
    ensures ValidImage(geo, img) && Stageable(geo, img, txn)
  {
    hide LiveSb, QuietArea, FitsLog, Harmless, NumbersFit, RevokesFit, TagCapacity, JournaledCount, Numbers64, SaneLog;
  }

  lemma CommittedEvent(geo: Geometry, img: Image, s: u32, txn: Transaction, next: Image)
    requires Quiet(geo, img, s) && Happens(geo, img, Committed(txn), next) && !txn.IsEmpty()
    ensures s < 0xFFFF_FFFF && Quiet(geo, next, s + 1) && SameFs(geo, next, Staged(img, txn))
    ensures Stageable(geo, img, txn)
  {
    hide LiveSb, Acceptable, CommitTrace, Run, CommitPre, OpsInRange, Startable, FitsLog, Harmless, Quiet, SameFs;
    hide CommitOnDisk, Stageable;
    AcceptableStarts(geo, img, s, txn);
    CommitComplete(geo, img, LiveSb(geo, img).value, txn);
  }

  lemma InterruptedCommit(geo: Geometry, img: Image, s: u32, txn: Transaction, crash: CrashPoint, c: Image)
    requires Quiet(geo, img, s) && Acceptable(geo, img, txn) && CrashImage(geo, img, txn, crash, c)
    ensures s < 0xFFFF_FFFF && txn.sequence == s && ValidImage(geo, c) && Stageable(geo, img, txn)
    ensures AllOrNothing(geo, img, txn, c) && Settles(geo, c, if CommitOnDisk(geo, c, s) then s + 1 else s)
  {
    hide LiveSb, Acceptable, CrashImage, Startable, FitsLog, Harmless, Quiet, CommitOnDisk, Stageable, RecoverPre;
    hide Settles;
    hide Before, Midway, After, Recovered, SameFs;
    AcceptableStarts(geo, img, s, txn);
    var live := LiveSb(geo, img).value;
    CommitCrashCases(geo, img, live, txn, crash, c);
    CommitCrashAtomic(geo, img, live, txn, crash, c);
    PreValid(geo, c);
    CaseSettles(geo, img, txn, c);
  }

  lemma InterruptedEvent(geo: Geometry, img: Image, s: u32, txn: Transaction, crash: CrashPoint, c: Image,
                         retries: seq<Image>, next: Image)
    requires Quiet(geo, img, s) && Happens(geo, img, Interrupted(txn, crash, c, retries), next)
    ensures s < 0xFFFF_FFFF && txn.sequence == s && ValidImage(geo, c) && Stageable(geo, img, txn)
    ensures var done := CommitOnDisk(geo, c, s);
            && Quiet(geo, next, if done then s + 1 else s) && SameFs(geo, next, if done then Staged(img, txn) else img)
  {
    hide LiveSb, Acceptable, CrashImage, Quiet, SameFs, CommitOnDisk, Stageable, RecoveryChain, Recovered, RecoverPre;
    hide LastImage, Settles;
    InterruptedCommit(geo, img, s, txn, crash, c);
    var done := CommitOnDisk(geo, c, s);
    ChainSettles(geo, c, if done then s + 1 else s, retries);
    SameFsTrans(geo, next, Recovered(geo, c).value, if done then Staged(img, txn) else img);
  }

  lemma CaseSettles(geo: Geometry, img: Image, txn: Transaction, c: Image)
    requires Before(geo, img, txn.sequence, c) || Midway(geo, img, txn, c) || After(geo, img, txn, c)
    requires ValidImage(geo, c) && txn.sequence < 0xFFFF_FFFF
    ensures Settles(geo, c, if CommitOnDisk(geo, c, txn.sequence) then txn.sequence + 1 else txn.sequence)
  {
    hide Quiet, SameFs, CommitOnDisk, Toward, Pending, JournaledWrites, WithoutRevoked, Stageable;
    if Midway(geo, img, txn, c) {
      assert SettlesBy(geo, c, txn.sequence + 1, WithoutRevoked(JournaledWrites(geo, img, txn), txn.revokes));
    }
  }

  /** Applying a transaction respects `SameFs`. */
  lemma StagedSame(geo: Geometry, a: Image, b: Image, txn: Transaction)
    requires SameFs(geo, a, b) && Stageable(geo, a, txn)
    ensures SameFs(geo, Staged(a, txn), Staged(b, txn))
  {
    hide PatchRecover;
  }

  lemma EmptyCommit(geo: Geometry, img: Image, txn: Transaction, next: Image)
    requires Happens(geo, img, Committed(txn), next) && txn.IsEmpty()
    ensures next == img
  {
    hide CommitPre, LiveSb, CommitEpochs;
    assert Run(img, []) == Disk(img, []);
  }

  lemma EventStep(geo: Geometry, img: Image, s: u32, ev: Event, next: Image)
    requires Quiet(geo, img, s) && Happens(geo, img, ev, next)
    ensures var e := Effect(geo, ev);
            && s + |e| <= 0xFFFF_FFFF && Quiet(geo, next, s + |e|)
            && (e == [] ==> SameFs(geo, next, img))
            && (e != [] ==> Stageable(geo, img, e[0]) && SameFs(geo, next, Staged(img, e[0])))
  {
    hide LiveSb, Acceptable, CrashImage, Quiet, SameFs, CommitOnDisk, Stageable, RecoveryChain, Recovered, RecoverPre;
    hide LastImage, CommitTrace;
    hide Run, CommitPre, OpsInRange;
    match ev
    case Committed(txn) =>
      if txn.IsEmpty() {
        EmptyCommit(geo, img, txn, next);
        SameFsOfQuiet(geo, img, s);
      } else {
        CommittedEvent(geo, img, s, txn, next);
      }
    case Rejected(_) => SameFsOfQuiet(geo, img, s);
    case Aborted => SameFsOfQuiet(geo, img, s);
    case Interrupted(txn, crash, c, retries) => InterruptedEvent(geo, img, s, txn, crash, c, retries, next);
    case Remounted =>
      QuietRecovers(geo, img, s);
      SameFsOfQuiet(geo, img, s);
  }

  lemma FoldMore(img: Image, txns: seq<Transaction>, txn: Transaction)
    ensures Fold(img, txns + [txn]) == Staged(Fold(img, txns), txn)
  {
    assert (txns + [txn])[..|txns|] == txns;
  }

  /**
   Durability over whole runs: after any sequence of commits, aborts, crashes and remounts the disk is the
   fold of the transactions that became durable, in order. Every commit that returned Ok is among them, an
   interrupted one is there whole or not at all, and the journal is quiet at the next unused sequence number.
   */
  lemma {:induction false} RunIsFold(geo: Geometry, img: Image, s: u32, evs: seq<Event>, images: seq<Image>)
    requires Quiet(geo, img, s) && Reaches(geo, img, evs, images)
    ensures var done := Effects(geo, evs);
            && s + |done| <= 0xFFFF_FFFF && Quiet(geo, images[|evs|], s + |done|)
            && SameFs(geo, images[|evs|], Fold(img, done))
    decreases |evs|
  {
    hide Quiet, Happens, Effect, SameFs, Stageable, Staged;
    if evs == [] {
      SameFsOfQuiet(geo, img, s);
    } else {
      var n := |evs| - 1;
      RunIsFold(geo, img, s, evs[..n], images[..n + 1]);
      var done, e := Effects(geo, evs[..n]), Effect(geo, evs[n]);
      EventStep(geo, images[n], s + |done|, evs[n], images[n + 1]);
      if e == [] {
        assert done + e == done;
        SameFsTrans(geo, images[n + 1], images[n], Fold(img, done));
      } else {
        assert e == [e[0]];
        FoldMore(img, done, e[0]);
        StagedSame(geo, images[n], Fold(img, done), e[0]);
        SameFsTrans(geo, images[n + 1], Staged(images[n], e[0]), Fold(img, done + e));
      }
    }
  }
}
