/** Whole runs of the journaled device: nested operations, writes, commits, aborts, power losses and remounts. */
module DeviceRuns {
  import opened Bytes
  import opened Outcome
  import opened JournalCodec
  import opened CrashDisk
  import opened JournalLog
  import opened Journal
  import opened JournalRecovery
  import opened JournalReplay
  import opened JournalQuiet
  import opened JournalCommitted
  import opened JournalCrash
  import opened JournalAtomic
  import opened JournalCrashSafe
  import opened JournalRuns
  import opened JournaledDevice

  /** The idle device below, how many operations are open, and the transaction they share. */
  datatype DeviceState = DeviceState(img: Image, depth: nat, txn: Option<Transaction>)

  datatype DeviceEvent =
    | Begin
    | Write(offset: nat, data: seq<byte>)
    | Revoke(block: nat)
    | End(ok: bool)
    | EndCut(crash: CrashPoint, image: Image, retries: seq<Image>)  // power lost while the outermost end commits
    | Remount(retries: seq<Image>)  // power lost, or unmounted, at any other time

  // ---- what each event does --------------------------------------------------------------------------------

  /** What the commit of a transaction demands; the code panics otherwise. */
  predicate Bounded(geo: Geometry, img: Image, txn: Transaction) {
    && ValidImage(geo, img) && LiveSb(geo, img).Ok? && |img| <= 0x1_0000_0000_0000_0000 && Numbers64(txn.revokes)
    && var live := LiveSb(geo, img).value;
       RevokesFit(|txn.revokes|, geo.blockSize, live.has64, live.hasCsum)
  }

  /** The limits of the journal that the code does not check. */
  predicate WithinLimits(geo: Geometry, img: Image, txn: Transaction) {
    && Bounded(geo, img, txn) && txn.sequence < 0xFFFF_FFFF
    && var live := LiveSb(geo, img).value;
       NumbersFit(live, txn) && FitsLog(geo, live.sb, txn) && Harmless(geo, img, txn, txn.revokes)
  }

  /** The outermost end of a successful operation: the commit returned Ok, or an error that left the device alone. */
  ghost predicate Ends(geo: Geometry, img: Image, txn: Transaction, next: Image) {
    && Bounded(geo, img, txn) && CommitPre(geo, img, txn)
    && match CommitTrace(geo, img, txn, NoCrash)
       case Err(_) => next == img
       case Ok(ops) =>
         (txn.IsEmpty() || WithinLimits(geo, img, txn)) && OpsInRange(img, ops) && Run(img, ops) == Disk(next, [])
  }

  /** Power lost somewhere in that commit, then recovery, which may itself be interrupted. */
  ghost predicate IsCut(geo: Geometry, img: Image, txn: Transaction, crash: CrashPoint, c: Image, retries: seq<Image>,
      next: Image) {
    && WithinLimits(geo, img, txn) && !txn.IsEmpty() && CrashImage(geo, img, txn, crash, c)
        && Recovers(geo, c, retries, next)
  }

  ghost predicate Recovers(geo: Geometry, c: Image, retries: seq<Image>, next: Image) {
    && RecoveryChain(geo, c, retries)
    && var last := LastImage(c, retries);
       RecoverPre(geo, last) && Recovered(geo, last) == Ok(next)
  }

  /** Every block the write reaches is on the device and not part of the journal. */
  predicate Writable(geo: Geometry, img: Image, offset: nat, len: nat)
    requires geo.blockSize > 0
  {
    offset + len <= |img| * geo.blockSize
    && forall b :: b in Touched(offset, len, geo.blockSize) ==> b < |img| && !geo.InLog(b)
  }

  ghost predicate Moves(geo: Geometry, s: DeviceState, ev: DeviceEvent, t: DeviceState) {
    match ev
    case Begin =>
      && t.img == s.img && t.depth == s.depth + 1 && ValidImage(geo, s.img) && LiveSb(geo, s.img).Ok?
      && t.txn == if s.depth == 0 then Some(Transaction(LiveSb(geo, s.img).value.sb.sequence, map[], {})) else s.txn
    case Write(offset, data) =>
      && t.img == s.img && t.depth == s.depth && ValidImage(geo, s.img) && s.txn.Some? && t.txn.Some?
      && Writable(geo, s.img, offset, |data|)
      && StagedBy(Flat(s.img, geo.blockSize), geo.blockSize, s.txn.value, t.txn.value, offset, data)
    case Revoke(b) => t == s.(txn := if s.txn.Some? then Some(s.txn.value.Revoke(b)) else None)
    case End(ok) =>
      if s.depth == 0 then t == s
      else if s.depth > 1 then t == s.(depth := s.depth - 1)
      else
        && t.depth == 0 && t.txn == None && s.txn.Some?
        && if ok then Ends(geo, s.img, s.txn.value, t.img) else t.img == s.img
    case EndCut(crash, c, retries) =>
      s.depth == 1 && s.txn.Some? && t.depth == 0 && t.txn == None
          && IsCut(geo, s.img, s.txn.value, crash, c, retries, t.img)
    case Remount(retries) => t.depth == 0 && t.txn == None && Recovers(geo, s.img, retries, t.img)
  }

  // ---- the invariant ------------------------------------------------------------------------------------------

  /** The journal is quiet at `sn`, and an open transaction was begun at exactly that sequence. */
  predicate Inv(geo: Geometry, s: DeviceState, sn: u32) {
    && Quiet(geo, s.img, sn) && (s.depth > 0 <==> s.txn.Some?)
    && (s.txn.Some? ==> s.txn.value.sequence == sn && Stageable(geo, s.img, s.txn.value))
  }

  /** The transaction an event made durable, if any. */
  function Durable(geo: Geometry, s: DeviceState, ev: DeviceEvent): (r: seq<Transaction>)
    ensures |r| <= 1
  {
    if s.txn == None || s.depth != 1 then []
    else
      var txn := s.txn.value;
      match ev
      case End(ok) =>
        if ok && !txn.IsEmpty() && CommitPre(geo, s.img, txn)
            && CommitTrace(geo, s.img, txn, NoCrash).Ok? then [txn] else []
      case EndCut(_, c, _) => if ValidImage(geo, c) && CommitOnDisk(geo, c, txn.sequence) then [txn] else []
      case _ => []
  }

  lemma QuietFacts(geo: Geometry, img: Image, sn: u32)
    requires Quiet(geo, img, sn)
    ensures ValidImage(geo, img) && LiveSb(geo, img).Ok? && LiveSb(geo, img).value.sb.sequence == sn
    ensures SaneLog(geo, LiveSb(geo, img).value.sb)
    ensures geo.blockSize >= 1024
  {
    hide LiveSb, QuietArea;
  }

  /** A write keeps the transaction clear of the journal. */
  lemma WriteStages(geo: Geometry, img: Image, was: Transaction, now: Transaction, offset: nat, data: seq<byte>)
    requires ValidImage(geo, img) && Stageable(geo, img, was) && geo.blockSize > 0 && Writable(geo, img, offset, |data|)
    requires StagedBy(Flat(img, geo.blockSize), geo.blockSize, was, now, offset, data)
    ensures Stageable(geo, img, now)
  {
    hide Overlay, Flat, Touched, Written;
  }

  /** What the journal guarantees about the transaction of an outermost end is what its crash theorem asks for. */
  lemma EndAccepted(geo: Geometry, s: DeviceState, sn: u32)
    requires Inv(geo, s, sn) && s.txn.Some? && !s.txn.value.IsEmpty() && WithinLimits(geo, s.img, s.txn.value)
    requires CommitPre(geo, s.img, s.txn.value) && CommitTrace(geo, s.img, s.txn.value, NoCrash).Ok?
    ensures Acceptable(geo, s.img, s.txn.value)
  {
    hide LiveSb, QuietArea, FitsLog, Harmless, NumbersFit, TagCapacity, JournaledCount, Numbers64, CommitEpochs;
    hide StoppedTrace;
  }

  lemma CutAccepted(geo: Geometry, s: DeviceState, sn: u32, crash: CrashPoint, c: Image)
    requires Inv(geo, s, sn) && s.txn.Some? && !s.txn.value.IsEmpty() && WithinLimits(geo, s.img, s.txn.value)
    requires CrashImage(geo, s.img, s.txn.value, crash, c)
    ensures Acceptable(geo, s.img, s.txn.value)
  {
    hide LiveSb, QuietArea, FitsLog, Harmless, NumbersFit, TagCapacity, JournaledCount, Numbers64, CommitEpochs;
    hide StoppedTrace, CrashDuring;
  }

  /** The journal is quiet again, and the file system changed by exactly the transaction made durable, if any. */
  predicate StepResult(geo: Geometry, s: DeviceState, e: seq<Transaction>, t: DeviceState, sn: u32) {
    && sn + |e| <= 0xFFFF_FFFF && Quiet(geo, t.img, sn + |e|)
    && (e == [] ==> SameFs(geo, t.img, s.img))
    && (e != [] ==> s.txn.Some? && e == [s.txn.value] && SameFs(geo, t.img, Staged(s.img, s.txn.value)))
  }

  /** The outermost end, as an event of the journal. */
  lemma EndStep(geo: Geometry, s: DeviceState, t: DeviceState, sn: u32)
    requires Inv(geo, s, sn) && s.depth == 1 && s.txn.Some? && Ends(geo, s.img, s.txn.value, t.img)
    ensures StepResult(geo, s, Durable(geo, s, End(true)), t, sn)
  {
    hide LiveSb, Quiet, SameFs, Acceptable, CommitTrace, Run, CommitPre, OpsInRange, WithinLimits, Bounded, Stageable;
    hide Happens, Staged;
    var txn := s.txn.value;
    var ev := if CommitTrace(geo, s.img, txn, NoCrash).Err? then Rejected(txn) else Committed(txn);
    if ev.Committed? && !txn.IsEmpty() {
      EndAccepted(geo, s, sn);
    }
    EndHappens(geo, s, t, ev);
    EventStep(geo, s.img, sn, ev, t.img);
    EmptyTraceOk(geo, s.img, txn);
  }

  lemma EndHappens(geo: Geometry, s: DeviceState, t: DeviceState, ev: Event)
    requires s.txn.Some? && Ends(geo, s.img, s.txn.value, t.img)
    requires ev == if CommitTrace(geo, s.img, s.txn.value, NoCrash).Err? then Rejected(s.txn.value)
             else Committed(s.txn.value)
    requires ev.Committed? && !s.txn.value.IsEmpty() ==> Acceptable(geo, s.img, s.txn.value)
    ensures Happens(geo, s.img, ev, t.img)
  {
    hide LiveSb, Acceptable, CommitTrace, Run, CommitPre, OpsInRange, WithinLimits, Bounded;
  }

  lemma EmptyTraceOk(geo: Geometry, img: Image, txn: Transaction)
    requires CommitPre(geo, img, txn)
    ensures txn.IsEmpty() ==> CommitTrace(geo, img, txn, NoCrash) == Ok([])
  {
    hide LiveSb, CommitPre, CommitEpochs;
  }

  lemma CutStep(geo: Geometry, s: DeviceState, t: DeviceState, sn: u32, crash: CrashPoint, c: Image,
      retries: seq<Image>)
    requires Inv(geo, s, sn) && s.depth == 1 && s.txn.Some? && IsCut(geo, s.img, s.txn.value, crash, c, retries, t.img)
    ensures StepResult(geo, s, Durable(geo, s, EndCut(crash, c, retries)), t, sn)
  {
    hide LiveSb, Quiet, SameFs, Acceptable, WithinLimits, Stageable, Staged, CrashImage, RecoverPre, Recovered;
    hide RecoveryChain, LastImage;
    hide CommitOnDisk, Happens, IsCut;
    var txn := s.txn.value;
    CutFacts(geo, s, crash, c, retries, t);
    CutAccepted(geo, s, sn, crash, c);
    CutHappens(geo, s, t, crash, c, retries);
    EventStep(geo, s.img, sn, Interrupted(txn, crash, c, retries), t.img);
  }

  lemma CutFacts(geo: Geometry, s: DeviceState, crash: CrashPoint, c: Image, retries: seq<Image>, t: DeviceState)
    requires s.txn.Some? && IsCut(geo, s.img, s.txn.value, crash, c, retries, t.img)
    ensures WithinLimits(geo, s.img, s.txn.value) && !s.txn.value.IsEmpty()
    ensures CrashImage(geo, s.img, s.txn.value, crash, c)
  {
    hide WithinLimits, CrashImage, Recovers;
  }

  lemma CutHappens(geo: Geometry, s: DeviceState, t: DeviceState, crash: CrashPoint, c: Image, retries: seq<Image>)
    requires s.txn.Some? && IsCut(geo, s.img, s.txn.value, crash, c, retries, t.img)
    requires Acceptable(geo, s.img, s.txn.value)
    ensures Happens(geo, s.img, Interrupted(s.txn.value, crash, c, retries), t.img)
  {
    hide Acceptable, WithinLimits, CrashImage, RecoverPre, Recovered, RecoveryChain, LastImage;
  }

  /** Remounting an idle device changes nothing, however often its recovery is interrupted. */
  lemma RemountStep(geo: Geometry, img: Image, sn: u32, retries: seq<Image>, next: Image)
    requires Quiet(geo, img, sn) && Recovers(geo, img, retries, next)
    ensures Quiet(geo, next, sn) && SameFs(geo, next, img)
  {
    hide LiveSb, Quiet, SameFs, RecoverPre, Recovered, RecoveryChain, LastImage;
    QuietRecovers(geo, img, sn);
    QuietFacts(geo, img, sn);
    assert Settles(geo, img, sn);
    ChainSettles(geo, img, sn, retries);
  }

  /**
   One step keeps the invariant, sequence equality included, and changes the file system only by the transaction
   the event made durable.
   */
  lemma StepKeeps(geo: Geometry, s: DeviceState, ev: DeviceEvent, t: DeviceState, sn: u32)
    requires Inv(geo, s, sn) && Moves(geo, s, ev, t)
    ensures var e := Durable(geo, s, ev);
            && sn + |e| <= 0xFFFF_FFFF && Inv(geo, t, sn + |e|)
            && (e == [] ==> SameFs(geo, t.img, s.img))
            && (e != [] ==>
                e == [s.txn.value] && Stageable(geo, s.img, e[0]) && SameFs(geo, t.img, Staged(s.img, e[0])))
  {
    hide LiveSb, Quiet, SameFs, Staged, CommitPre, CommitTrace, CommitOnDisk, Ends, IsCut, Recovers, Flat, StagedBy;
    hide Writable;
    QuietFacts(geo, s.img, sn);
    SameFsOfQuiet(geo, s.img, sn);
    match ev
    case Begin =>
    case Write(offset, data) =>
      WriteStages(geo, s.img, s.txn.value, t.txn.value, offset, data);
      StagedSequence(Flat(s.img, geo.blockSize), geo.blockSize, s.txn.value, t.txn.value, offset, data);
    case Revoke(_) =>
    case End(ok) =>
      if s.depth == 1 && ok {
        EndStep(geo, s, t, sn);
      }
    case EndCut(crash, c, retries) => CutStep(geo, s, t, sn, crash, c, retries);
    case Remount(retries) => RemountStep(geo, s.img, sn, retries, t.img);
  }

  lemma StagedSequence(bytes: seq<byte>, bs: nat, was: Transaction, now: Transaction, offset: nat, data: seq<byte>)
    requires StagedBy(bytes, bs, was, now, offset, data)
    ensures now.sequence == was.sequence
  {
  }

  // ---- whole runs ------------------------------------------------------------------------------------------------

  ghost predicate DeviceRun(geo: Geometry, states: seq<DeviceState>, evs: seq<DeviceEvent>) {
    |states| == |evs| + 1 && forall i :: 0 <= i < |evs| ==> Moves(geo, states[i], evs[i], states[i + 1])
  }

  function AllDurable(geo: Geometry, states: seq<DeviceState>, evs: seq<DeviceEvent>): seq<Transaction>
    requires |states| == |evs| + 1
  {
    if evs == [] then []
    else AllDurable(geo, states[..|evs|], evs[..|evs| - 1]) + Durable(geo, states[|evs| - 1], evs[|evs| - 1])
  }

  /**
   Durability over whole runs of nested operations: the disk is always the fold of the transactions of outermost
   operations whose end returned Ok, in order, and of cut ones whose commit block made it; nothing else ever shows.
   An open transaction always carries the sequence the journal expects next.
   */
  lemma {:induction false} DeviceRunIsFold(geo: Geometry, sn0: u32, states: seq<DeviceState>, evs: seq<DeviceEvent>)
    requires DeviceRun(geo, states, evs) && Inv(geo, states[0], sn0) && states[0].depth == 0
    ensures var done := AllDurable(geo, states, evs);
            && sn0 + |done| <= 0xFFFF_FFFF && Inv(geo, states[|evs|], sn0 + |done|)
            && SameFs(geo, states[|evs|].img, Fold(states[0].img, done))
    decreases |evs|
  {
    hide Quiet, Moves, Durable, SameFs, Stageable, Staged;
    if evs == [] {
      SameFsOfQuiet(geo, states[0].img, sn0);
    } else {
      var n := |evs| - 1;
      DeviceRunIsFold(geo, sn0, states[..n + 1], evs[..n]);
      var done, e := AllDurable(geo, states[..n + 1], evs[..n]), Durable(geo, states[n], evs[n]);
      var before := Fold(states[0].img, done);
      StepKeeps(geo, states[n], evs[n], states[n + 1], sn0 + |done|);
      if e == [] {
        assert done + e == done;
        SameFsTrans(geo, states[n + 1].img, states[n].img, before);
      } else {
        FoldMore(states[0].img, done, e[0]);
        StagedSame(geo, states[n].img, before, e[0]);
        SameFsTrans(geo, states[n + 1].img, Staged(states[n].img, e[0]), Staged(before, e[0]));
      }
    }
  }

  // ---- what readers see --------------------------------------------------------------------------------------------

  predicate Readable(geo: Geometry, s: DeviceState) {
    ValidImage(geo, s.img) && geo.blockSize > 0 && (s.txn.Some? ==> WholeStaged(s.txn.value.blocks, geo.blockSize))
  }

  function ViewOf(geo: Geometry, s: DeviceState): (r: seq<byte>)
    requires Readable(geo, s)
    ensures |r| == |s.img| * geo.blockSize
  {
    if s.txn.Some? then Overlay(Flat(s.img, geo.blockSize), geo.blockSize, s.txn.value.blocks)
        else Flat(s.img, geo.blockSize)
  }

  lemma InvReadable(geo: Geometry, s: DeviceState, sn: u32)
    requires Inv(geo, s, sn)
    ensures Readable(geo, s)
  {
    hide LiveSb, QuietArea;
  }

  /** The events between an outermost begin and its end: everything stays open. */
  ghost predicate Open(states: seq<DeviceState>) {
    forall i :: 0 < i < |states| ==> states[i].depth > 0
  }

  /** The writes among the events, applied in order. */
  function Spliced(view: seq<byte>, evs: seq<DeviceEvent>): (r: seq<byte>)
    ensures |r| == |view|
  {
    if evs == [] then view
    else
      var v := Spliced(view, evs[..|evs| - 1]);
      match evs[|evs| - 1]
      case Write(offset, data) => if offset + |data| <= |v| then Splice(v, offset, data) else v
      case _ => v
  }

  /**
   While an operation is open the device below is untouched, and readers see exactly the writes so far, nested or
   not.
   */
  lemma {:induction false} OpenView(geo: Geometry, sn: u32, states: seq<DeviceState>, evs: seq<DeviceEvent>)
    requires DeviceRun(geo, states, evs) && Inv(geo, states[0], sn) && Open(states)
    ensures Inv(geo, states[|evs|], sn) && states[|evs|].img == states[0].img
    ensures Readable(geo, states[0]) && Readable(geo, states[|evs|])
    ensures ViewOf(geo, states[|evs|]) == Spliced(ViewOf(geo, states[0]), evs)
    decreases |evs|
  {
    hide Inv, ViewOf, Readable, Moves;
    InvReadable(geo, states[0], sn);
    if evs != [] {
      var n := |evs| - 1;
      OpenView(geo, sn, states[..n + 1], evs[..n]);
      OpenStep(geo, sn, states[n], evs[n], states[n + 1]);
    }
  }

  lemma OpenStep(geo: Geometry, sn: u32, s: DeviceState, ev: DeviceEvent, t: DeviceState)
    requires Inv(geo, s, sn) && Moves(geo, s, ev, t) && t.depth > 0
    ensures Inv(geo, t, sn) && t.img == s.img && Readable(geo, s) && Readable(geo, t)
    ensures match ev
            case Write(offset, data) =>
              offset + |data| <= |ViewOf(geo, s)| && ViewOf(geo, t) == Splice(ViewOf(geo, s), offset, data)
            case _ => ViewOf(geo, t) == ViewOf(geo, s)
  {
    hide Quiet, LiveSb, Splice, Overlay, Flat, Ends, IsCut, Recovers;
    InvReadable(geo, s, sn);
    StepKeeps(geo, s, ev, t, sn);
    NothingDurable(geo, s, ev, t);
    InvReadable(geo, t, sn);
    if ev.Begin? && s.depth == 0 {
      EmptyOverlay(Flat(s.img, geo.blockSize), geo.blockSize);
    }
  }

  lemma NothingDurable(geo: Geometry, s: DeviceState, ev: DeviceEvent, t: DeviceState)
    requires Moves(geo, s, ev, t) && t.depth > 0
    ensures Durable(geo, s, ev) == []
  {
    hide Ends, IsCut, Recovers, CommitPre, CommitTrace, CommitOnDisk;
  }

  lemma EmptyOverlay(bytes: seq<byte>, bs: nat)
    requires bs > 0
    ensures Overlay(bytes, bs, map[]) == bytes
  {
  }

  /**
   One outermost operation from its begin to the end that commits it: the file system becomes what readers saw at
   the end, which is the file system before with all its writes in place.
   */
  lemma OperationCommits(geo: Geometry, sn: u32, states: seq<DeviceState>, evs: seq<DeviceEvent>, after: DeviceState)
    requires DeviceRun(geo, states, evs) && Inv(geo, states[0], sn) && states[0].depth == 0 && Open(states)
    requires var s := states[|evs|]; s.depth == 1 && Moves(geo, s, End(true), after) && Durable(geo, s, End(true)) != []
    ensures var s := states[|evs|];
            && Readable(geo, s) && Readable(geo, states[0]) && s.txn.Some?
            && ValidImage(geo, Staged(s.img, s.txn.value)) && SameFs(geo, after.img, Staged(s.img, s.txn.value))
            && Flat(Staged(s.img, s.txn.value), geo.blockSize) == ViewOf(geo, s)
            && ViewOf(geo, s) == Spliced(Flat(states[0].img, geo.blockSize), evs)
  {
    hide Inv, Durable, Moves, SameFs, Stageable, Flat, Overlay, Staged, ValidImage;
    var s := states[|evs|];
    OpenView(geo, sn, states, evs);
    StepKeeps(geo, s, End(true), after, sn);
    OpenHasTxn(geo, sn, s);
    CommittedView(geo, s, sn);
    IdleView(geo, states[0], sn);
  }

  lemma CommittedView(geo: Geometry, s: DeviceState, sn: u32)
    requires Inv(geo, s, sn) && s.txn.Some?
    ensures ValidImage(geo, s.img) && ValidImage(geo, Staged(s.img, s.txn.value)) && Readable(geo, s)
    ensures Flat(Staged(s.img, s.txn.value), geo.blockSize) == ViewOf(geo, s)
  {
    hide LiveSb, QuietArea, Flat, Overlay;
    InvReadable(geo, s, sn);
    StagedValid(geo, s.img, s.txn.value);
    OverlayIsStaged(s.img, geo.blockSize, s.txn.value);
  }

  lemma IdleView(geo: Geometry, s: DeviceState, sn: u32)
    requires Inv(geo, s, sn) && s.depth == 0
    ensures Readable(geo, s) && ViewOf(geo, s) == Flat(s.img, geo.blockSize)
  {
    hide Quiet, Flat;
    InvReadable(geo, s, sn);
  }

  /**
   One outermost operation whose end reports failure leaves no trace: the device is as it was, and readers see what
   they saw before its begin. The same holds when the commit is refused.
   */
  lemma OperationAborts(geo: Geometry, sn: u32, states: seq<DeviceState>, evs: seq<DeviceEvent>, ok: bool,
      after: DeviceState)
    requires DeviceRun(geo, states, evs) && Inv(geo, states[0], sn) && states[0].depth == 0 && Open(states)
    requires var s := states[|evs|]; s.depth == 1 && Moves(geo, s, End(ok), after)
    requires !ok || (CommitPre(geo, states[|evs|].img, states[|evs|].txn.value)
             && CommitTrace(geo, states[|evs|].img, states[|evs|].txn.value, NoCrash).Err?)
    ensures after == states[0].(txn := None) && Readable(geo, states[0]) && Readable(geo, after)
    ensures ViewOf(geo, after) == ViewOf(geo, states[0])
  {
    hide Flat, Overlay, CommitPre, CommitTrace;
    OpenView(geo, sn, states, evs);
    OpenHasTxn(geo, sn, states[0]);
  }

  lemma OpenHasTxn(geo: Geometry, sn: u32, s: DeviceState)
    requires Inv(geo, s, sn)
    ensures s.depth > 0 <==> s.txn.Some?
  {
    hide Quiet;
  }

  /** The end of a nested operation, failed or not, changes nothing readers see. */
  lemma NestedEndKeepsView(geo: Geometry, sn: u32, s: DeviceState, ok: bool, t: DeviceState)
    requires Inv(geo, s, sn) && s.depth > 1 && Moves(geo, s, End(ok), t)
    ensures Readable(geo, s) && Readable(geo, t) && ViewOf(geo, t) == ViewOf(geo, s) && t.img == s.img
    ensures t.depth == s.depth - 1
  {
    hide Flat, Overlay, Quiet;
    InvReadable(geo, s, sn);
  }
}
