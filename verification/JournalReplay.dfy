/** What recovery leaves on the device, and why crashing in the middle of it does no harm. */
module JournalReplay {
  import opened Bytes
  import opened Outcome
  import opened JournalCodec
  import opened CrashDisk
  import opened JournalLog
  import opened Journal
  import opened JournalRecovery

  /** Both images hold the same journal file. */
  predicate SameLog(geo: Geometry, a: Image, b: Image)
    requires ValidImage(geo, a) && ValidImage(geo, b)
  {
    forall idx :: 0 <= idx < |geo.logMap| ==> LogBlock(geo, a, idx) == LogBlock(geo, b, idx)
  }

  /** The file-system content outside the log agrees, but for the RECOVER flag of the ext4 superblock. */
  predicate SameFs(geo: Geometry, a: Image, b: Image) {
    && ValidImage(geo, a) && ValidImage(geo, b) && |a| == |b|
    && (forall i :: 0 <= i < |a| && !geo.InLog(i) && i != geo.SbBlock() ==> a[i] == b[i])
    && PatchRecover(geo.crc, a[geo.SbBlock()], geo.SbOff(), false)
        == PatchRecover(geo.crc, b[geo.SbBlock()], geo.SbOff(), false)
  }

  // ---- everything recovery reads is in the log -----------------------------------

  predicate IdxInLog(geo: Geometry, idxs: seq<nat>) {
    forall i :: 0 <= i < |idxs| ==> idxs[i] < |geo.logMap|
  }

  predicate RevokesInLog(geo: Geometry, txns: seq<ScannedTxn>) {
    forall i :: 0 <= i < |txns| ==> IdxInLog(geo, txns[i].revokeLogBlocks)
  }

  lemma {:induction false} WalkSame(geo: Geometry, a: Image, b: Image, live: Live, s: ScanState, fuel: nat)
    requires ValidImage(geo, a) && ValidImage(geo, b) && SameLog(geo, a, b)
    requires SaneLog(geo, live.sb) && live.sb.first <= s.cursor < live.sb.maxlen
    requires IdxInLog(geo, s.revokes) && RevokesInLog(geo, s.txns)
    ensures Walk(geo, a, live, s, fuel) == Walk(geo, b, live, s, fuel)
    ensures Walk(geo, a, live, s, fuel).Ok? ==> RevokesInLog(geo, Walk(geo, a, live, s, fuel).value)
    decreases fuel
  {
    hide GetBe32, CommitCsumOk, ParseDescriptor, LogBlock, TagBlocks;
    if fuel > 0 {
      assert LogBlock(geo, a, s.cursor) == LogBlock(geo, b, s.cursor);
      var step := Step(geo, a, live, s);
      if step.Go? {
        WalkSame(geo, a, b, live, step.next, fuel - 1);
      }
    }
  }

  lemma ScanSame(geo: Geometry, a: Image, b: Image)
    requires ValidImage(geo, a) && ValidImage(geo, b) && SameLog(geo, a, b)
    requires LiveSb(geo, a).Ok? ==> SaneLog(geo, LiveSb(geo, a).value.sb) && HeadInLog(LiveSb(geo, a).value.sb)
    ensures LiveSb(geo, a) == LiveSb(geo, b) && ScanLog(geo, a) == ScanLog(geo, b)
    ensures ScanLog(geo, a).Ok? ==> RevokesInLog(geo, ScanLog(geo, a).value.txns)
  {
    hide ParseJournalSuperblock, FormatOf, Feature64, FeatureCsum, Walk;
    assert LogBlock(geo, a, 0) == LogBlock(geo, b, 0);
    if LiveSb(geo, a).Ok? {
      var live := LiveSb(geo, a).value;
      if live.sb.start != 0 {
        WalkSame(geo, a, b, live, StartState(live.sb), live.sb.maxlen);
      }
    }
  }

  lemma {:induction false} RevokeBlocksSame(geo: Geometry, a: Image, b: Image, live: Live, table: RevokeTable,
      idxs: seq<nat>)
    requires ValidImage(geo, a) && ValidImage(geo, b) && SameLog(geo, a, b) && IdxInLog(geo, idxs)
    ensures AddRevokeBlocks(geo, a, live, table, idxs) == AddRevokeBlocks(geo, b, live, table, idxs)
    decreases |idxs|
  {
    hide TailCsumOk, ParseRevokeBlock, AddRevoked, LogBlock;
    if idxs != [] {
      var block := LogBlock(geo, a, idxs[0]);
      assert block == LogBlock(geo, b, idxs[0]);
      var rb := ParseRevokeBlock(block, live.has64);
      if rb.Ok? {
        RevokeBlocksSame(geo, a, b, live, AddRevoked(table, rb.value.blocks, rb.value.sequence), idxs[1..]);
      }
    }
  }

  lemma {:induction false} TxnRevokesSame(geo: Geometry, a: Image, b: Image, live: Live, table: RevokeTable,
      txns: seq<ScannedTxn>)
    requires ValidImage(geo, a) && ValidImage(geo, b) && SameLog(geo, a, b) && RevokesInLog(geo, txns)
    ensures AddTxnRevokes(geo, a, live, table, txns) == AddTxnRevokes(geo, b, live, table, txns)
    decreases |txns|
  {
    hide AddRevokeBlocks, LogBlock;
    if txns != [] {
      RevokeBlocksSame(geo, a, b, live, table, txns[0].revokeLogBlocks);
      var t := AddRevokeBlocks(geo, a, live, table, txns[0].revokeLogBlocks);
      if t.Ok? {
        TxnRevokesSame(geo, a, b, live, t.value, txns[1..]);
      }
    }
  }

  lemma {:induction false} ToReplayInLog(geo: Geometry, table: RevokeTable, txns: seq<ScannedTxn>)
    requires forall i :: 0 <= i < |txns| ==> DataInside(geo, txns[i].blocks)
    ensures DataInside(geo, ToReplay(table, txns))
    decreases |txns|
  {
    if txns != [] {
      var u := Unrevoked(table, txns[0].sequence, txns[0].blocks);
      forall i | 0 <= i < |u|
        ensures u[i].dataLogBlock < |geo.logMap|
      {
        assert u[i] in txns[0].blocks;
      }
      ToReplayInLog(geo, table, txns[1..]);
    }
  }

  predicate DataInside(geo: Geometry, blocks: seq<LoggedBlock>) {
    forall i :: 0 <= i < |blocks| ==> blocks[i].dataLogBlock < |geo.logMap|
  }

  /** Two images with the same log are recovered by the same replay writes and the same journal head. */
  lemma PlanSame(geo: Geometry, a: Image, b: Image)
    requires RecoverPre(geo, a) && ValidImage(geo, b) && SameLog(geo, a, b) && |a| == |b|
    ensures RecoverPre(geo, b)
    ensures LiveSb(geo, a) == LiveSb(geo, b) && ScanLog(geo, a) == ScanLog(geo, b)
    ensures ScanLog(geo, a).Ok? ==>
            RevokesOf(geo, a, ScanLog(geo, a).value.txns) == RevokesOf(geo, b, ScanLog(geo, a).value.txns)
    ensures forall h :: Plan(geo, a, h).Ok? <==> Plan(geo, b, h).Ok?
    ensures forall h :: Plan(geo, a, h).Ok? ==>
              Plan(geo, a, h).value.replay == Plan(geo, b, h).value.replay
                  && Plan(geo, a, h).value.head == Plan(geo, b, h).value.head
  {
    hide LiveSb, ScanLog, UpdateSuperblock, PatchRecover, ParseJournalSuperblock, Apply, LogBlock;
    ScanSame(geo, a, b);
    if ScanLog(geo, a).Ok? {
      var txns := ScanLog(geo, a).value.txns;
      RevokesSame(geo, a, b, txns);
      if RevokesOf(geo, a, txns).Ok? {
        DataInLog(geo, a);
        var lbs := ToReplay(RevokesOf(geo, a, txns).value, txns);
        ToReplayInLog(geo, RevokesOf(geo, a, txns).value, txns);
        ReplaySame(geo, a, b, lbs);
        assert LogBlock(geo, a, 0) == LogBlock(geo, b, 0);
      }
    }
  }

  lemma RevokesSame(geo: Geometry, a: Image, b: Image, txns: seq<ScannedTxn>)
    requires ValidImage(geo, a) && ValidImage(geo, b) && SameLog(geo, a, b) && RevokesInLog(geo, txns)
    requires LiveSb(geo, a) == LiveSb(geo, b)
    ensures RevokesOf(geo, a, txns) == RevokesOf(geo, b, txns)
  {
    hide LiveSb;
    if LiveSb(geo, a).Ok? {
      TxnRevokesSame(geo, a, b, LiveSb(geo, a).value, map[], txns);
    }
  }

  lemma ReplaySame(geo: Geometry, a: Image, b: Image, lbs: seq<LoggedBlock>)
    requires ValidImage(geo, a) && ValidImage(geo, b) && SameLog(geo, a, b) && DataInside(geo, lbs)
    ensures ReplayWrites(geo, a, lbs) == ReplayWrites(geo, b, lbs)
  {
    hide UnescapeData, LogBlock;
    forall i | 0 <= i < |lbs|
      ensures LoggedData(geo, a, lbs[i]) == LoggedData(geo, b, lbs[i])
    {
      assert LogBlock(geo, a, lbs[i].dataLogBlock) == LogBlock(geo, b, lbs[i].dataLogBlock);
    }
  }

  // ---- the image after a whole recovery ------------------------------------------

  lemma PlanFacts(geo: Geometry, img: Image, h: bool)
    requires RecoverPre(geo, img) && Plan(geo, img, h).Ok?
    ensures var p := Plan(geo, img, h).value;
            && WholeBlocks(geo, |img|, p.replay) && (forall i :: 0 <= i < |p.replay| ==> !geo.InLog(p.replay[i].target))
            && InRange(img, p.replay) && ValidImage(geo, Apply(img, p.replay))
                && SameLog(geo, img, Apply(img, p.replay))
            && p.head.target == geo.Map(0) && |p.head.data| == geo.blockSize
            && p.recoverOff == BlockWrite(geo.SbBlock(),
                PatchRecover(geo.crc, Apply(img, p.replay)[geo.SbBlock()], geo.SbOff(), false))
            && EpochsInRange(img, p.All())
  {
    hide LiveSb, ScanLog, RevokesOf, ReplayWrites, ToReplay, Apply, UpdateSuperblock, PatchRecover;
    hide ParseJournalSuperblock;
    var scan := ScanLog(geo, img).value;
    var table := RevokesOf(geo, img, scan.txns).value;
    ToReplayOutsideLog(geo, |img|, table, scan.txns);
    ReplayValid(geo, img, ToReplay(table, scan.txns));
    LiveParses(geo, img);
  }

  function LiveCsum(geo: Geometry, img: Image): bool
    requires ValidImage(geo, img)
  {
    LiveSb(geo, img).Ok? && LiveSb(geo, img).value.hasCsum
  }

  /** The image once every write of a recovery is durable. */
  function Recovered(geo: Geometry, img: Image): (r: Result<Image>)
    requires RecoverPre(geo, img)
  {
    hide ScanLog, Plan, LiveCsum, AfterEpochs;
    var scan :- ScanLog(geo, img);
    if scan.txns == [] then Ok(img)
    else
      var plan :- Plan(geo, img, LiveCsum(geo, img));
      PlanFacts(geo, img, LiveCsum(geo, img));
      Ok(AfterEpochs(img, plan.All()))
  }

  /** `Recovered` is what the recovery trace makes of an idle device. */
  lemma RecoveredIsRun(geo: Geometry, img: Image)
    requires RecoverPre(geo, img)
    ensures var t := RecoverTrace(geo, img, LiveCsum(geo, img));
            && (t.Ok? <==> Recovered(geo, img).Ok?)
            && (t.Ok? ==> OpsInRange(img, t.value) && Run(img, t.value) == Disk(Recovered(geo, img).value, []))
  {
    hide ScanLog, Plan, LiveCsum, AfterEpochs, Trace;
    if ScanLog(geo, img).Ok? && ScanLog(geo, img).value.txns != [] {
      var plan := Plan(geo, img, LiveCsum(geo, img));
      if plan.Ok? {
        PlanFacts(geo, img, LiveCsum(geo, img));
        RunTrace(img, plan.value.All());
      }
    }
  }

  lemma PlanEpochs(img: Image, p: RecoverPlan)
    requires EpochsInRange(img, p.All())
    ensures InRange(img, p.replay) && InRange(img, [p.head]) && InRange(img, [p.recoverOff])
    ensures AfterEpochs(img, p.All()[..0]) == img
    ensures EpochsInRange(img, p.All()[..1]) && AfterEpochs(img, p.All()[..1]) == Apply(img, p.replay)
    ensures EpochsInRange(img, p.All()[..2])
    ensures p.head.target < |img| && p.recoverOff.target < |img|
    ensures AfterEpochs(img, p.All()[..2]) == Apply(img, p.replay)[p.head.target := p.head.data]
    ensures AfterEpochs(img, p.All())
            == Apply(img, p.replay)[p.head.target := p.head.data][p.recoverOff.target := p.recoverOff.data]
  {
    hide Apply, AfterEpochs, EpochsInRange;
    var e := p.All();
    PlanInRange(img, p);
    ThreeStages(img, p.replay, [p.head], [p.recoverOff]);
    assert e[..0] == [] && e[..1] == [p.replay] && e[..2] == [p.replay, [p.head]];
    var r := Apply(img, p.replay);
    ApplyOne(r, p.head);
    ApplyOne(r[p.head.target := p.head.data], p.recoverOff);
  }

  lemma ThreeStages(img: Image, a: seq<BlockWrite>, b: seq<BlockWrite>, c: seq<BlockWrite>)
    requires InRange(img, a) && InRange(img, b) && InRange(img, c)
    ensures EpochsInRange(img, []) && EpochsInRange(img, [a]) && EpochsInRange(img, [a, b])
    ensures EpochsInRange(img, [a, b, c])
    ensures AfterEpochs(img, []) == img && AfterEpochs(img, [a]) == Apply(img, a)
    ensures AfterEpochs(img, [a, b]) == Apply(Apply(img, a), b)
    ensures AfterEpochs(img, [a, b, c]) == Apply(Apply(Apply(img, a), b), c)
  {
    hide Apply, AfterEpochs, InRange;
    NextEpoch(img, [], a);
    assert [] + [a] == [a];
    NextEpoch(img, [a], b);
    assert [a] + [b] == [a, b];
    NextEpoch(img, [a, b], c);
    assert [a, b] + [c] == [a, b, c];
  }

  lemma PlanInRange(img: Image, p: RecoverPlan)
    requires EpochsInRange(img, p.All())
    ensures InRange(img, p.replay) && InRange(img, [p.head]) && InRange(img, [p.recoverOff])
    ensures p.head.target < |img| && p.recoverOff.target < |img|
    ensures EpochsInRange(img, []) && EpochsInRange(img, [p.replay]) && EpochsInRange(img, [p.replay, [p.head]])
  {
    var e := p.All();
    assert InRange(img, e[0]) && InRange(img, e[1]) && InRange(img, e[2]);
    assert p.head == e[1][0] && p.recoverOff == e[2][0];
  }

  lemma NextEpoch(img: Image, done: seq<seq<BlockWrite>>, ws: seq<BlockWrite>)
    requires EpochsInRange(img, done) && InRange(img, ws)
    ensures EpochsInRange(img, done + [ws])
    ensures AfterEpochs(img, done + [ws]) == Apply(AfterEpochs(img, done), ws)
    ensures AfterEpochs(img, []) == img
  {
    hide Apply;
    assert (done + [ws])[..|done|] == done;
  }

  lemma TargetsHead(ws: seq<BlockWrite>, b: nat)
    requires ws != []
    ensures Targets(ws, b) <==> ws[0].target == b || Targets(ws[1..], b)
  {
    if Targets(ws[1..], b) {
      var k :| 0 <= k < |ws[1..]| && ws[1..][k].target == b;
      assert ws[k + 1].target == b;
    }
    if k :| 0 <= k < |ws| && ws[k].target == b {
      if k > 0 {
        assert ws[1..][k - 1].target == b;
      }
    }
  }

  /** Replaying over an image that differs only in blocks the replay rewrites gives the same result. */
  lemma {:induction false} ApplyOver(a: Image, b: Image, ws: seq<BlockWrite>)
    requires |a| == |b| && InRange(a, ws)
    requires forall i :: 0 <= i < |a| && !Targets(ws, i) ==> a[i] == b[i]
    ensures InRange(b, ws) && Apply(a, ws) == Apply(b, ws)
    decreases |ws|
  {
    if ws != [] {
      var a', b' := a[ws[0].target := ws[0].data], b[ws[0].target := ws[0].data];
      forall i | 0 <= i < |a'| && !Targets(ws[1..], i)
        ensures a'[i] == b'[i]
      {
        TargetsHead(ws, i);
      }
      ApplyOver(a', b', ws[1..]);
    } else {
      assert forall i :: 0 <= i < |a| ==> !Targets(ws, i);
    }
  }

  /** Writes outside the log, kept or not, leave the log as it was. */
  lemma SurvivorLog(geo: Geometry, img: Image, ws: seq<BlockWrite>, keep: seq<bool>)
    requires ValidImage(geo, img) && |keep| == |ws| && WholeBlocks(geo, |img|, ws) && InRange(img, ws)
    requires forall i :: 0 <= i < |ws| ==> !geo.InLog(ws[i].target)
    ensures ValidImage(geo, Survivor(img, ws, keep)) && SameLog(geo, img, Survivor(img, ws, keep))
  {
    hide Survivor;
    SurvivorValid(geo, img, ws, keep);
    forall idx | 0 <= idx < |geo.logMap|
      ensures LogBlock(geo, img, idx) == LogBlock(geo, Survivor(img, ws, keep), idx)
    {
      assert geo.InLog(geo.Map(idx));
      SurvivorBlock(img, ws, keep, geo.Map(idx));
    }
  }

  lemma SurvivorValid(geo: Geometry, img: Image, ws: seq<BlockWrite>, keep: seq<bool>)
    requires ValidImage(geo, img) && |keep| == |ws| && WholeBlocks(geo, |img|, ws) && InRange(img, ws)
    ensures ValidImage(geo, Survivor(img, ws, keep))
  {
    hide Survivor;
    var c := Survivor(img, ws, keep);
    forall b | 0 <= b < |c|
      ensures |c[b]| == geo.blockSize
    {
      SurvivorBlock(img, ws, keep, b);
    }
  }

  /** A survivor of the replay writes replays to the same image. */
  lemma SurvivorReplays(img: Image, ws: seq<BlockWrite>, keep: seq<bool>)
    requires |keep| == |ws| && InRange(img, ws)
    ensures InRange(Survivor(img, ws, keep), ws) && Apply(Survivor(img, ws, keep), ws) == Apply(img, ws)
  {
    hide Survivor, Apply;
    var c := Survivor(img, ws, keep);
    forall i | 0 <= i < |img| && !Targets(ws, i)
      ensures img[i] == c[i]
    {
      SurvivorBlock(img, ws, keep, i);
    }
    ApplyOver(img, c, ws);
  }

  /** A single pending write is on the medium or it is not. */
  lemma SurvivorOne(img: Image, w: BlockWrite, keep: seq<bool>)
    requires |keep| == 1 && w.target < |img|
    ensures InRange(img, [w])
    ensures Survivor(img, [w], keep) == if keep[0] then img[w.target := w.data] else img
  {
    assert Kept([w], keep) == (if keep[0] then [w] else []) + Kept([w][1..], keep[1..]);
    assert [w][1..] == [] && Kept([w][1..], keep[1..]) == [];
    if keep[0] {
      assert Kept([w], keep) == [w];
      ApplyOne(img, w);
    } else {
      assert Kept([w], keep) == [];
    }
  }

  /** The journal head a recovery or a finished commit writes: clean, at the next sequence. */
  predicate CleanHead(geo: Geometry, img: Image)
    requires ValidImage(geo, img)
  {
    LiveSb(geo, img).Ok? && LiveSb(geo, img).value.sb.start == 0
  }

  lemma CleanIsRecovered(geo: Geometry, img: Image)
    requires ValidImage(geo, img) && CleanHead(geo, img) && SaneLog(geo, LiveSb(geo, img).value.sb)
    ensures RecoverPre(geo, img) && Recovered(geo, img) == Ok(img)
  {
    hide LiveSb;
    CleanScan(geo, img);
  }

  /** Updating the head of a live journal superblock changes its position fields only. */
  lemma HeadUpdated(geo: Geometry, img: Image, sequence: u32, start: u32)
    requires ValidImage(geo, img) && LiveSb(geo, img).Ok?
    ensures var live := LiveSb(geo, img).value;
            var img' := img[geo.Map(0) := UpdateSuperblock(geo.crc, LogBlock(geo, img, 0), sequence, start,
                live.hasCsum)];
            && ValidImage(geo, img')
            && LiveSb(geo, img') == Ok(live.(sb := live.sb.(sequence := sequence, start := start)))
  {
    hide ParseJournalSuperblock, UpdateSuperblock, FormatOf, Feature64, FeatureCsum;
    var live := LiveSb(geo, img).value;
    UpdateSuperblockParses(geo.crc, LogBlock(geo, img, 0), sequence, start, live.hasCsum);
  }

  /** The head a plan writes leaves a clean journal behind. */
  lemma PlanHeadCleans(geo: Geometry, img: Image)
    requires RecoverPre(geo, img) && Plan(geo, img, LiveCsum(geo, img)).Ok?
    ensures var p := Plan(geo, img, LiveCsum(geo, img)).value;
            && InRange(img, p.replay) && ValidImage(geo, Apply(img, p.replay))
            && p.head.target < |img|
            && var c := Apply(img, p.replay)[p.head.target := p.head.data];
               && ValidImage(geo, c) && LiveSb(geo, c).Ok? && LiveSb(geo, img).Ok?
               && LiveSb(geo, c).value.sb == LiveSb(geo, img).value.sb.(sequence :=
                   WrappingAdd1(ScanLog(geo, img).value.lastSequence), start := 0)
  {
    hide ScanLog, RevokesOf, ReplayWrites, ToReplay, Apply, UpdateSuperblock, PatchRecover, ParseJournalSuperblock;
    hide FormatOf, Feature64, FeatureCsum;
    PlanFacts(geo, img, LiveCsum(geo, img));
    LiveParses(geo, img);
    var p := Plan(geo, img, LiveCsum(geo, img)).value;
    var r := Apply(img, p.replay);
    assert LogBlock(geo, img, 0) == LogBlock(geo, r, 0);
    HeadUpdated(geo, r, WrappingAdd1(ScanLog(geo, img).value.lastSequence), 0);
  }

  /** Clearing RECOVER is invisible to `SameFs`. */
  lemma SameFsPatched(geo: Geometry, a: Image, on: bool)
    requires ValidImage(geo, a)
    ensures SameFs(geo, a, a[geo.SbBlock() := PatchRecover(geo.crc, a[geo.SbBlock()], geo.SbOff(), on)])
  {
    hide PatchRecover;
    PatchRecoverTwice(geo.crc, a[geo.SbBlock()], geo.SbOff(), on, false);
  }

  /**
   A crash anywhere during recovery, with any subset of the unflushed writes kept, followed by a recovery
   that finishes, leaves the file system exactly as one undisturbed recovery does.
   */
  lemma RecoverCrashIdempotent(geo: Geometry, img: Image, c: Image)
    requires RecoverPre(geo, img) && Recovered(geo, img).Ok?
    requires CrashDuring(img, RecoverTrace(geo, img, LiveCsum(geo, img)).value, c)
    ensures RecoverPre(geo, c) && Recovered(geo, c).Ok?
    ensures SameFs(geo, Recovered(geo, c).value, Recovered(geo, img).value)
  {
    hide ScanLog, Plan, LiveCsum, AfterEpochs, Trace, Survivor, CrashDuring, PatchRecover, RecoverPre, LiveSb;
    PreValid(geo, img);
    var scan := ScanLog(geo, img).value;
    if scan.txns == [] {
      NothingToDo(img, c);
      assert c == img;
      SameFsSelf(geo, img);
    } else {
      var p := Plan(geo, img, LiveCsum(geo, img)).value;
      PlanFacts(geo, img, LiveCsum(geo, img));
      var j, keep := CrashInsideEpoch(img, p.All(), c);
      PlanEpochs(img, p);
      if j == 0 {
        RecoverAgain(geo, img, c, keep);
      } else if j == 1 {
        SurvivorOne(Apply(img, p.replay), p.head, keep);
        if keep[0] {
          AfterHead(geo, img, c);
        } else {
          AllSurvive(img, p.replay);
          RecoverAgain(geo, img, c, seq(|p.replay|, i => true));
        }
      } else {
        SurvivorOne(Apply(img, p.replay)[p.head.target := p.head.data], p.recoverOff, keep);
        AfterHead(geo, img, c);
      }
    }
  }

  lemma PreValid(geo: Geometry, img: Image)
    requires RecoverPre(geo, img)
    ensures ValidImage(geo, img)
  {
  }

  lemma NothingToDo(img: Image, c: Image)
    requires CrashDuring(img, [], c)
    ensures c == img
  {
    var k :| 0 <= k <= 0 && CrashAfter(img, [][..k], c);
    assert Run(img, []) == Disk(img, []);
  }

  lemma SameFsSelf(geo: Geometry, img: Image)
    requires ValidImage(geo, img)
    ensures SameFs(geo, img, img)
  {
  }

  /** The crash hit the replay: recovery starts over and gets to the same image. */
  lemma RecoverAgain(geo: Geometry, img: Image, c: Image, keep: seq<bool>)
    requires RecoverPre(geo, img) && ScanLog(geo, img).Ok? && ScanLog(geo, img).value.txns != []
    requires Plan(geo, img, LiveCsum(geo, img)).Ok?
    requires var p := Plan(geo, img, LiveCsum(geo, img)).value;
             InRange(img, p.replay) && |keep| == |p.replay| && c == Survivor(img, p.replay, keep)
    ensures RecoverPre(geo, c) && Recovered(geo, c).Ok? && Recovered(geo, img).Ok?
    ensures Recovered(geo, c).value == Recovered(geo, img).value
    ensures SameFs(geo, Recovered(geo, c).value, Recovered(geo, img).value)
  {
    hide ScanLog, Plan, AfterEpochs, Trace, Survivor, PatchRecover, RecoverPre, LiveSb, Apply;
    PreValid(geo, img);
    PlanFacts(geo, img, LiveCsum(geo, img));
    var p := Plan(geo, img, LiveCsum(geo, img)).value;
    SurvivorLog(geo, img, p.replay, keep);
    PlanSame(geo, img, c);
    SurvivorReplays(img, p.replay, keep);
    PlanFacts(geo, c, LiveCsum(geo, c));
    PlanEpochs(img, p);
    PlanEpochs(c, Plan(geo, c, LiveCsum(geo, c)).value);
    RecoveredValid(geo, img);
    SameFsSelf(geo, Recovered(geo, img).value);
  }

  lemma RecoveredValid(geo: Geometry, img: Image)
    requires RecoverPre(geo, img) && Recovered(geo, img).Ok?
    ensures ValidImage(geo, Recovered(geo, img).value) && |Recovered(geo, img).value| == |img|
  {
    hide ScanLog, Plan, AfterEpochs, PatchRecover, RecoverPre, LiveSb, Apply;
    PreValid(geo, img);
    if ScanLog(geo, img).value.txns != [] {
      PlanFacts(geo, img, LiveCsum(geo, img));
      PlanEpochs(img, Plan(geo, img, LiveCsum(geo, img)).value);
    }
  }

  /** The clean head is on the medium: recovery finds nothing to do, and at most RECOVER is still set. */
  lemma AfterHead(geo: Geometry, img: Image, c: Image)
    requires RecoverPre(geo, img) && ScanLog(geo, img).Ok? && ScanLog(geo, img).value.txns != []
    requires Plan(geo, img, LiveCsum(geo, img)).Ok?
    requires var p := Plan(geo, img, LiveCsum(geo, img)).value;
             && InRange(img, p.replay) && p.head.target < |img| && p.recoverOff.target < |img|
             && (c == Apply(img, p.replay)[p.head.target := p.head.data]
                 || c == Apply(img, p.replay)[p.head.target := p.head.data][p.recoverOff.target := p.recoverOff.data])
    ensures RecoverPre(geo, c) && Recovered(geo, c) == Ok(c) && Recovered(geo, img).Ok?
    ensures SameFs(geo, c, Recovered(geo, img).value)
  {
    hide ScanLog, Plan, AfterEpochs, Trace, Survivor, PatchRecover, LiveSb, Apply;
    PlanFacts(geo, img, LiveCsum(geo, img));
    PlanHeadCleans(geo, img);
    var p := Plan(geo, img, LiveCsum(geo, img)).value;
    PlanEpochs(img, p);
    var m := Apply(img, p.replay)[p.head.target := p.head.data];
    var d := m[p.recoverOff.target := p.recoverOff.data];
    assert geo.InLog(geo.Map(0));
    LiveSame(geo, m, d);
    CleanIsRecovered(geo, c);
    SameFsPatched(geo, m, false);
    SameFsSelf(geo, d);
  }

  lemma LiveSame(geo: Geometry, a: Image, b: Image)
    requires ValidImage(geo, a) && |a| == |b| && (forall i :: 0 <= i < |b| ==> |b[i]| == geo.blockSize)
    requires a[geo.Map(0)] == b[geo.Map(0)]
    ensures ValidImage(geo, b) && LiveSb(geo, a) == LiveSb(geo, b)
  {
    hide ParseJournalSuperblock, FormatOf, Feature64, FeatureCsum;
  }

  /** Recovering a recovered device does nothing at all. */
  lemma SecondRecoveryIsNoop(geo: Geometry, img: Image)
    requires RecoverPre(geo, img) && Recovered(geo, img).Ok?
    ensures var r := Recovered(geo, img).value;
            && RecoverPre(geo, r) && Recovered(geo, r) == Ok(r)
            && RecoverTrace(geo, r, LiveCsum(geo, r)) == Ok([])
  {
    hide Plan, AfterEpochs, Apply, LiveSb, ScanLog;
    if ScanLog(geo, img).value.txns != [] {
      PlanFacts(geo, img, LiveCsum(geo, img));
      PlanHeadCleans(geo, img);
      var p := Plan(geo, img, LiveCsum(geo, img)).value;
      PlanEpochs(img, p);
      var m := Apply(img, p.replay)[p.head.target := p.head.data];
      var d := m[p.recoverOff.target := p.recoverOff.data];
      assert geo.InLog(geo.Map(0));
      LiveSame(geo, m, d);
      CleanIsRecovered(geo, d);
      CleanScan(geo, d);
    }
  }
}
