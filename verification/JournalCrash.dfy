/** Crash atomicity of one commit: whatever survives, recovery gives all of it or none of it. */
module JournalCrash {
  import opened Bytes
  import opened Outcome
  import opened JournalCodec
  import opened CrashDisk
  import opened JournalLog
  import opened Journal
  import opened JournalRecovery
  import opened JournalReplay
  import opened JournalQuiet
  import opened JournalCommitted

  /** The file system with every staged block in place. */
  function Staged(img: Image, txn: Transaction): (r: Image)
    ensures |r| == |img|
    ensures forall b :: 0 <= b < |img| ==> r[b] == if b in txn.blocks then txn.blocks[b] else img[b]
  {
    seq(|img|, b requires 0 <= b < |img| => if b in txn.blocks then txn.blocks[b] else img[b])
  }

  /** Two contents of block `b` agree; of the ext4 superblock, up to its RECOVER flag. */
  predicate SameBlock(geo: Geometry, b: nat, x: Block, y: Block) {
    if b == geo.SbBlock() then
      |x| == |y| == geo.blockSize && geo.SbOff() + 1024 <= geo.blockSize
      && PatchRecover(geo.crc, x, geo.SbOff(), false) == PatchRecover(geo.crc, y, geo.SbOff(), false)
    else x == y
  }

  lemma SameFsByBlock(geo: Geometry, a: Image, b: Image)
    requires ValidImage(geo, a) && ValidImage(geo, b) && |a| == |b|
    ensures SameFs(geo, a, b) <==> forall i: nat :: i < |a| && !geo.InLog(i) ==> SameBlock(geo, i, a[i], b[i])
  {
    hide PatchRecover, Geometry.InLog;
  }

  // ---- a pending transaction -----------------------------------------------------------

  lemma NothingNewerSame(geo: Geometry, a: Image, b: Image, sb: JournalSuperblock, s: nat)
    requires ValidImage(geo, a) && ValidImage(geo, b) && SameLog(geo, a, b) && SaneLog(geo, sb)
    requires NothingNewer(geo, a, sb, s)
    ensures NothingNewer(geo, b, sb, s)
  {
    hide LogBlock, SeqAtMost;
    forall pos: nat | sb.first <= pos < sb.maxlen
      ensures SeqAtMost(LogBlock(geo, b, pos), s)
    {
      assert LogBlock(geo, a, pos) == LogBlock(geo, b, pos);
      assert SeqAtMost(LogBlock(geo, a, pos), s);
    }
  }

  /** Being pending is a property of the log alone. */
  lemma PendingSame(geo: Geometry, a: Image, b: Image, s: u32, ws: seq<BlockWrite>)
    requires Pending(geo, a, s, ws) && ValidImage(geo, b) && SameLog(geo, a, b) && |a| == |b|
    ensures Pending(geo, b, s, ws)
  {
    hide LiveSb, ScanLog, Plan, LogBlock, NothingNewer;
    PlanSame(geo, a, b);
    NothingNewerSame(geo, a, b, LiveSb(geo, a).value.sb, s);
  }

  lemma NewerIsQuiet(geo: Geometry, img: Image, live: Live, s: u32)
    requires ValidImage(geo, img) && NothingNewer(geo, img, live.sb, s) && s < 0xFFFF_FFFF
    ensures QuietArea(geo, img, live, s + 1)
  {
    hide GetBe32, ParseDescriptor, LogBlock;
    forall pos | live.sb.first <= pos < live.sb.maxlen
      ensures QuietBlock(live, LogBlock(geo, img, pos), s + 1)
    {
      assert SeqAtMost(LogBlock(geo, img, pos), s);
    }
  }

  /** A clean head over a log with nothing newer than `s` is quiet at `s + 1`. */
  lemma CleanedIsQuiet(geo: Geometry, a: Image, b: Image, sb: JournalSuperblock, s: u32)
    requires ValidImage(geo, a) && SaneLog(geo, sb) && NothingNewer(geo, a, sb, s) && s < 0xFFFF_FFFF
    requires ValidImage(geo, b)
    requires (forall idx :: 1 <= idx < |geo.logMap| ==> LogBlock(geo, a, idx) == LogBlock(geo, b, idx))
    requires LiveSb(geo, b).Ok? && LiveSb(geo, b).value.sb == sb.(sequence := s + 1, start := 0)
    ensures Quiet(geo, b, s + 1)
  {
    hide LiveSb, LogBlock, SeqAtMost;
    var live := LiveSb(geo, b).value;
    forall pos: nat | sb.first <= pos < sb.maxlen
      ensures SeqAtMost(LogBlock(geo, b, pos), s)
    {
      assert SeqAtMost(LogBlock(geo, a, pos), s);
    }
    NewerIsQuiet(geo, b, live, s);
  }

  lemma LogButHead(geo: Geometry, img: Image, head: Block)
    requires ValidImage(geo, img) && |head| == geo.blockSize
    ensures ValidImage(geo, img[geo.Map(0) := head])
    ensures forall idx :: 1 <= idx < |geo.logMap| ==>
            LogBlock(geo, img, idx) == LogBlock(geo, img[geo.Map(0) := head], idx)
    ensures forall b :: 0 <= b < |img| && !geo.InLog(b) ==> img[geo.Map(0) := head][b] == img[b]
  {
    assert geo.InLog(geo.Map(0));
  }

  lemma LogButSb(geo: Geometry, img: Image, data: Block)
    requires ValidImage(geo, img) && |data| == geo.blockSize
    ensures ValidImage(geo, img[geo.SbBlock() := data]) && SameLog(geo, img, img[geo.SbBlock() := data])
  {
    forall idx | 0 <= idx < |geo.logMap|
      ensures geo.Map(idx) != geo.SbBlock()
    {
      assert geo.InLog(geo.Map(idx));
    }
  }

  /** With the clean head on the medium, RECOVER cleared or not, the journal is quiet again. */
  lemma PendingCleaned(geo: Geometry, img: Image, s: u32, ws: seq<BlockWrite>)
    requires Pending(geo, img, s, ws)
    ensures var p := Plan(geo, img, LiveCsum(geo, img)).value;
            && InRange(img, ws) && p.head.target < |img| && p.recoverOff.target < |img|
            && var m := Apply(img, ws)[p.head.target := p.head.data];
               && Quiet(geo, m, s + 1)
               && Quiet(geo, m[p.recoverOff.target := p.recoverOff.data], s + 1)
               && SameFs(geo, m, Apply(img, ws))
               && SameFs(geo, m[p.recoverOff.target := p.recoverOff.data], Apply(img, ws))
  {
    hide LiveSb, ScanLog, Plan, LogBlock, NothingNewer, Apply, PatchRecover, RecoverPre, Quiet, LiveCsum, SameFs;
    PreValid(geo, img);
    PlanFacts(geo, img, LiveCsum(geo, img));
    PlanHeadCleans(geo, img);
    PendingSane(geo, img, s, ws);
    var p := Plan(geo, img, LiveCsum(geo, img)).value;
    var sb := LiveSb(geo, img).value.sb;
    var r := Apply(img, p.replay);
    NothingNewerSame(geo, img, r, sb, s);
    LogButHead(geo, r, p.head.data);
    var m := r[p.head.target := p.head.data];
    CleanedIsQuiet(geo, r, m, sb, s);
    LogButSb(geo, m, p.recoverOff.data);
    QuietSame(geo, m, m[p.recoverOff.target := p.recoverOff.data], s + 1);
    HeadSameFs(geo, r, p.head.data);
    HeadThenOff(geo, r, p.head.data);
  }

  lemma PendingSane(geo: Geometry, img: Image, s: u32, ws: seq<BlockWrite>)
    requires Pending(geo, img, s, ws)
    ensures SaneLog(geo, LiveSb(geo, img).value.sb) && HeadInLog(LiveSb(geo, img).value.sb)
  {
    hide LiveSb, ScanLog, Plan, NothingNewer;
  }

  lemma HeadSameFs(geo: Geometry, r: Image, head: Block)
    requires ValidImage(geo, r) && |head| == geo.blockSize
    ensures SameFs(geo, r[geo.Map(0) := head], r)
  {
    hide PatchRecover;
    assert geo.InLog(geo.Map(0));
  }

  lemma HeadThenOff(geo: Geometry, r: Image, head: Block)
    requires ValidImage(geo, r) && |head| == geo.blockSize
    ensures SameFs(geo, r[geo.Map(0) := head][geo.SbBlock() :=
            PatchRecover(geo.crc, r[geo.SbBlock()], geo.SbOff(), false)], r)
  {
    hide PatchRecover;
    assert geo.InLog(geo.Map(0));
    PatchRecoverTwice(geo.crc, r[geo.SbBlock()], geo.SbOff(), false, false);
  }

  /** Recovering a pending transaction writes it out and leaves a quiet journal at the next sequence. */
  lemma PendingRecovers(geo: Geometry, img: Image, s: u32, ws: seq<BlockWrite>)
    requires Pending(geo, img, s, ws)
    ensures Recovered(geo, img).Ok? && Quiet(geo, Recovered(geo, img).value, s + 1)
    ensures InRange(img, ws) && SameFs(geo, Recovered(geo, img).value, Apply(img, ws))
  {
    hide LiveSb, ScanLog, Plan, LogBlock, NothingNewer, Apply, PatchRecover, RecoverPre, Quiet, LiveCsum, SameFs;
    hide AfterEpochs;
    PendingCleaned(geo, img, s, ws);
    PreValid(geo, img);
    PlanFacts(geo, img, LiveCsum(geo, img));
    PlanEpochs(img, Plan(geo, img, LiveCsum(geo, img)).value);
  }

  /** A crash while recovering leaves the transaction pending, or already replayed in full. */
  lemma PendingCrash(geo: Geometry, img: Image, s: u32, ws: seq<BlockWrite>, c: Image)
    requires Pending(geo, img, s, ws)
    requires CrashDuring(img, RecoverTrace(geo, img, LiveCsum(geo, img)).value, c)
    ensures Pending(geo, c, s, ws) || Quiet(geo, c, s + 1)
  {
    hide LiveSb, ScanLog, Plan, LogBlock, NothingNewer, Apply, PatchRecover, RecoverPre, Quiet, LiveCsum, SameFs;
    hide AfterEpochs;
    hide Survivor, CrashDuring, Trace, SameLog;
    PreValid(geo, img);
    PendingCleaned(geo, img, s, ws);
    var p := Plan(geo, img, LiveCsum(geo, img)).value;
    PlanFacts(geo, img, LiveCsum(geo, img));
    var j, keep := CrashInsideEpoch(img, p.All(), c);
    PlanEpochs(img, p);
    if j == 0 {
      SurvivorLog(geo, img, p.replay, keep);
      PendingSame(geo, img, c, s, ws);
    } else if j == 1 {
      SurvivorOne(Apply(img, p.replay), p.head, keep);
      if !keep[0] {
        PendingSame(geo, img, c, s, ws);
      }
    } else {
      SurvivorOne(Apply(img, p.replay)[p.head.target := p.head.data], p.recoverOff, keep);
    }
  }

  // ---- the stages of a commit ------------------------------------------------------------

  lemma EpochStep(img: Image, epochs: seq<seq<BlockWrite>>, j: nat)
    requires j < |epochs| && EpochsInRange(img, epochs[..j]) && InRange(img, epochs[j])
    ensures EpochsInRange(img, epochs[..j + 1])
    ensures AfterEpochs(img, epochs[..j + 1]) == Apply(AfterEpochs(img, epochs[..j]), epochs[j])
  {
    hide Apply;
    NextEpoch(img, epochs[..j], epochs[j]);
    assert epochs[..j] + [epochs[j]] == epochs[..j + 1];
  }

  /** The durable images between the flushes of a commit. */
  datatype Stages = Stages(body: Image, dirty: Image, commit: Image, recoverOn: Image, checkpoint: Image, clean: Image,
                           recoverOff: Image)

  function Put(img: Image, w: BlockWrite): Image
    requires w.target < |img|
  {
    img[w.target := w.data]
  }

  predicate EpochsFit(img: Image, e: Epochs) {
    && InRange(img, e.body) && e.dirty.target < |img| && e.commit.target < |img| && e.recoverOn.target < |img|
    && InRange(img, e.checkpoint) && e.clean.target < |img| && e.recoverOff.target < |img|
  }

  function StagesOf(img: Image, e: Epochs): (s: Stages)
    requires EpochsFit(img, e)
    ensures |s.body| == |s.dirty| == |s.commit| == |s.recoverOn| == |s.checkpoint| == |s.clean| == |s.recoverOff|
            == |img|
  {
    hide Apply;
    var a1 := Apply(img, e.body);
    var a2 := Put(a1, e.dirty);
    var a3 := Put(a2, e.commit);
    var a4 := Put(a3, e.recoverOn);
    var a5 := Apply(a4, e.checkpoint);
    var a6 := Put(a5, e.clean);
    Stages(a1, a2, a3, a4, a5, a6, Put(a6, e.recoverOff))
  }

  lemma NoEpochs(img: Image)
    ensures EpochsInRange(img, []) && AfterEpochs(img, []) == img
  {
  }

  lemma FirstStages(img: Image, e: Epochs)
    requires EpochsFit(img, e)
    ensures EpochsInRange(img, e.All()[..4])
    ensures var s := StagesOf(img, e);
            && AfterEpochs(img, e.All()[..0]) == img && AfterEpochs(img, e.All()[..1]) == s.body
            && AfterEpochs(img, e.All()[..2]) == s.dirty && AfterEpochs(img, e.All()[..3]) == s.commit
            && AfterEpochs(img, e.All()[..4]) == s.recoverOn
  {
    hide Apply, AfterEpochs, EpochsInRange;
    var all, s := e.All(), StagesOf(img, e);
    assert all[..0] == [];
    NoEpochs(img);
    NextEpoch(img, [], e.body);
    assert [] + [e.body] == all[..1];
    EpochStep(img, all, 1);
    EpochStep(img, all, 2);
    EpochStep(img, all, 3);
    ApplyOne(s.body, e.dirty);
    ApplyOne(s.dirty, e.commit);
    ApplyOne(s.commit, e.recoverOn);
  }

  lemma LastStages(img: Image, e: Epochs)
    requires EpochsFit(img, e)
    ensures EpochsInRange(img, e.All()) && EpochsInRange(img, e.All()[..5]) && EpochsInRange(img, e.All()[..6])
    ensures var s := StagesOf(img, e);
            && AfterEpochs(img, e.All()[..5]) == s.checkpoint && AfterEpochs(img, e.All()[..6]) == s.clean
            && AfterEpochs(img, e.All()) == s.recoverOff
  {
    hide Apply, AfterEpochs, EpochsInRange;
    FirstStages(img, e);
    var all, s := e.All(), StagesOf(img, e);
    EpochStep(img, all, 4);
    EpochStep(img, all, 5);
    EpochStep(img, all, 6);
    assert all[..7] == all;
    ApplyOne(s.checkpoint, e.clean);
    ApplyOne(s.clean, e.recoverOff);
  }
}
