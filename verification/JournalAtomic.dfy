/** A commit is atomic: every crash image recovers to the old file system or to the whole transaction. */
module JournalAtomic {
  import opened Bytes
  import opened Outcome
  import opened JournalCodec
  import opened CrashDisk
  import opened JournalLog
  import opened Journal
  import opened JournalRecovery
  import opened JournalReplay
  import opened JournalQuiet
  import opened JournalCommitted
  import opened JournalCrash

  lemma SameFsTrans(geo: Geometry, a: Image, b: Image, c: Image)
    requires SameFs(geo, a, b) && SameFs(geo, b, c)
    ensures SameFs(geo, a, c)
  {
    hide PatchRecover;
  }

  lemma SameFsSym(geo: Geometry, a: Image, b: Image)
    requires SameFs(geo, a, b)
    ensures SameFs(geo, b, a)
  {
    hide PatchRecover;
  }

  /** Outside the log nothing changed. */
  predicate SameOutside(geo: Geometry, a: Image, b: Image) {
    |a| == |b| && forall i: nat :: i < |a| && !geo.InLog(i) ==> a[i] == b[i]
  }

  lemma OutsideSameFs(geo: Geometry, a: Image, b: Image)
    requires ValidImage(geo, a) && ValidImage(geo, b) && SameOutside(geo, a, b)
    ensures SameFs(geo, a, b)
  {
    hide PatchRecover;
  }

  // ---- up to the commit block --------------------------------------------------------------

  lemma CommitFits(geo: Geometry, img: Image, live: Live, txn: Transaction)
    requires ValidImage(geo, img) && Ready(geo, img, live, txn)
    ensures var e := CommitEpochs(geo, img, live, txn);
            && EpochsFit(img, e)
            && |e.dirty.data| == |e.commit.data| == |e.recoverOn.data| == |e.clean.data| == |e.recoverOff.data|
                == geo.blockSize
            && e.checkpoint == JournaledWrites(geo, img, txn) && WholeBlocks(geo, |img|, e.checkpoint)
            && WholeBlocks(geo, |img|, e.body)
  {
    hide Body, CommitBlock, UpdateSuperblock, PatchRecover, JournaledWrites, TagCapacity, RevokesFit, LogWrites, InArea;
    BodyWritesWhole(geo, img, live, txn);
    var n := |Body(geo, img, live, txn)|;
    CursorApart(geo, |img|, live.sb, AdvanceBy(live.sb.first, live.sb.maxlen, live.sb.first, n));
  }

  lemma BodyStage(geo: Geometry, img: Image, live: Live, txn: Transaction)
    requires Startable(geo, img, live, txn)
    ensures EpochsFit(img, CommitEpochs(geo, img, live, txn))
    ensures var a := StagesOf(img, CommitEpochs(geo, img, live, txn)).body;
            && Quiet(geo, a, txn.sequence) && LiveSb(geo, a) == Ok(live) && LogBlock(geo, a, 0) == LogBlock(geo, img, 0)
            && SameOutside(geo, a, img)
  {
    hide Body, CommitBlock, UpdateSuperblock, PatchRecover, JournaledWrites, TagCapacity, RevokesFit, LogWrites;
    hide Survivor, Apply;
    hide LiveSb, Quiet, Ready, NumbersFit;
    StartableReady(geo, img, live, txn);
    CommitFits(geo, img, live, txn);
    BodyWritesWhole(geo, img, live, txn);
    var ws := LogWrites(geo, live.sb, Body(geo, img, live, txn));
    BodySurvivorQuiet(geo, img, live, txn, seq(|ws|, i => true));
    AllSurvive(img, ws);
  }

  lemma StartableReady(geo: Geometry, img: Image, live: Live, txn: Transaction)
    requires Startable(geo, img, live, txn)
    ensures ValidImage(geo, img) && Ready(geo, img, live, txn) && SaneLog(geo, live.sb)
    ensures live.sb.sequence == txn.sequence
    ensures LiveSb(geo, img) == Ok(live)
  {
    hide LiveSb, TagCapacity, RevokesFit, NumbersFit, LogBlock;
  }

  lemma DirtyStage(geo: Geometry, img: Image, live: Live, txn: Transaction)
    requires Startable(geo, img, live, txn)
    ensures EpochsFit(img, CommitEpochs(geo, img, live, txn))
    ensures var a := StagesOf(img, CommitEpochs(geo, img, live, txn)).dirty;
            && Quiet(geo, a, txn.sequence) && LiveSb(geo, a) == Ok(Dirty(live)) && SameOutside(geo, a, img)
            && LogBlock(geo, a, 0) == CommitEpochs(geo, img, live, txn).dirty.data
  {
    hide Body, CommitBlock, UpdateSuperblock, PatchRecover, JournaledWrites, TagCapacity, RevokesFit, LogWrites, Apply;
    hide LiveSb, Ready, NumbersFit, QuietArea;
    StartableReady(geo, img, live, txn);
    BodyStage(geo, img, live, txn);
    HeadQuiet(geo, StagesOf(img, CommitEpochs(geo, img, live, txn)).body, live, txn.sequence, live.sb.first);
  }

  predicate Holds(a: Image, b: nat, data: Block) {
    b < |a| && a[b] == data
  }

  /** Once flushed, block `i` of the body is at `s_first + i`: the transaction fits, so nothing wrapped over it. */
  lemma BodyInPlace(geo: Geometry, img: Image, live: Live, txn: Transaction, i: nat)
    requires ValidImage(geo, img) && Ready(geo, img, live, txn) && FitsLog(geo, live.sb, txn)
    requires EpochsFit(img, CommitEpochs(geo, img, live, txn))
    requires i < |Body(geo, img, live, txn)|
    ensures Holds(StagesOf(img, CommitEpochs(geo, img, live, txn)).body, geo.Map(live.sb.first + i),
            Body(geo, img, live, txn)[i])
  {
    hide Body, CommitBlock, UpdateSuperblock, PatchRecover, JournaledWrites, TagCapacity, RevokesFit, Apply, AdvanceBy;
    hide JournaledCount;
    CommitFits(geo, img, live, txn);
    var ws := LogWrites(geo, live.sb, Body(geo, img, live, txn));
    forall k: nat | k < |ws|
      ensures ws[k].target == geo.Map(live.sb.first + k)
    {
      Linear(live.sb, live.sb.first, k);
    }
    assert DistinctTargets(ws);
    assert ws[i].target < |img|;
    ApplyDistinct(img, ws, i);
  }

  lemma QuietNothingNewer(geo: Geometry, a: Image, sb: JournalSuperblock, live: Live, s: nat)
    requires ValidImage(geo, a) && live.sb.first == sb.first && live.sb.maxlen == sb.maxlen
    requires s < 0x1_0000_0000 && QuietArea(geo, a, live, s)
    ensures NothingNewer(geo, a, sb, s)
  {
    hide GetBe32, ParseDescriptor, LogBlock;
    forall pos: nat | sb.first <= pos < sb.maxlen
      ensures SeqAtMost(LogBlock(geo, a, pos), s)
    {
      assert QuietBlock(live, LogBlock(geo, a, pos), s);
    }
  }

  /** Writing one log block keeps the others. */
  lemma OneLogBlock(geo: Geometry, a: Image, sb: JournalSuperblock, pos: nat, data: Block)
    requires ValidImage(geo, a) && SaneLog(geo, sb) && sb.first <= pos < sb.maxlen && |data| == geo.blockSize
    ensures var c := a[geo.Map(pos) := data];
            && ValidImage(geo, c) && LogBlock(geo, c, pos) == data && SameOutside(geo, c, a)
            && forall q: nat :: q < |geo.logMap| && q != pos ==> LogBlock(geo, c, q) == LogBlock(geo, a, q)
  {
    CursorApart(geo, |a|, sb, pos);
  }

  lemma NothingNewerPut(geo: Geometry, a: Image, sb: JournalSuperblock, pos: nat, data: Block, s: nat)
    requires ValidImage(geo, a) && SaneLog(geo, sb) && sb.first <= pos < sb.maxlen && |data| == geo.blockSize
    requires NothingNewer(geo, a, sb, s) && SeqAtMost(data, s)
    ensures ValidImage(geo, a[geo.Map(pos) := data]) && NothingNewer(geo, a[geo.Map(pos) := data], sb, s)
  {
    hide LogBlock, SeqAtMost;
    OneLogBlock(geo, a, sb, pos, data);
    var c := a[geo.Map(pos) := data];
    forall q: nat | sb.first <= q < sb.maxlen
      ensures SeqAtMost(LogBlock(geo, c, q), s)
    {
      assert SeqAtMost(LogBlock(geo, a, q), s);
    }
  }

  /** With the commit block flushed the whole transaction is in the log, and the file system is still untouched. */
  lemma CommitStage(geo: Geometry, img: Image, live: Live, txn: Transaction)
    requires Startable(geo, img, live, txn) && FitsLog(geo, live.sb, txn)
    ensures EpochsFit(img, CommitEpochs(geo, img, live, txn)) && ValidImage(geo, img) && Ready(geo, img, live, txn)
    ensures var a := StagesOf(img, CommitEpochs(geo, img, live, txn)).commit;
            && Logged(geo, Dirty(live), Body(geo, img, live, txn), txn.sequence, a) && SameOutside(geo, a, img)
            && LogBlock(geo, a, 0) == CommitEpochs(geo, img, live, txn).dirty.data
  {
    hide Body, UpdateSuperblock, PatchRecover, JournaledWrites, TagCapacity, RevokesFit, LogWrites, Apply;
    hide LiveSb, Ready, NumbersFit, LogBlock, CommitBlock, GetBe32, NothingNewer, QuietArea, JournaledCount;
    hide Geometry.Valid, ValidImage;
    var e, s, sb := CommitEpochs(geo, img, live, txn), txn.sequence, Dirty(live).sb;
    var body := Body(geo, img, live, txn);
    StartableReady(geo, img, live, txn);
    CommitFits(geo, img, live, txn);
    DirtyStage(geo, img, live, txn);
    var st := StagesOf(img, e);
    var pos := sb.first + |body|;
    Linear(sb, sb.first, |body|);
    QuietNothingNewer(geo, st.dirty, sb, Dirty(live), s);
    CommitBlockValid(geo.crc, live.seed, s, geo.blockSize, live.hasCsum) by { BigBlocks(geo, img); }
    OneLogBlock(geo, st.dirty, sb, pos, e.commit.data);
    NothingNewerPut(geo, st.dirty, sb, pos, e.commit.data, s);
    LiveFrame(geo, st.dirty, st.commit);
    forall i: nat | i < |body|
      ensures LogBlock(geo, st.commit, sb.first + i) == body[i]
    {
      BodyInPlace(geo, img, live, txn, i);
      DirtyKeeps(geo, img, e, sb, sb.first + i);
    }
    assert LogBlock(geo, st.commit, pos) == e.commit.data;
  }

  lemma BigBlocks(geo: Geometry, img: Image)
    requires ValidImage(geo, img)
    ensures geo.blockSize >= 1024
  {
  }

  lemma DirtyKeeps(geo: Geometry, img: Image, e: Epochs, sb: JournalSuperblock, pos: nat)
    requires EpochsFit(img, e) && ValidImage(geo, img) && ValidImage(geo, StagesOf(img, e).dirty)
    requires SaneLog(geo, sb) && sb.first <= pos < sb.maxlen && e.dirty.target == geo.Map(0)
    ensures geo.Map(pos) < |img|
    ensures LogBlock(geo, StagesOf(img, e).dirty, pos) == StagesOf(img, e).body[geo.Map(pos)]
  {
    hide Apply;
    CursorApart(geo, |img|, sb, pos);
  }

  // ---- what replaying or checkpointing the transaction gives ---------------------------------

  lemma {:induction false} WithoutRevokedFacts(ws: seq<BlockWrite>, revokes: set<nat>)
    ensures forall w :: w in WithoutRevoked(ws, revokes) <==> w in ws && w.target !in revokes
    ensures DistinctTargets(ws) ==> DistinctTargets(WithoutRevoked(ws, revokes))
    decreases |ws|
  {
    if ws != [] {
      var rest := WithoutRevoked(ws[1..], revokes);
      WithoutRevokedFacts(ws[1..], revokes);
      assert forall w :: w in ws <==> w == ws[0] || w in ws[1..];
      if DistinctTargets(ws) && ws[0].target !in revokes {
        HeadDistinct(ws);
        DistinctCons(ws[0], rest);
      }
    }
  }

  lemma HeadDistinct(ws: seq<BlockWrite>)
    requires ws != [] && DistinctTargets(ws)
    ensures DistinctTargets(ws[1..]) && forall w :: w in ws[1..] ==> w.target != ws[0].target
  {
    forall w | w in ws[1..]
      ensures w.target != ws[0].target
    {
      var k :| 0 <= k < |ws[1..]| && ws[1..][k] == w;
      assert ws[k + 1] == w;
    }
  }

  lemma DistinctCons(w: BlockWrite, rest: seq<BlockWrite>)
    requires DistinctTargets(rest) && forall x :: x in rest ==> x.target != w.target
    ensures DistinctTargets([w] + rest)
  {
    forall i, j | 0 <= i < j < |rest| + 1
      ensures ([w] + rest)[i].target != ([w] + rest)[j].target
    {
      assert ([w] + rest)[j] == rest[j - 1] && rest[j - 1] in rest;
      if i > 0 {
        assert ([w] + rest)[i] == rest[i - 1];
      }
    }
  }

  lemma ApplyWithout(c: Image, ws: seq<BlockWrite>, revokes: set<nat>, b: nat)
    requires InRange(c, ws) && DistinctTargets(ws) && b < |c|
    ensures InRange(c, WithoutRevoked(ws, revokes))
    ensures forall i :: 0 <= i < |ws| && ws[i].target == b && b !in revokes ==>
            Apply(c, WithoutRevoked(ws, revokes))[b] == ws[i].data
    ensures b in revokes || !Targets(ws, b) ==> Apply(c, WithoutRevoked(ws, revokes))[b] == c[b]
  {
    hide Apply, WithoutRevoked;
    WithoutRevokedFacts(ws, revokes);
    var r := WithoutRevoked(ws, revokes);
    forall i | 0 <= i < |r|
      ensures r[i].target < |c|
    {
      assert r[i] in ws;
    }
    ApplyBlock(c, r, b);
    forall i | 0 <= i < |ws| && ws[i].target == b && b !in revokes
      ensures Apply(c, r)[b] == ws[i].data
    {
      assert ws[i] in r;
      var k :| 0 <= k < |r| && r[k] == ws[i];
      ApplyDistinct(c, r, k);
    }
    if Targets(r, b) {
      var k :| 0 <= k < |r| && r[k].target == b;
      assert r[k] in r && r[k] in ws;
    }
  }

  /** Every block outside the log holds its old or its staged content. */
  predicate Toward(geo: Geometry, img: Image, txn: Transaction, c: Image) {
    && ValidImage(geo, c) && |c| == |img|
    && forall b: nat :: b < |img| && !geo.InLog(b) ==>
         SameBlock(geo, b, c[b], img[b]) || SameBlock(geo, b, c[b], Staged(img, txn)[b])
  }

  /** Revoking a staged block does no harm when staging did not change it. */
  predicate Harmless(geo: Geometry, img: Image, txn: Transaction, revokes: set<nat>) {
    forall b :: b in revokes && b in txn.blocks && b < |img| ==> SameBlock(geo, b, txn.blocks[b], img[b])
  }

  /** The journaled copy of a block is its staged content; the superblock's differs in RECOVER only. */
  lemma JournaledIsStaged(geo: Geometry, img: Image, txn: Transaction, b: nat)
    requires ValidImage(geo, img) && Stageable(geo, img, txn) && b in Journaled(geo, img, txn)
    ensures b < |img| && SameBlock(geo, b, Journaled(geo, img, txn)[b], Staged(img, txn)[b])
  {
    hide PatchRecover;
    if b == geo.SbBlock() {
      PatchRecoverTwice(geo.crc, SuperBuf(geo, img, txn), geo.SbOff(), true, false);
    }
  }

  lemma FinishedBlock(geo: Geometry, img: Image, txn: Transaction, c: Image, revokes: set<nat>, b: nat)
    requires ValidImage(geo, img) && Stageable(geo, img, txn) && Toward(geo, img, txn, c)
    requires Harmless(geo, img, txn, revokes) && b < |img| && !geo.InLog(b)
    requires InRange(c, JournaledWrites(geo, img, txn))
    requires InRange(c, WithoutRevoked(JournaledWrites(geo, img, txn), revokes))
    ensures SameBlock(geo, b, Apply(c, WithoutRevoked(JournaledWrites(geo, img, txn), revokes))[b], Staged(img, txn)[b])
  {
    hide PatchRecover, InOrder, Apply, WithoutRevoked, Geometry.InLog, SameBlock, ValidImage, Stageable, Harmless;
    var m, all := Journaled(geo, img, txn), JournaledWrites(geo, img, txn);
    InOrderFacts(m);
    ApplyWithout(c, all, revokes, b);
    if b in m && b !in revokes {
      var i := InOrderComplete(m, b);
      JournaledIsStaged(geo, img, txn, b);
    } else {
      if b !in m {
        assert !Targets(all, b);
      }
      LeftIsStaged(geo, img, txn, c, revokes, b);
    }
  }

  lemma JournaledOutsideLog(geo: Geometry, img: Image, txn: Transaction)
    requires ValidImage(geo, img) && Stageable(geo, img, txn)
    ensures var ws := JournaledWrites(geo, img, txn);
            WholeBlocks(geo, |img|, ws) && DistinctTargets(ws) && forall i :: 0 <= i < |ws| ==> !geo.InLog(ws[i].target)
  {
    hide PatchRecover, InOrder, Geometry.InLog;
    InOrderFacts(Journaled(geo, img, txn));
  }

  /** Writing the journaled blocks over an image on its way gives the staged file system, harmless revokes or not. */
  lemma FinishesStaged(geo: Geometry, img: Image, txn: Transaction, c: Image, revokes: set<nat>)
    requires ValidImage(geo, img) && Stageable(geo, img, txn) && Toward(geo, img, txn, c)
    requires Harmless(geo, img, txn, revokes)
    ensures var ws := WithoutRevoked(JournaledWrites(geo, img, txn), revokes);
            InRange(c, ws) && SameFs(geo, Apply(c, ws), Staged(img, txn))
  {
    hide PatchRecover, Apply, WithoutRevoked, Geometry.InLog, SameBlock, JournaledWrites, SameFs, Harmless;
    var all := JournaledWrites(geo, img, txn);
    JournaledOutsideLog(geo, img, txn);
    WithoutWhole(geo, c, all, revokes);
    var r := Apply(c, WithoutRevoked(all, revokes));
    ReplayFrame(geo, c, WithoutRevoked(all, revokes));
    StagedValid(geo, img, txn);
    forall b: nat | b < |img| && !geo.InLog(b)
      ensures SameBlock(geo, b, r[b], Staged(img, txn)[b])
    {
      FinishedBlock(geo, img, txn, c, revokes, b);
    }
    SameFsByBlock(geo, r, Staged(img, txn));
  }

  lemma WithoutWhole(geo: Geometry, c: Image, all: seq<BlockWrite>, revokes: set<nat>)
    requires WholeBlocks(geo, |c|, all) && forall i :: 0 <= i < |all| ==> !geo.InLog(all[i].target)
    ensures var ws := WithoutRevoked(all, revokes);
            InRange(c, all) && WholeBlocks(geo, |c|, ws) && forall i :: 0 <= i < |ws| ==> !geo.InLog(ws[i].target)
  {
    hide WithoutRevoked, Geometry.InLog;
    WithoutRevokedFacts(all, revokes);
    var ws := WithoutRevoked(all, revokes);
    forall i | 0 <= i < |ws|
      ensures ws[i].target < |c| && |ws[i].data| == geo.blockSize && !geo.InLog(ws[i].target)
    {
      assert ws[i] in all;
    }
  }

  lemma StagedValid(geo: Geometry, img: Image, txn: Transaction)
    requires ValidImage(geo, img) && Stageable(geo, img, txn)
    ensures ValidImage(geo, Staged(img, txn))
  {
  }

  lemma LeftIsStaged(geo: Geometry, img: Image, txn: Transaction, c: Image, revokes: set<nat>, b: nat)
    requires ValidImage(geo, img) && Stageable(geo, img, txn) && Toward(geo, img, txn, c)
    requires Harmless(geo, img, txn, revokes)
    requires b < |img| && !geo.InLog(b) && (b in txn.blocks ==> b in revokes)
    ensures SameBlock(geo, b, c[b], Staged(img, txn)[b])
  {
    hide PatchRecover, Geometry.InLog;
  }
}
