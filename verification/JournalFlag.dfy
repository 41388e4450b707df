/** The RECOVER flag through commits and recoveries, and what "up to RECOVER" means. */
module JournalFlag {
  import opened Bytes
  import opened Outcome
  import opened JournalCodec
  import opened CrashDisk
  import opened JournalLog
  import opened Journal
  import opened JournalRecovery
  import opened JournalReplay
  import opened JournalQuiet
  import opened JournalCrash
  import opened JournalAtomic
  import opened JournalCrashSafe
  import opened RecoverFlag

  /** Images with the same file system: the same bytes outside the log, but for RECOVER and its checksum field. */
  lemma SameFsMeaning(geo: Geometry, a: Image, b: Image)
    requires ValidImage(geo, a) && ValidImage(geo, b) && |a| == |b|
    ensures SameFs(geo, a, b) <==>
            && (forall i :: 0 <= i < |a| && !geo.InLog(i) && i != geo.SbBlock() ==> a[i] == b[i])
            && SameButRecover(a[geo.SbBlock()], b[geo.SbBlock()], geo.SbOff())
  {
    hide PatchRecover, SameButRecover;
    ClearedAlike(geo.crc, a[geo.SbBlock()], b[geo.SbBlock()], geo.SbOff());
  }

  /**
   The descriptor of a commit, read back: one tag for each journaled block, in order, with its number,
       whether its copy was
   escaped, and on a journal with checksums of 32 bits that of the copy under this sequence.
   */
  lemma DescriptorOfCommit(geo: Geometry, img: Image, live: Live, txn: Transaction)
    requires ValidImage(geo, img) && Ready(geo, img, live, txn) && NumbersFit(live, txn)
    ensures var body, ws := Body(geo, img, live, txn), JournaledWrites(geo, img, txn);
            && |ws| < |body| && ParseDescriptor(body[0], live.fmt, live.has64).Ok?
            && var tags := ParseDescriptor(body[0], live.fmt, live.has64).value;
               && |tags| == |ws|
               && forall i :: 0 <= i < |ws| ==>
                    && tags[i].blocknr == ws[i].target && (Escaped(tags[i].flags) <==> StartsWithMagic(ws[i].data))
                    && body[1 + i] == EscapeData(ws[i].data)
                    && (live.hasCsum && live.fmt == V3 ==>
                          tags[i].checksum == geo.crc(geo.crc(live.seed, Be32(txn.sequence)), body[1 + i]))
  {
    hide DescriptorBlock, ParseDescriptor, TagCapacity, JournaledWrites, RevokeBlocks, Be32, EscapeData;
    hide StartsWithMagic;
    hide Stored, Placed, TagFor;
    var ws, body := JournaledWrites(geo, img, txn), Body(geo, img, live, txn);
    var tags := TagsFor(geo, live, txn.sequence, ws);
    assert geo.SbBlock() in txn.blocks.Keys + {geo.SbBlock()};
    DescriptorRoundTrip(geo.crc, live.seed, txn.sequence, geo.blockSize, live.fmt, live.has64, live.hasCsum, tags);
    JournaledFit(geo, img, live, txn);
    forall i | 0 <= i < |ws|
      ensures var tag := Stored(Placed(tags[i], i, |ws|), live.fmt, live.has64);
              && tag.blocknr == ws[i].target && (Escaped(tag.flags) <==> StartsWithMagic(ws[i].data))
              && body[1 + i] == EscapeData(ws[i].data)
              && (live.hasCsum && live.fmt == V3 ==>
                    tag.checksum == geo.crc(geo.crc(live.seed, Be32(txn.sequence)), body[1 + i]))
    {
      TagOfBlock(geo, live, txn.sequence, ws[i], i, |ws|);
    }
  }

  lemma TagOfBlock(geo: Geometry, live: Live, sequence: u32, w: BlockWrite, i: nat, n: nat)
    requires w.target < 0x1_0000_0000_0000_0000
    requires live.fmt == V3 || live.has64 || w.target < 0x1_0000_0000
    ensures var tag := Stored(Placed(TagFor(geo, live, sequence, w), i, n), live.fmt, live.has64);
            && tag.blocknr == w.target && (Escaped(tag.flags) <==> StartsWithMagic(w.data))
            && (live.hasCsum && live.fmt == V3 ==>
                  tag.checksum == geo.crc(geo.crc(live.seed, Be32(sequence)), EscapeData(w.data)))
  {
    hide Be32, EscapeData, StartsWithMagic, WithBit1, WithBit3;
  }

  lemma JournaledFit(geo: Geometry, img: Image, live: Live, txn: Transaction)
    requires ValidImage(geo, img) && Stageable(geo, img, txn) && NumbersFit(live, txn)
    ensures live.fmt == V3 || live.has64 || forall i :: 0 <= i < |JournaledWrites(geo, img, txn)| ==>
                                                           JournaledWrites(geo, img, txn)[i].target < 0x1_0000_0000
  {
    hide PatchRecover, InOrder;
    InOrderFacts(Journaled(geo, img, txn));
  }

  /** The contents of the ext4 superblock block: `now` is `was` with RECOVER as `on` says and a fitting checksum. */
  predicate SbMarked(geo: Geometry, was: Block, now: Block, on: bool) {
    Marked(geo.crc, was, now, geo.SbOff(), on)
  }

  /** The stages of a commit that touch the ext4 superblock. */
  lemma MarkedStages(geo: Geometry, img: Image, live: Live, txn: Transaction)
    requires ValidImage(geo, img) && Ready(geo, img, live, txn)
    ensures EpochsFit(img, CommitEpochs(geo, img, live, txn))
    ensures var st := StagesOf(img, CommitEpochs(geo, img, live, txn));
            && SbMarked(geo, img[geo.SbBlock()], st.recoverOn[geo.SbBlock()], true)
            && SbMarked(geo, Staged(img, txn)[geo.SbBlock()], st.recoverOff[geo.SbBlock()], false)
  {
    hide Body, CommitBlock, UpdateSuperblock, PatchRecover, JournaledWrites, TagCapacity, RevokesFit, LogWrites, Apply;
    hide Marked;
    CommitFits(geo, img, live, txn);
    PatchMarked(geo.crc, img[geo.SbBlock()], geo.SbOff(), true);
    PatchMarked(geo.crc, SuperBuf(geo, img, txn), geo.SbOff(), false);
  }

  /** The journaled copy of the superblock carries RECOVER, so no part of the checkpoint takes it away. */
  lemma CheckpointKeepsFlag(geo: Geometry, img: Image, txn: Transaction, a: Image, ws: seq<BlockWrite>, c: Image)
    requires ValidImage(geo, img) && Stageable(geo, img, txn) && |a| == |img| && ws <= JournaledWrites(geo, img, txn)
    requires |a[geo.SbBlock()]| == geo.blockSize && RecoverSet(a[geo.SbBlock()], geo.SbOff())
    requires InRange(a, ws) && exists keep: seq<bool> :: |keep| == |ws| && c == Survivor(a, ws, keep)
    ensures |c| == |a| && |c[geo.SbBlock()]| == geo.blockSize && RecoverSet(c[geo.SbBlock()], geo.SbOff())
  {
    hide PatchRecover, InOrder, Survivor, RecoverSet;
    var b := geo.SbBlock();
    var m := Journaled(geo, img, txn);
    InOrderFacts(m);
    var keep: seq<bool> :| |keep| == |ws| && c == Survivor(a, ws, keep);
    SurvivorBlock(a, ws, keep, b);
    PatchMarked(geo.crc, SuperBuf(geo, img, txn), geo.SbOff(), true);
    if c[b] != a[b] {
      var i :| 0 <= i < |ws| && ws[i] == BlockWrite(b, c[b]);
      assert JournaledWrites(geo, img, txn)[i] == ws[i];
    }
  }

  /**
   RECOVER where a commit stops, whatever of its unflushed writes a loss of power keeps: set after the commit block and
   during the checkpoint, clear after a full commit; the rest of the superblock is the old one, or the staged one.
   */
  lemma CommitFlag(geo: Geometry, img: Image, live: Live, txn: Transaction, crash: CrashPoint, c: Image)
    requires Startable(geo, img, live, txn)
    requires CommitPre(geo, img, txn) && CommitTrace(geo, img, txn, crash).Ok?
    requires CrashAfter(img, CommitTrace(geo, img, txn, crash).value, c)
    ensures |c| == |img| && ValidImage(geo, img) && Stageable(geo, img, txn) && |c[geo.SbBlock()]| == geo.blockSize
    ensures var was, now := img[geo.SbBlock()], c[geo.SbBlock()];
            match crash
            case AfterCommitBlock => SbMarked(geo, was, now, true)
            case NoCrash => SbMarked(geo, Staged(img, txn)[geo.SbBlock()], now, false)
            case MidCheckpoint(n) =>
              if n < |JournaledWrites(geo, img, txn)| then RecoverSet(now, geo.SbOff())
              else SbMarked(geo, Staged(img, txn)[geo.SbBlock()], now, false)
  {
    hide Body, UpdateSuperblock, PatchRecover, JournaledWrites, TagCapacity, RevokesFit, Apply, Startable, AfterEpochs;
    hide LiveSb, Trace, Run, CommitEpochs, CommitTrace, StagesOf, Survivor, Marked, Committable, CrashAfter;
    hide EpochsInRange, CommitPre, RecoverSet;
    StartableTrace(geo, img, live, txn, crash);
    ReadyStages(geo, img, live, txn);
    MarkedStages(geo, img, live, txn);
    CommitFits(geo, img, live, txn);
    var e := CommitEpochs(geo, img, live, txn);
    var st := StagesOf(img, e);
    FirstStages(img, e);
    LastStages(img, e);
    MarkedSets(geo, img[geo.SbBlock()], st.recoverOn[geo.SbBlock()], true);
    if crash.MidCheckpoint? && crash.n < |e.checkpoint| {
      MidwayCrash(img, e, crash.n, c);
      CheckpointKeepsFlag(geo, img, txn, st.recoverOn, e.checkpoint[..crash.n], c);
    } else if crash == AfterCommitBlock {
      RunTrace(img, e.All()[..4]);
      RestingCrash(img, Trace(e.All()[..4]), c);
    } else {
      RunTrace(img, e.All());
      RestingCrash(img, Trace(e.All()), c);
      MarkedSets(geo, Staged(img, txn)[geo.SbBlock()], st.recoverOff[geo.SbBlock()], false);
    }
  }

  lemma ReadyStages(geo: Geometry, img: Image, live: Live, txn: Transaction)
    requires ValidImage(geo, img) && Ready(geo, img, live, txn)
    ensures Stageable(geo, img, txn)
  {
    hide TagCapacity, RevokesFit;
  }

  lemma MarkedSets(geo: Geometry, was: Block, now: Block, on: bool)
    requires SbMarked(geo, was, now, on)
    ensures |now| == |was| >= geo.SbOff() + 1024 && RecoverSet(now, geo.SbOff()) == on
  {
  }

  /** With nothing pending a loss of power changes nothing. */
  lemma RestingCrash(img: Image, ops: seq<Op>, c: Image)
    requires OpsInRange(img, ops) && Run(img, ops).pending == [] && CrashAfter(img, ops, c)
    ensures c == Run(img, ops).durable
  {
    hide Run;
  }

  /** A loss of power at a stop inside the checkpoint. */
  lemma MidwayCrash(img: Image, e: Epochs, n: nat, c: Image)
    requires EpochsFit(img, e) && n < |e.checkpoint|
    requires CrashAfter(img, StoppedTrace(e, MidCheckpoint(n)), c)
    ensures var st := StagesOf(img, e);
            && InRange(st.recoverOn, e.checkpoint[..n])
            && exists keep: seq<bool> :: |keep| == n && c == Survivor(st.recoverOn, e.checkpoint[..n], keep)
  {
    hide Trace, Run, Apply, AfterEpochs, EpochsInRange, StagesOf, Survivor;
    FirstStages(img, e);
    RunTrace(img, e.All()[..4]);
    RunWrites(img, Trace(e.All()[..4]), e.checkpoint, n);
    assert Writes(e.checkpoint)[..n] == Writes(e.checkpoint[..n]);
    assert [] + e.checkpoint[..n] == e.checkpoint[..n];
  }
}
