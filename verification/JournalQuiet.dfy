/** Logs without a live commit: what the log looks like before a transaction commits. */
module JournalQuiet {
  import opened Bytes
  import opened Outcome
  import opened JournalCodec
  import opened CrashDisk
  import opened JournalLog
  import opened Journal
  import opened JournalRecovery
  import opened JournalReplay

  /** A block that cannot make a scan expecting sequence `s` commit or fail. */
  predicate QuietBlock(live: Live, block: Block, s: nat) {
    |block| >= HEADER_LEN && (GetBe32(block, 0) == MAGIC ==>
      || GetBe32(block, 8) < s
      || (&& GetBe32(block, 8) == s && GetBe32(block, 4) != COMMIT_BLOCK
          && (GetBe32(block, 4) == DESCRIPTOR_BLOCK ==> ParseDescriptor(block, live.fmt, live.has64).Ok?)))
  }

  /** No block of the log area commits sequence `s` or later; the head is clean or at `s_first`. */
  predicate Quiet(geo: Geometry, img: Image, s: u32) {
    && ValidImage(geo, img) && LiveSb(geo, img).Ok?
    && var live := LiveSb(geo, img).value;
       && SaneLog(geo, live.sb) && live.sb.sequence == s && (live.sb.start == 0 || live.sb.start == live.sb.first)
       && QuietArea(geo, img, live, s)
  }

  predicate QuietArea(geo: Geometry, img: Image, live: Live, s: u32)
    requires ValidImage(geo, img)
  {
    forall pos :: live.sb.first <= pos < live.sb.maxlen ==> QuietBlock(live, LogBlock(geo, img, pos), s)
  }

  /** The commit block of sequence `s` is in the log. */
  predicate CommitOnDisk(geo: Geometry, img: Image, s: u32)
    requires ValidImage(geo, img)
  {
    LiveSb(geo, img).Ok? &&
    var sb := LiveSb(geo, img).value.sb;
    exists pos :: sb.first <= pos < sb.maxlen && CommitAt(geo, img, pos, s)
  }

  predicate CommitAt(geo: Geometry, img: Image, pos: nat, s: u32)
    requires ValidImage(geo, img)
  {
    var b := LogBlock(geo, img, pos);
    GetBe32(b, 0) == MAGIC && GetBe32(b, 4) == COMMIT_BLOCK && GetBe32(b, 8) == s
  }

  lemma QuietHasNoCommit(geo: Geometry, img: Image, s: u32)
    requires Quiet(geo, img, s)
    ensures !CommitOnDisk(geo, img, s)
  {
    hide LiveSb, GetBe32, ParseDescriptor, LogBlock;
    var live := LiveSb(geo, img).value;
    forall pos | live.sb.first <= pos < live.sb.maxlen
      ensures !CommitAt(geo, img, pos, s)
    {
      assert QuietBlock(live, LogBlock(geo, img, pos), s);
    }
  }

  /** Whatever the walk meets in a quiet log, it commits nothing and does not fail. */
  lemma {:induction false} QuietWalk(geo: Geometry, img: Image, live: Live, s: ScanState, fuel: nat)
    requires ValidImage(geo, img) && SaneLog(geo, live.sb) && QuietArea(geo, img, live, s.nextSeq)
    requires live.sb.first <= s.cursor < live.sb.maxlen
    ensures Walk(geo, img, live, s, fuel) == Ok(s.txns)
    decreases fuel
  {
    hide GetBe32, ParseDescriptor, LogBlock, TagBlocks, CommitCsumOk;
    if fuel > 0 {
      assert QuietBlock(live, LogBlock(geo, img, s.cursor), s.nextSeq);
      var step := Step(geo, img, live, s);
      if step.Go? {
        QuietWalk(geo, img, live, step.next, fuel - 1);
      }
    }
  }

  /** A quiet image needs no recovery, and recovery leaves it as it is. */
  lemma QuietRecovers(geo: Geometry, img: Image, s: u32)
    requires Quiet(geo, img, s)
    ensures RecoverPre(geo, img) && Recovered(geo, img) == Ok(img)
    ensures RecoverTrace(geo, img, LiveCsum(geo, img)) == Ok([])
    ensures ScanLog(geo, img).Ok? && ScanLog(geo, img).value.txns == []
  {
    hide LiveSb, Walk, LogBlock;
    var live := LiveSb(geo, img).value;
    if live.sb.start != 0 {
      QuietWalk(geo, img, live, StartState(live.sb), live.sb.maxlen);
    }
  }

  lemma QuietSame(geo: Geometry, a: Image, b: Image, s: u32)
    requires Quiet(geo, a, s) && ValidImage(geo, b) && SameLog(geo, a, b)
    ensures Quiet(geo, b, s)
  {
    hide LiveSb, LogBlock, QuietBlock;
    ScanSame(geo, a, b);
    var live := LiveSb(geo, a).value;
    forall pos | live.sb.first <= pos < live.sb.maxlen
      ensures QuietBlock(live, LogBlock(geo, b, pos), s)
    {
      assert LogBlock(geo, a, pos) == LogBlock(geo, b, pos);
      assert QuietBlock(live, LogBlock(geo, a, pos), s);
    }
  }

  // ---- what a commit relies on ---------------------------------------------------

  /** Block numbers fit the tag and revoke fields of this journal's format. */
  predicate NumbersFit(live: Live, txn: Transaction) {
    && (live.fmt == V3 || live.has64 || forall b :: b in txn.blocks ==> b < 0x1_0000_0000)
    && (live.has64 || forall b :: b in txn.revokes ==> b < 0x1_0000_0000)
  }

  function BodyLen(geo: Geometry, txn: Transaction): nat {
    1 + JournaledCount(geo, txn) + if txn.revokes == {} then 0 else 1
  }

  /** The whole transaction, commit block included, fits the log area. */
  predicate FitsLog(geo: Geometry, sb: JournalSuperblock, txn: Transaction) {
    BodyLen(geo, txn) + 1 <= sb.maxlen - sb.first
  }

  /** A transaction begun at the live sequence of a quiet journal, which the descriptor and revoke blocks can hold. */
  predicate Startable(geo: Geometry, img: Image, live: Live, txn: Transaction) {
    && Quiet(geo, img, txn.sequence) && LiveSb(geo, img) == Ok(live)
    && Ready(geo, img, live, txn) && !txn.IsEmpty()
    && NumbersFit(live, txn) && RevokesFit(|txn.revokes|, geo.blockSize, live.has64, live.hasCsum)
    && txn.sequence < 0xFFFF_FFFF
  }

  // ---- the blocks of the body ----------------------------------------------------

  lemma BodyDescriptor(geo: Geometry, img: Image, live: Live, txn: Transaction)
    requires ValidImage(geo, img) && Ready(geo, img, live, txn)
    ensures var ws := JournaledWrites(geo, img, txn);
            var b := Body(geo, img, live, txn)[0];
            && Targets64(ws) && |b| >= HEADER_LEN
            && GetBe32(b, 0) == MAGIC && GetBe32(b, 4) == DESCRIPTOR_BLOCK && GetBe32(b, 8) == txn.sequence
            && ParseDescriptor(b, live.fmt, live.has64)
                == Ok(StoredTags(TagsFor(geo, live, txn.sequence, ws), live.fmt, live.has64))
  {
    hide DescriptorBlock, TagsFor, LoggedCopies, RevokeBlocks, TagCapacity, JournaledWrites, StoredTags, GetBe32;
    hide ParseDescriptor, RevokesFit;
    var ws := JournaledWrites(geo, img, txn);
    assert geo.SbBlock() in txn.blocks.Keys + {geo.SbBlock()};
    DescriptorRoundTrip(geo.crc, live.seed, txn.sequence, geo.blockSize, live.fmt, live.has64, live.hasCsum,
                        TagsFor(geo, live, txn.sequence, ws));
  }

  lemma BodyData(geo: Geometry, img: Image, live: Live, txn: Transaction, i: nat)
    requires ValidImage(geo, img) && Ready(geo, img, live, txn)
    requires i < JournaledCount(geo, txn)
    ensures var ws := JournaledWrites(geo, img, txn);
            var b := Body(geo, img, live, txn)[1 + i];
            && b == EscapeData(ws[i].data) && |b| >= HEADER_LEN && GetBe32(b, 0) != MAGIC
  {
    hide DescriptorBlock, TagsFor, RevokeBlocks, TagCapacity, JournaledWrites, GetBe32, EscapeData, RevokesFit;
    hide Journaled, LiveSb;
    hide StartsWithMagic, UnescapeData, Stageable, InOrder, Numbers64, SaneLog;
    EscapeRoundTrip(JournaledWrites(geo, img, txn)[i].data);
  }

  lemma BodyRevokes(geo: Geometry, img: Image, live: Live, txn: Transaction)
    requires ValidImage(geo, img) && Ready(geo, img, live, txn)
    requires RevokesFit(|txn.revokes|, geo.blockSize, live.has64, live.hasCsum) && txn.revokes != {}
    ensures var b := Body(geo, img, live, txn)[BodyLen(geo, txn) - 1];
            && |b| >= HEADER_LEN && GetBe32(b, 0) == MAGIC && GetBe32(b, 4) == REVOKE_BLOCK
                && GetBe32(b, 8) == txn.sequence
            && (live.hasCsum ==> TailCsumOk(geo.crc, live.seed, b))
            && ParseRevokeBlock(b, live.has64)
                == Ok(ParsedRevoke(txn.sequence, StoredRevokes(Revoked64(txn.revokes), live.has64)))
  {
    hide DescriptorBlock, TagsFor, LoggedCopies, TagCapacity, JournaledWrites, GetBe32, RevokeBlock, TailCsumOk;
    hide ParseRevokeBlock, StoredRevokes, Revoked64;
    RevokeRoundTrip(geo.crc, live.seed, txn.sequence, Revoked64(txn.revokes), geo.blockSize, live.has64, live.hasCsum);
  }

  /** No block of a log body can be mistaken for a commit, or for a descriptor that does not parse. */
  lemma BodyQuiet(geo: Geometry, img: Image, live: Live, txn: Transaction, i: nat)
    requires ValidImage(geo, img) && Ready(geo, img, live, txn)
    requires RevokesFit(|txn.revokes|, geo.blockSize, live.has64, live.hasCsum)
    requires i < BodyLen(geo, txn)
    ensures QuietBlock(live, Body(geo, img, live, txn)[i], txn.sequence)
  {
    hide Body, GetBe32, ParseDescriptor, RevokesFit, TagCapacity, JournaledWrites, StoredTags, TagsFor;
    hide ParseRevokeBlock;
    hide Ready, EscapeData, TailCsumOk, Revoked64, StoredRevokes, ValidImage, JournaledCount;
    if i == 0 {
      BodyDescriptor(geo, img, live, txn);
    } else if i <= JournaledCount(geo, txn) {
      BodyData(geo, img, live, txn, i - 1);
    } else {
      BodyRevokes(geo, img, live, txn);
    }
  }

  // ---- positions in the log -----------------------------------------------------

  /** Without a wrap the cursor just counts. */
  lemma {:induction false} Linear(sb: JournalSuperblock, cursor: nat, n: nat)
    requires cursor + n < sb.maxlen
    ensures AdvanceBy(sb.first, sb.maxlen, cursor, n) == cursor + n
    decreases n
  {
    if n > 0 {
      Linear(sb, cursor + 1, n - 1);
    }
  }

  /** Writes into the log area leave the journal superblock and everything outside the log alone. */
  predicate InArea(geo: Geometry, sb: JournalSuperblock, ws: seq<BlockWrite>) {
    forall i :: 0 <= i < |ws| ==> AreaTarget(geo, sb, ws[i].target)
  }

  predicate AreaTarget(geo: Geometry, sb: JournalSuperblock, b: nat) {
    exists pos :: sb.first <= pos < sb.maxlen && b == geo.Map(pos)
  }

  lemma LogWritesInArea(geo: Geometry, sb: JournalSuperblock, blocks: seq<Block>)
    requires SaneLog(geo, sb)
    ensures InArea(geo, sb, LogWrites(geo, sb, blocks))
  {
    var ws := LogWrites(geo, sb, blocks);
    forall i | 0 <= i < |ws|
      ensures AreaTarget(geo, sb, ws[i].target)
    {
      var pos := AdvanceBy(sb.first, sb.maxlen, sb.first, i);
      assert sb.first <= pos < sb.maxlen && ws[i].target == geo.Map(pos);
    }
  }

  lemma AreaFrame(geo: Geometry, img: Image, sb: JournalSuperblock, ws: seq<BlockWrite>, keep: seq<bool>)
    requires ValidImage(geo, img) && SaneLog(geo, sb) && InArea(geo, sb, ws) && WholeBlocks(geo, |img|, ws)
    requires |keep| == |ws|
    ensures InRange(img, ws) && ValidImage(geo, Survivor(img, ws, keep))
    ensures LogBlock(geo, Survivor(img, ws, keep), 0) == LogBlock(geo, img, 0)
    ensures forall b :: 0 <= b < |img| && !geo.InLog(b) ==> Survivor(img, ws, keep)[b] == img[b]
  {
    hide Survivor;
    SurvivorValid(geo, img, ws, keep);
    forall b | 0 <= b < |img| && (b == geo.Map(0) || !geo.InLog(b))
      ensures Survivor(img, ws, keep)[b] == img[b]
    {
      forall i | 0 <= i < |ws|
        ensures ws[i].target != b
      {
        assert AreaTarget(geo, sb, ws[i].target);
        var pos :| sb.first <= pos < sb.maxlen && ws[i].target == geo.Map(pos);
        CursorApart(geo, |img|, sb, pos);
      }
      SurvivorBlock(img, ws, keep, b);
    }
  }

  lemma LiveFrame(geo: Geometry, a: Image, b: Image)
    requires ValidImage(geo, a) && ValidImage(geo, b) && LogBlock(geo, a, 0) == LogBlock(geo, b, 0)
    ensures LiveSb(geo, a) == LiveSb(geo, b)
  {
    hide ParseJournalSuperblock, FormatOf, Feature64, FeatureCsum;
  }

  lemma BodyWritesWhole(geo: Geometry, img: Image, live: Live, txn: Transaction)
    requires ValidImage(geo, img) && Ready(geo, img, live, txn)
    ensures var ws := LogWrites(geo, live.sb, Body(geo, img, live, txn));
            |ws| == BodyLen(geo, txn) && WholeBlocks(geo, |img|, ws) && InArea(geo, live.sb, ws)
  {
    hide Body, TagCapacity, RevokesFit;
    var blocks := Body(geo, img, live, txn);
    BodyWhole(geo, img, live, txn);
    LogWritesInArea(geo, live.sb, blocks);
  }

  /** Any part of a log body that reached the medium leaves the log quiet and the file system untouched. */
  lemma BodySurvivorQuiet(geo: Geometry, img: Image, live: Live, txn: Transaction, keep: seq<bool>)
    requires Startable(geo, img, live, txn)
    requires |keep| == BodyLen(geo, txn)
    ensures var ws := LogWrites(geo, live.sb, Body(geo, img, live, txn));
            && |ws| == |keep| && InRange(img, ws) && WholeBlocks(geo, |img|, ws)
            && var c := Survivor(img, ws, keep);
               && Quiet(geo, c, txn.sequence) && LiveSb(geo, c) == Ok(live)
                   && LogBlock(geo, c, 0) == LogBlock(geo, img, 0)
               && forall b :: 0 <= b < |img| && !geo.InLog(b) ==> c[b] == img[b]
  {
    hide Survivor, Body, LiveSb, QuietBlock, LogBlock, NumbersFit, TagCapacity, RevokesFit;
    var ws := LogWrites(geo, live.sb, Body(geo, img, live, txn));
    BodyWritesWhole(geo, img, live, txn);
    AreaFrame(geo, img, live.sb, ws, keep);
    var c := Survivor(img, ws, keep);
    LiveFrame(geo, img, c);
    forall pos | live.sb.first <= pos < live.sb.maxlen
      ensures QuietBlock(live, LogBlock(geo, c, pos), txn.sequence)
    {
      AreaBlock(geo, img, ws, keep, pos);
      if LogBlock(geo, c, pos) == LogBlock(geo, img, pos) {
        assert QuietBlock(live, LogBlock(geo, img, pos), txn.sequence);
      } else {
        var i :| 0 <= i < |ws| && ws[i].data == LogBlock(geo, c, pos);
        BodyQuiet(geo, img, live, txn, i);
      }
    }
  }

  lemma AreaBlock(geo: Geometry, img: Image, ws: seq<BlockWrite>, keep: seq<bool>, pos: nat)
    requires ValidImage(geo, img) && InRange(img, ws) && |keep| == |ws| && ValidImage(geo, Survivor(img, ws, keep))
    ensures LogBlock(geo, Survivor(img, ws, keep), pos) == LogBlock(geo, img, pos)
         || exists i :: 0 <= i < |ws| && ws[i].data == LogBlock(geo, Survivor(img, ws, keep), pos)
  {
    hide Survivor;
    SurvivorBlock(img, ws, keep, geo.Map(pos));
    var c := Survivor(img, ws, keep);
    if i :| 0 <= i < |ws| && ws[i] == BlockWrite(geo.Map(pos), c[geo.Map(pos)]) {
      assert ws[i].data == LogBlock(geo, c, pos);
    }
  }

  /** The dirty mark moves the head to `s_first` and nothing else. */
  lemma HeadQuiet(geo: Geometry, img: Image, live: Live, s: u32, start: u32)
    requires Quiet(geo, img, s) && LiveSb(geo, img) == Ok(live) && (start == 0 || start == live.sb.first)
    ensures var head := UpdateSuperblock(geo.crc, LogBlock(geo, img, 0), s, start, live.hasCsum);
            var c := img[geo.Map(0) := head];
            && Quiet(geo, c, s) && LiveSb(geo, c) == Ok(live.(sb := live.sb.(start := start)))
            && forall b :: 0 <= b < |img| && !geo.InLog(b) ==> c[b] == img[b]
  {
    hide LiveSb, UpdateSuperblock, QuietBlock;
    HeadUpdated(geo, img, s, start);
    var c := img[geo.Map(0) := UpdateSuperblock(geo.crc, LogBlock(geo, img, 0), s, start, live.hasCsum)];
    assert geo.InLog(geo.Map(0));
    forall pos | live.sb.first <= pos < live.sb.maxlen
      ensures QuietBlock(live.(sb := live.sb.(start := start)), LogBlock(geo, c, pos), s)
    {
      CursorApart(geo, |img|, live.sb, pos);
      assert QuietBlock(live, LogBlock(geo, img, pos), s);
      QuietBlockLive(live, live.(sb := live.sb.(start := start)), LogBlock(geo, img, pos), s);
    }
  }

  lemma QuietBlockLive(a: Live, b: Live, block: Block, s: nat)
    requires a.fmt == b.fmt && a.has64 == b.has64
    ensures QuietBlock(a, block, s) <==> QuietBlock(b, block, s)
  {
    hide GetBe32, ParseDescriptor;
  }
}
