/** A log that holds one whole committed transaction: what scanning and recovering it gives. */
module JournalCommitted {
  import opened Bytes
  import opened Outcome
  import opened JournalCodec
  import opened CrashDisk
  import opened JournalLog
  import opened Journal
  import opened JournalRecovery
  import opened JournalReplay
  import opened JournalQuiet

  predicate SeqAtMost(block: Block, s: nat) {
    |block| >= HEADER_LEN && (GetBe32(block, 0) == MAGIC ==> GetBe32(block, 8) <= s)
  }

  /** No header in the log area is newer than `s`. */
  predicate NothingNewer(geo: Geometry, c: Image, sb: JournalSuperblock, s: nat)
    requires ValidImage(geo, c)
  {
    forall pos: nat :: sb.first <= pos < sb.maxlen ==> SeqAtMost(LogBlock(geo, c, pos), s)
  }

  /** The log holds a body and its commit block from `s_first` on, and nothing newer. */
  predicate Logged(geo: Geometry, live: Live, body: seq<Block>, s: u32, c: Image) {
    && ValidImage(geo, c) && LiveSb(geo, c) == Ok(live)
    && SaneLog(geo, live.sb) && live.sb.start == live.sb.first && live.sb.sequence == s
    && |body| + 1 <= live.sb.maxlen - live.sb.first
    && (forall i: nat :: i < |body| ==> LogBlock(geo, c, live.sb.first + i) == body[i])
    && LogBlock(geo, c, live.sb.first + |body|) == CommitBlock(geo.crc, live.seed, s, geo.blockSize, live.hasCsum)
    && NothingNewer(geo, c, live.sb, s)
  }

  // ---- scanning it -----------------------------------------------------------------

  /** The body is a descriptor for `tags`, one block per tag, and a revoke block when `revokes` says so. */
  predicate BodyShape(live: Live, body: seq<Block>, s: u32, tags: seq<BlockTag>, revokes: bool) {
    && |body| == 1 + |tags| + (if revokes then 1 else 0)
    && (forall i: nat :: i < |body| ==> |body[i]| >= 1024)
    && GetBe32(body[0], 0) == MAGIC && GetBe32(body[0], 4) == DESCRIPTOR_BLOCK && GetBe32(body[0], 8) == s
    && ParseDescriptor(body[0], live.fmt, live.has64) == Ok(tags)
    && (revokes ==> var b := body[|body| - 1];
                    GetBe32(b, 0) == MAGIC && GetBe32(b, 4) == REVOKE_BLOCK && GetBe32(b, 8) == s)
  }

  function Parts(tags: seq<BlockTag>, revokes: bool): seq<Rec> {
    [Desc(tags)] + if revokes then [Revokes] else []
  }

  function LoggedTxn(sb: JournalSuperblock, s: u32, tags: seq<BlockTag>, revokes: bool): ScannedTxn {
    ScannedTxn(s, TagBlocks(sb, tags, sb.first + 1), if revokes then [sb.first + 1 + |tags|] else [])
  }

  lemma ExpectedOne(sb: JournalSuperblock, s: u32, tags: seq<BlockTag>, revokes: bool)
    requires 1 <= sb.first && sb.first + 2 + |tags| + (if revokes then 1 else 0) <= sb.maxlen
    ensures Expected(sb, [LogTxn(Parts(tags, revokes))], sb.first, s) == [LoggedTxn(sb, s, tags, revokes)]
    ensures TxnEnd(sb, Parts(tags, revokes), sb.first) == sb.first + 1 + |tags| + if revokes then 1 else 0
  {
    hide TagBlocks;
    var parts := Parts(tags, revokes);
    Linear(sb, sb.first, 1 + |tags|);
    var tail := parts[1..];
    assert tail == if revokes then [Revokes] else [];
    var mid := sb.first + 1 + |tags|;
    TailOf(sb, tail, mid, revokes);
    var tb := TagBlocks(sb, tags, sb.first + 1);
    assert tb + [] == tb && TxnBlocks(sb, parts, sb.first) == tb;
    assert TxnRevokes(sb, parts, sb.first) == TxnRevokes(sb, tail, mid);
    assert [LogTxn(parts)][1..] == [] && Expected(sb, [], 0, 0) == [];
  }

  lemma TailOf(sb: JournalSuperblock, tail: seq<Rec>, mid: nat, revokes: bool)
    requires tail == (if revokes then [Revokes] else []) && mid + (if revokes then 1 else 0) < sb.maxlen
    ensures TxnBlocks(sb, tail, mid) == [] && TxnRevokes(sb, tail, mid) == if revokes then [mid] else []
    ensures TxnEnd(sb, tail, mid) == mid + if revokes then 1 else 0
  {
    if revokes {
      assert tail[1..] == [];
      Linear(sb, mid, 1);
    }
  }

  lemma LoggedLaid(geo: Geometry, live: Live, body: seq<Block>, s: u32, c: Image, tags: seq<BlockTag>, revokes: bool)
    requires Logged(geo, live, body, s, c) && BodyShape(live, body, s, tags, revokes)
    ensures Laid(geo, c, live, StartState(live.sb), Parts(tags, revokes) + [Commit])
    ensures AfterRecs(live.sb, StartState(live.sb), Parts(tags, revokes) + [Commit]).nextSeq == WrappingAdd1(s)
    ensures var cur := AfterRecs(live.sb, StartState(live.sb), Parts(tags, revokes) + [Commit]).cursor;
            live.sb.first <= cur < live.sb.maxlen
  {
    hide GetBe32, ParseDescriptor, CommitCsumOk, LiveSb, LogBlock, TagBlocks, CommitBlock, SeqAtMost;
    var sb, st := live.sb, StartState(live.sb);
    var recs := Parts(tags, revokes) + [Commit];
    CommitBlockValid(geo.crc, live.seed, s, geo.blockSize, live.hasCsum);
    Linear(sb, sb.first + 1, |tags|);
    assert LogBlock(geo, c, sb.first + 0) == body[0];
    var s1 := AfterRec(sb, st, Desc(tags));
    assert recs[0] == Desc(tags);
    assert HoldsRec(geo, c, live, st.cursor, s, Desc(tags));
    if revokes {
      assert LogBlock(geo, c, sb.first + (|body| - 1)) == body[|body| - 1];
      assert recs[1..] == [Revokes, Commit] && recs[1..][1..] == [Commit];
      var s2 := AfterRec(sb, s1, Revokes);
      CommitAlone(geo, c, live, s2);
      assert Laid(geo, c, live, s1, recs[1..]);
    } else {
      assert recs[1..] == [Commit];
      CommitAlone(geo, c, live, s1);
    }
  }

  lemma CommitAlone(geo: Geometry, c: Image, live: Live, s: ScanState)
    requires ValidImage(geo, c) && HoldsRec(geo, c, live, s.cursor, s.nextSeq, Commit)
    ensures Laid(geo, c, live, s, [Commit]) && AfterRecs(live.sb, s, [Commit]) == AfterRec(live.sb, s, Commit)
  {
    hide GetBe32, LogBlock, CommitCsumOk;
    assert [Commit][1..] == [];
  }

  lemma LoggedScan(geo: Geometry, live: Live, body: seq<Block>, s: u32, c: Image, tags: seq<BlockTag>, revokes: bool)
    requires Logged(geo, live, body, s, c) && BodyShape(live, body, s, tags, revokes) && s < 0xFFFF_FFFF
    ensures ScanLog(geo, c) == Ok(ScanResult([LoggedTxn(live.sb, s, tags, revokes)], s))
  {
    hide GetBe32, ParseDescriptor, CommitCsumOk, LiveSb, LogBlock, TagBlocks, CommitBlock, Laid, AfterRecs, Expected;
    var ts := [LogTxn(Parts(tags, revokes))];
    var recs := Parts(tags, revokes) + [Commit];
    assert RecsOf(ts) + [] == recs by {
      assert ts[1..] == [];
      assert recs + [] == recs;
    }
    LoggedLaid(geo, live, body, s, c, tags, revokes);
    ExpectedOne(live.sb, s, tags, revokes);
    var end := AfterRecs(live.sb, StartState(live.sb), recs);
    assert SeqAtMost(LogBlock(geo, c, end.cursor), s);
    StopsExactly(geo, c, live, end);
    assert EndsLog(geo, c, live.sb, end.cursor, end.nextSeq);
    ScanLaid(geo, c, ts, []);
  }

  // ---- its revoke table -------------------------------------------------------------

  lemma RevokesOfOne(geo: Geometry, c: Image, live: Live, txn: ScannedTxn)
    requires ValidImage(geo, c) && LiveSb(geo, c) == Ok(live)
    ensures RevokesOf(geo, c, [txn]) == AddRevokeBlocks(geo, c, live, map[], txn.revokeLogBlocks)
  {
    hide LiveSb, AddRevokeBlocks;
    assert [txn][1..] == [];
    var t := AddRevokeBlocks(geo, c, live, map[], txn.revokeLogBlocks);
    if t.Ok? {
      assert AddTxnRevokes(geo, c, live, t.value, []) == t;
    }
  }

  lemma LoggedRevokes(geo: Geometry, live: Live, body: seq<Block>, s: u32, c: Image, tags: seq<BlockTag>,
      revoked: seq<u64>)
    requires Logged(geo, live, body, s, c) && |body| == 1 + |tags| + (if revoked == [] then 0 else 1)
    requires revoked != [] ==> var b := body[|body| - 1];
                               && (live.hasCsum ==> TailCsumOk(geo.crc, live.seed, b))
                               && ParseRevokeBlock(b, live.has64) == Ok(ParsedRevoke(s, revoked))
    ensures var t := RevokesOf(geo, c, [LoggedTxn(live.sb, s, tags, revoked != [])]);
            t.Ok? && forall b: u64 :: TableSays(t.value, b, s) <==> b in revoked
  {
    hide LiveSb, LogBlock, TagBlocks, CommitBlock, TailCsumOk, ParseRevokeBlock, AddRevoked, SeqAtMost, TableSays;
    var txn := LoggedTxn(live.sb, s, tags, revoked != []);
    RevokesOfOne(geo, c, live, txn);
    if revoked == [] {
      forall b: u64
        ensures !TableSays(map[], b, s)
      {
        NothingRevoked(b, s);
      }
    } else {
      var i := |body| - 1;
      assert LogBlock(geo, c, live.sb.first + i) == body[i];
      var idx := live.sb.first + 1 + |tags|;
      assert txn.revokeLogBlocks == [idx] && [idx][1..] == [];
      assert AddRevokeBlocks(geo, c, live, map[], [idx]) == Ok(AddRevoked(map[], revoked, s));
      forall b: u64
        ensures TableSays(AddRevoked(map[], revoked, s), b, s) <==> b in revoked
      {
        AddRevokedMeaning(map[], revoked, s, b, s);
        NothingRevoked(b, s);
      }
    }
  }

  lemma NothingRevoked(b: u64, s: u32)
    ensures !TableSays(map[], b, s)
  {
  }

  // ---- its replay --------------------------------------------------------------------

  /** The writes whose block is not revoked. */
  function WithoutRevoked(ws: seq<BlockWrite>, revokes: set<nat>): (r: seq<BlockWrite>)
    decreases |ws|
  {
    if ws == [] then []
    else (if ws[0].target in revokes then [] else [ws[0]]) + WithoutRevoked(ws[1..], revokes)
  }

  /** Logged block and write speak of the same block, and the log copy gives back the written data. */
  predicate Matches(geo: Geometry, c: Image, lb: LoggedBlock, w: BlockWrite)
    requires ValidImage(geo, c)
  {
    lb.finalBlock == w.target && LoggedData(geo, c, lb) == w.data
  }

  lemma {:induction false} ReplayMatches(geo: Geometry, c: Image, table: RevokeTable, s: u32, lbs: seq<LoggedBlock>,
                                         ws: seq<BlockWrite>, revokes: set<nat>)
    requires ValidImage(geo, c) && |lbs| == |ws|
    requires forall i: nat :: i < |ws| ==> Matches(geo, c, lbs[i], ws[i])
    requires forall b: u64 :: TableSays(table, b, s) <==> b in revokes
    ensures ReplayWrites(geo, c, Unrevoked(table, s, lbs)) == WithoutRevoked(ws, revokes)
    decreases |ws|
  {
    hide LoggedData, TableSays;
    if ws == [] {
    } else {
      assert forall i: nat :: i < |ws[1..]| ==> ws[1..][i] == ws[i + 1] && lbs[1..][i] == lbs[i + 1];
      ReplayMatches(geo, c, table, s, lbs[1..], ws[1..], revokes);
      var head := if TableSays(table, lbs[0].finalBlock, s) then [] else [lbs[0]];
      var rest := Unrevoked(table, s, lbs[1..]);
      assert Matches(geo, c, lbs[0], ws[0]);
      assert ReplayWrites(geo, c, head + rest) == ReplayWrites(geo, c, head) + ReplayWrites(geo, c, rest);
    }
  }

  lemma {:induction false} TagBlockAt(sb: JournalSuperblock, tags: seq<BlockTag>, cursor: nat, i: nat)
    requires i < |tags| && cursor + |tags| <= sb.maxlen
    ensures TagBlocks(sb, tags, cursor)[i] == LoggedBlock(tags[i].blocknr, cursor + i, tags[i].flags)
    decreases |tags|
  {
    if i > 0 {
      TagBlockAt(sb, tags[1..], cursor + 1, i - 1);
    }
  }

  // ---- the transaction waits in the log ------------------------------------------------

  /** A committed transaction waits in the log: recovery writes `ws` and moves on to `s + 1`. */
  predicate Pending(geo: Geometry, c: Image, s: u32, ws: seq<BlockWrite>) {
    && RecoverPre(geo, c) && s < 0xFFFF_FFFF
    && LiveSb(geo, c).Ok? && NothingNewer(geo, c, LiveSb(geo, c).value.sb, s)
    && ScanLog(geo, c).Ok? && ScanLog(geo, c).value.txns != [] && ScanLog(geo, c).value.lastSequence == s
    && Plan(geo, c, LiveCsum(geo, c)).Ok? && Plan(geo, c, LiveCsum(geo, c)).value.replay == ws
  }

  /** The live superblock once the head is at `s_first`. */
  function Dirty(live: Live): Live {
    live.(sb := live.sb.(start := live.sb.first))
  }

  function BodyTags(geo: Geometry, img: Image, live: Live, txn: Transaction): (tags: seq<BlockTag>)
    requires ValidImage(geo, img) && Ready(geo, img, live, txn)
    ensures |tags| == JournaledCount(geo, txn)
  {
    hide TagsFor, JournaledWrites, StoredTags, TagCapacity, RevokesFit;
    StoredTags(TagsFor(geo, live, txn.sequence, JournaledWrites(geo, img, txn)), live.fmt, live.has64)
  }

  lemma BodyHasShape(geo: Geometry, img: Image, live: Live, txn: Transaction)
    requires ValidImage(geo, img) && Ready(geo, img, live, txn)
    requires RevokesFit(|txn.revokes|, geo.blockSize, live.has64, live.hasCsum)
    ensures BodyShape(Dirty(live), Body(geo, img, live, txn), txn.sequence, BodyTags(geo, img, live, txn),
            txn.revokes != {})
  {
    hide Body, TagsFor, JournaledWrites, StoredTags, TagCapacity, RevokesFit, GetBe32, ParseDescriptor;
    hide ParseRevokeBlock, TailCsumOk;
    hide Committable, StoredRevokes, Revoked64, LiveSb;
    BodyWhole(geo, img, live, txn);
    BodyDescriptor(geo, img, live, txn);
    if txn.revokes != {} {
      BodyRevokes(geo, img, live, txn);
    }
  }

  /** What the journal stores of the revoked numbers is exactly the revoked set when they fit. */
  lemma RevokesStored(live: Live, txn: Transaction, b: u64)
    requires Numbers64(txn.revokes) && NumbersFit(live, txn)
    ensures |StoredRevokes(Revoked64(txn.revokes), live.has64)| == |txn.revokes|
    ensures b in StoredRevokes(Revoked64(txn.revokes), live.has64) <==> b in txn.revokes
  {
    hide Ordered;
    var r := Revoked64(txn.revokes);
    OrderedFacts(txn.revokes);
    var st := StoredRevokes(r, live.has64);
    assert forall i :: 0 <= i < |r| ==> r[i] in txn.revokes;
    assert forall i :: 0 <= i < |r| ==> st[i] == r[i];
    assert st == r;
  }

  lemma JournaledTarget(geo: Geometry, img: Image, live: Live, txn: Transaction, i: nat)
    requires ValidImage(geo, img) && Stageable(geo, img, txn) && NumbersFit(live, txn)
    requires i < JournaledCount(geo, txn)
    ensures var w := JournaledWrites(geo, img, txn)[i];
            && w.target < |img| && !geo.InLog(w.target)
            && (live.fmt == V3 || live.has64 || w.target < 0x1_0000_0000)
  {
    hide PatchRecover, InOrder, Geometry.InLog;
    InOrderFacts(Journaled(geo, img, txn));
    var w := JournaledWrites(geo, img, txn)[i];
    assert w.target in txn.blocks || w.target == geo.SbBlock();
  }

  lemma TagStored(geo: Geometry, live: Live, s: u32, w: BlockWrite, i: nat, n: nat)
    requires w.target < 0x1_0000_0000_0000_0000
    requires live.fmt == V3 || live.has64 || w.target < 0x1_0000_0000
    ensures var t := Stored(Placed(TagFor(geo, live, s, w), i, n), live.fmt, live.has64);
            t.blocknr == w.target && (Escaped(t.flags) <==> StartsWithMagic(w.data))
  {
    hide StartsWithMagic, DataCsum, EscapeData, PlacedFlags;
    assert Escaped(1) && !Escaped(0);
  }

  /** A tag read back names the block that was staged and remembers whether its copy is escaped. */
  lemma TagRead(geo: Geometry, img: Image, live: Live, txn: Transaction, i: nat)
    requires ValidImage(geo, img) && Ready(geo, img, live, txn) && NumbersFit(live, txn)
    requires i < JournaledCount(geo, txn)
    ensures var t, w := BodyTags(geo, img, live, txn)[i], JournaledWrites(geo, img, txn)[i];
            t.blocknr == w.target && (Escaped(t.flags) <==> StartsWithMagic(w.data))
    ensures var w := JournaledWrites(geo, img, txn)[i];
            w.target < |img| && !geo.InLog(w.target)
  {
    hide JournaledWrites, StartsWithMagic, TagCapacity, RevokesFit, Geometry.InLog, NumbersFit, Stored, Placed, TagFor;
    hide Geometry.Valid;
    JournaledTarget(geo, img, live, txn, i);
    TagStored(geo, live, txn.sequence, JournaledWrites(geo, img, txn)[i], i, JournaledCount(geo, txn));
  }

  lemma LoggedMatches(geo: Geometry, img: Image, live: Live, txn: Transaction, c: Image, i: nat)
    requires ValidImage(geo, img) && Ready(geo, img, live, txn) && NumbersFit(live, txn)
    requires Logged(geo, Dirty(live), Body(geo, img, live, txn), txn.sequence, c)
    requires i < JournaledCount(geo, txn)
    ensures var lbs := TagBlocks(Dirty(live).sb, BodyTags(geo, img, live, txn), live.sb.first + 1);
            && Matches(geo, c, lbs[i], JournaledWrites(geo, img, txn)[i])
            && lbs[i].finalBlock < |img| && !geo.InLog(lbs[i].finalBlock)
  {
    hide Body, TagsFor, JournaledWrites, BodyTags, TagCapacity, RevokesFit, GetBe32, Committable, LiveSb, TagBlocks;
    hide EscapeData, UnescapeData, LogBlock, CommitBlock, SeqAtMost, StartsWithMagic, Escaped, NumbersFit;
    hide Geometry.InLog;
    BodyData(geo, img, live, txn, i);
    TagRead(geo, img, live, txn, i);
    TagBlockAt(Dirty(live).sb, BodyTags(geo, img, live, txn), live.sb.first + 1, i);
    EscapeRoundTrip(JournaledWrites(geo, img, txn)[i].data);
    assert LogBlock(geo, c, live.sb.first + (1 + i)) == Body(geo, img, live, txn)[1 + i];
  }

  /** Once body and commit block are in the log, recovery replays exactly the staged blocks that are not revoked. */
  lemma LoggedPending(geo: Geometry, img: Image, live: Live, txn: Transaction, c: Image)
    requires ValidImage(geo, img) && Ready(geo, img, live, txn) && NumbersFit(live, txn)
    requires RevokesFit(|txn.revokes|, geo.blockSize, live.has64, live.hasCsum)
    requires Logged(geo, Dirty(live), Body(geo, img, live, txn), txn.sequence, c)
    requires |c| == |img| && txn.sequence < 0xFFFF_FFFF
    ensures Pending(geo, c, txn.sequence, WithoutRevoked(JournaledWrites(geo, img, txn), txn.revokes))
  {
    hide Body, JournaledWrites, BodyTags, TagCapacity, RevokesFit, GetBe32, Committable, LiveSb, TagBlocks;
    hide WithoutRevoked, Unrevoked;
    hide LogBlock, CommitBlock, SeqAtMost, NumbersFit, Geometry.InLog, ScanLog, RevokesOf, TableSays, ReplayWrites;
    hide Apply;
    hide UpdateSuperblock, PatchRecover, ParseJournalSuperblock, BodyShape, LoggedData, Geometry.Valid;
    var tags, s := BodyTags(geo, img, live, txn), txn.sequence;
    var t := LoggedTxn(Dirty(live).sb, s, tags, txn.revokes != {});
    BodyHasShape(geo, img, live, txn);
    LoggedScan(geo, Dirty(live), Body(geo, img, live, txn), s, c, tags, txn.revokes != {});
    forall i: nat | i < |t.blocks|
      ensures Matches(geo, c, t.blocks[i], JournaledWrites(geo, img, txn)[i])
      ensures t.blocks[i].finalBlock < |c| && !geo.InLog(t.blocks[i].finalBlock)
    {
      LoggedMatches(geo, img, live, txn, c, i);
    }
    LoggedTable(geo, img, live, txn, c);
    var table := RevokesOf(geo, c, [t]).value;
    ReplayMatches(geo, c, table, s, t.blocks, JournaledWrites(geo, img, txn), txn.revokes);
    assert [t][1..] == [] && Unrevoked(table, s, t.blocks) + [] == Unrevoked(table, s, t.blocks);
    assert ToReplay(table, [t]) == Unrevoked(table, s, t.blocks);
  }

  lemma LoggedTable(geo: Geometry, img: Image, live: Live, txn: Transaction, c: Image)
    requires ValidImage(geo, img) && Ready(geo, img, live, txn) && NumbersFit(live, txn)
    requires RevokesFit(|txn.revokes|, geo.blockSize, live.has64, live.hasCsum)
    requires Logged(geo, Dirty(live), Body(geo, img, live, txn), txn.sequence, c)
    ensures var t := RevokesOf(geo, c,
            [LoggedTxn(Dirty(live).sb, txn.sequence, BodyTags(geo, img, live, txn), txn.revokes != {})]);
            t.Ok? && forall b: u64 :: TableSays(t.value, b, txn.sequence) <==> b in txn.revokes
  {
    hide Body, JournaledWrites, BodyTags, TagCapacity, RevokesFit, GetBe32, LiveSb, TagBlocks, StoredRevokes, Revoked64;
    hide LogBlock, CommitBlock, NumbersFit, Geometry.InLog, RevokesOf, TableSays, ParseRevokeBlock, TailCsumOk;
    hide NothingNewer, TagCapacity;
    var revoked := StoredRevokes(Revoked64(txn.revokes), live.has64);
    RevokesStored(live, txn, 0);
    forall b: u64
      ensures b in revoked <==> b in txn.revokes
    {
      RevokesStored(live, txn, b);
    }
    assert revoked == [] <==> txn.revokes == {};
    if txn.revokes != {} {
      BodyRevokes(geo, img, live, txn);
    }
    LoggedRevokes(geo, Dirty(live), Body(geo, img, live, txn), txn.sequence, c, BodyTags(geo, img, live, txn), revoked);
  }
}
