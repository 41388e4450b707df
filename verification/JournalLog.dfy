/** Reading the journal log: the live superblock, the SCAN pass and the revoke table. */
module JournalLog {
  import opened Bytes
  import opened Outcome
  import opened JournalCodec
  import opened JournalBlocks
  import opened CrashDisk

  /** Where things live: block size, the checksum function, and the device block of each journal-file block. */
  datatype Geometry = Geometry(blockSize: nat, crc: Crc, logMap: seq<nat>) {
    /** The block that holds byte 1024 of the device, the ext4 superblock, and its offset in that block. */
    function SbBlock(): nat {
      if blockSize <= 1024 then 1 else 0
    }

    function SbOff(): nat {
      if blockSize <= 1024 then 0 else 1024
    }

    predicate InLog(b: nat) {
      exists i :: 0 <= i < |logMap| && logMap[i] == b
    }

    /** The journal file maps one-to-one to device blocks and does not contain the ext4 superblock. */
    predicate Valid(n: nat) {
      && (blockSize == 1024 || 2048 <= blockSize < 0x1_0000_0000)
      && 0 < |logMap|
      && (forall i :: 0 <= i < |logMap| ==> logMap[i] < n)
      && (forall i, j :: 0 <= i < j < |logMap| ==> logMap[i] != logMap[j])
      && SbBlock() < n && !InLog(SbBlock())
    }

    /** Device block of journal-file block `idx`; a hole of the journal file maps to block 0. */
    function Map(idx: nat): nat {
      if idx < |logMap| then logMap[idx] else 0
    }
  }

  predicate ValidImage(geo: Geometry, img: Image) {
    && geo.Valid(|img|)
    && forall b :: 0 <= b < |img| ==> |img[b]| == geo.blockSize
  }

  function LogBlock(geo: Geometry, img: Image, idx: nat): (r: Block)
    requires ValidImage(geo, img)
    ensures |r| == geo.blockSize >= 1024
  {
    img[geo.Map(idx)]
  }

  /** The ext4 superblock is at byte 1024 of the device. */
  lemma SbPlace(geo: Geometry, n: nat)
    requires geo.Valid(n)
    ensures geo.SbBlock() * geo.blockSize + geo.SbOff() == 1024 && geo.SbOff() + 1024 <= geo.blockSize
  {
  }

  // ---- live superblock -----------------------------------------------------

  datatype Live = Live(sb: JournalSuperblock, fmt: TagFormat, has64: bool, hasCsum: bool, seed: u32)

  function LiveSb(geo: Geometry, img: Image): (r: Result<Live>)
    requires ValidImage(geo, img)
  {
    var sb :- ParseJournalSuperblock(LogBlock(geo, img, 0));
    Ok(Live(sb, FormatOf(sb.featureIncompat), Feature64(sb.featureIncompat), FeatureCsum(sb.featureIncompat),
            geo.crc(CRC_INIT, sb.uuid)))
  }

  // ---- scan ----------------------------------------------------------------

  datatype LoggedBlock = LoggedBlock(finalBlock: u64, dataLogBlock: nat, flags: u16)
  datatype ScannedTxn = ScannedTxn(sequence: u32, blocks: seq<LoggedBlock>, revokeLogBlocks: seq<nat>)

  function WrappingAdd1(v: u32): u32 {
    (v + 1) % 0x1_0000_0000
  }

  function WrappingSub1(v: u32): u32 {
    if v == 0 then 0xFFFF_FFFF else v - 1
  }

  function Advance(first: nat, maxlen: nat, cursor: nat): (r: nat)
    ensures first < maxlen && cursor + 1 >= first ==> first <= r < maxlen
  {
    if cursor + 1 >= maxlen then first else cursor + 1
  }

  function AdvanceBy(first: nat, maxlen: nat, cursor: nat, n: nat): (r: nat)
    ensures first < maxlen && first <= cursor < maxlen ==> first <= r < maxlen
    decreases n
  {
    if n == 0 then cursor else AdvanceBy(first, maxlen, Advance(first, maxlen, cursor), n - 1)
  }

  /** The log area is a ring. */
  lemma {:induction false} AdvanceByRing(first: nat, maxlen: nat, cursor: nat, n: nat)
    requires first <= cursor < maxlen
    ensures AdvanceBy(first, maxlen, cursor, n) == first + (cursor - first + n) % (maxlen - first)
    decreases n
  {
    var len, i := maxlen - first, cursor - first;
    if n == 0 {
      RingStep(i, 0, len);
    } else {
      AdvanceByRing(first, maxlen, Advance(first, maxlen, cursor), n - 1);
      RingStep(i, n, len);
    }
  }

  lemma RingStep(i: nat, n: nat, len: nat)
    requires i < len
    ensures i % len == i
    ensures n > 0 ==> (i + n) % len == ((if i + 1 < len then i + 1 else 0) + (n - 1)) % len
  {
    BlockOf(i, 0, len);
    if n > 0 && i + 1 == len {
      var q := (n - 1) / len;
      BlockOf(n - 1, q, len);
      assert (q + 1) * len == q * len + len;
      BlockOf(i + n, q + 1, len);
    }
  }

  /** The data blocks that follow a descriptor, one per tag, from `cursor` on. */
  function TagBlocks(sb: JournalSuperblock, tags: seq<BlockTag>, cursor: nat): (r: seq<LoggedBlock>)
    ensures |r| == |tags|
  {
    if tags == [] then []
    else [LoggedBlock(tags[0].blocknr, cursor, tags[0].flags)]
         + TagBlocks(sb, tags[1..], Advance(sb.first, sb.maxlen, cursor))
  }

  /** The walk's variables: position, expected sequence, and the not yet committed transaction. */
  datatype ScanState = ScanState(cursor: nat, nextSeq: u32, blocks: seq<LoggedBlock>, revokes: seq<nat>,
                                 txns: seq<ScannedTxn>)

  datatype ScanStep = Stop | Fail(errno: Errno) | Go(next: ScanState)

  function Step(geo: Geometry, img: Image, live: Live, s: ScanState): ScanStep
    requires ValidImage(geo, img)
  {
    var block := LogBlock(geo, img, s.cursor);
    var first, maxlen := live.sb.first, live.sb.maxlen;
    if GetBe32(block, 0) != MAGIC then Stop
    else if GetBe32(block, 8) != s.nextSeq then Stop
    else if GetBe32(block, 4) == DESCRIPTOR_BLOCK then
      match ParseDescriptor(block, live.fmt, live.has64)
      case Err(e) => Fail(e)
      case Ok(tags) =>
        var data := Advance(first, maxlen, s.cursor);
        Go(s.(cursor := AdvanceBy(first, maxlen, data, |tags|), blocks := s.blocks + TagBlocks(live.sb, tags, data)))
    else if GetBe32(block, 4) == REVOKE_BLOCK then
      Go(s.(cursor := Advance(first, maxlen, s.cursor), revokes := s.revokes + [s.cursor]))
    else if GetBe32(block, 4) == COMMIT_BLOCK then
      if live.hasCsum && !CommitCsumOk(geo.crc, live.seed, block) then Stop
      else Go(ScanState(Advance(first, maxlen, s.cursor), WrappingAdd1(s.nextSeq), [], [],
                        s.txns + [ScannedTxn(s.nextSeq, s.blocks, s.revokes)]))
    else Stop
  }

  /** At most `fuel` more steps of the walk; the transactions committed on the way. */
  function Walk(geo: Geometry, img: Image, live: Live, s: ScanState, fuel: nat): Result<seq<ScannedTxn>>
    requires ValidImage(geo, img)
    decreases fuel
  {
    if fuel == 0 then Ok(s.txns)
    else match Step(geo, img, live, s)
      case Stop => Ok(s.txns)
      case Fail(e) => Err(e)
      case Go(next) => Walk(geo, img, live, next, fuel - 1)
  }

  function StartState(sb: JournalSuperblock): ScanState {
    ScanState(sb.start, sb.sequence, [], [], [])
  }

  datatype ScanResult = ScanResult(txns: seq<ScannedTxn>, lastSequence: u32)

  function ScanOf(sb: JournalSuperblock, txns: seq<ScannedTxn>): ScanResult {
    ScanResult(txns, if txns == [] then WrappingSub1(sb.sequence) else txns[|txns| - 1].sequence)
  }

  function ScanLog(geo: Geometry, img: Image): Result<ScanResult>
    requires ValidImage(geo, img)
  {
    var live :- LiveSb(geo, img);
    if live.sb.start == 0 then Ok(ScanOf(live.sb, []))
    else
      var txns :- Walk(geo, img, live, StartState(live.sb), live.sb.maxlen);
      Ok(ScanOf(live.sb, txns))
  }

  /** Assign the log blocks that follow a descriptor to its tags, in order. */
  method CollectTags(sb: JournalSuperblock, tags: seq<BlockTag>, start: nat, before: seq<LoggedBlock>)
      returns (cursor: nat, blocks: seq<LoggedBlock>)
    ensures cursor == AdvanceBy(sb.first, sb.maxlen, start, |tags|)
    ensures blocks == before + TagBlocks(sb, tags, start)
  {
    cursor, blocks := start, before;
    for t := 0 to |tags|
      invariant AdvanceBy(sb.first, sb.maxlen, start, |tags|) == AdvanceBy(sb.first, sb.maxlen, cursor, |tags| - t)
      invariant before + TagBlocks(sb, tags, start) == blocks + TagBlocks(sb, tags[t..], cursor)
    {
      var b := LoggedBlock(tags[t].blocknr, cursor, tags[t].flags);
      cursor := Advance(sb.first, sb.maxlen, cursor);
      assert blocks + ([b] + TagBlocks(sb, tags[t + 1..], cursor))
          == blocks + [b] + TagBlocks(sb, tags[t + 1..], cursor);
      blocks := blocks + [b];
    }
    assert blocks + [] == blocks;
  }

  /** The SCAN pass as the loop that moves `cursor`, `next_seq` and the accumulators. */
  method Scan(geo: Geometry, dev: Device) returns (r: Result<ScanResult>)
    requires ValidImage(geo, dev.cells)
    ensures r == ScanLog(geo, dev.cells)
  {
    hide GetBe32, CommitCsumOk, FeatureCsum, Feature64, FormatOf;
    var live :- LiveSb(geo, dev.cells);
    var first, maxlen := live.sb.first, live.sb.maxlen;
    var s := StartState(live.sb);
    if live.sb.start == 0 {
      return Ok(ScanOf(live.sb, []));
    }
    for i := 0 to maxlen
      invariant Walk(geo, dev.cells, live, StartState(live.sb), maxlen) == Walk(geo, dev.cells, live, s, maxlen - i)
    {
      var block := LogBlock(geo, dev.cells, s.cursor);
      if GetBe32(block, 0) != MAGIC || GetBe32(block, 8) != s.nextSeq {
        return Ok(ScanOf(live.sb, s.txns));
      }
      if GetBe32(block, 4) == DESCRIPTOR_BLOCK {
        var tags :- ParseDescriptorBlock(block, live.fmt, live.has64);
        var cursor, blocks := CollectTags(live.sb, tags, Advance(first, maxlen, s.cursor), s.blocks);
        s := s.(cursor := cursor, blocks := blocks);
      } else if GetBe32(block, 4) == REVOKE_BLOCK {
        s := s.(cursor := Advance(first, maxlen, s.cursor), revokes := s.revokes + [s.cursor]);
      } else if GetBe32(block, 4) == COMMIT_BLOCK {
        if live.hasCsum && !CommitCsumOk(geo.crc, live.seed, block) {
          return Ok(ScanOf(live.sb, s.txns));
        }
        s := ScanState(Advance(first, maxlen, s.cursor), WrappingAdd1(s.nextSeq), [], [],
                       s.txns + [ScannedTxn(s.nextSeq, s.blocks, s.revokes)]);
      } else {
        return Ok(ScanOf(live.sb, s.txns));
      }
    }
    return Ok(ScanOf(live.sb, s.txns));
  }

  // ---- any log: what an Ok scan looks like -----------------------------------

  predicate GoodTxns(sb: JournalSuperblock, txns: seq<ScannedTxn>) {
    && (forall i :: 0 <= i < |txns| ==> txns[i].sequence == (sb.sequence + i) % 0x1_0000_0000)
    && (forall i :: 0 <= i < |txns| ==> InLogArea(sb, txns[i].blocks))
  }

  predicate InLogArea(sb: JournalSuperblock, blocks: seq<LoggedBlock>) {
    forall i :: 0 <= i < |blocks| ==> LogIndex(sb, blocks[i].dataLogBlock)
  }

  /** Where a walk can get: to the first block of the log area, or below its end and above that block or the head. */
  predicate LogIndex(sb: JournalSuperblock, i: nat) {
    i == sb.first || ((sb.first < i || sb.start < i) && i < sb.maxlen)
  }

  /** Every data block lies in the log area. */
  predicate AllInside(sb: JournalSuperblock, txns: seq<ScannedTxn>) {
    forall i, j :: 0 <= i < |txns| && 0 <= j < |txns[i].blocks| ==>
      sb.first <= txns[i].blocks[j].dataLogBlock < sb.maxlen
  }

  /** The walk is no further down than the head or the first block of the log area. */
  predicate Walked(sb: JournalSuperblock, cursor: nat) {
    sb.first <= cursor || sb.start <= cursor
  }

  lemma {:induction false} TagBlocksInArea(sb: JournalSuperblock, tags: seq<BlockTag>, cursor: nat)
    requires LogIndex(sb, cursor)
    ensures InLogArea(sb, TagBlocks(sb, tags, cursor))
  {
    if tags != [] {
      TagBlocksInArea(sb, tags[1..], Advance(sb.first, sb.maxlen, cursor));
    }
  }

  lemma {:induction false} AdvanceByWalked(sb: JournalSuperblock, cursor: nat, n: nat)
    requires Walked(sb, cursor)
    ensures Walked(sb, AdvanceBy(sb.first, sb.maxlen, cursor, n))
    decreases n
  {
    if n > 0 {
      AdvanceByWalked(sb, Advance(sb.first, sb.maxlen, cursor), n - 1);
    }
  }

  /**
   Any log at all: consecutive sequence numbers,
       and data indices only where a walk from the head can get; inside the log
   area unless the head lies in front of it.
   */
  lemma ScanSound(geo: Geometry, img: Image)
    requires ValidImage(geo, img)
    requires ScanLog(geo, img).Ok?
    ensures var sb, txns := LiveSb(geo, img).value.sb, ScanLog(geo, img).value.txns;
            GoodTxns(sb, txns) && (sb.first < sb.maxlen && sb.first <= sb.start + 1 ==> AllInside(sb, txns))
  {
    var live := LiveSb(geo, img).value;
    if live.sb.start != 0 {
      WalkSound(geo, img, live, StartState(live.sb), live.sb.maxlen);
    }
    forall i | 0 <= i < |ScanLog(geo, img).value.txns|
      ensures InLogArea(live.sb, ScanLog(geo, img).value.txns[i].blocks)
    {
    }
  }

  lemma {:induction false} WalkSound(geo: Geometry, img: Image, live: Live, s: ScanState, fuel: nat)
    requires ValidImage(geo, img) && Walked(live.sb, s.cursor)
    requires GoodTxns(live.sb, s.txns) && InLogArea(live.sb, s.blocks)
    requires s.nextSeq == (live.sb.sequence + |s.txns|) % 0x1_0000_0000
    requires Walk(geo, img, live, s, fuel).Ok?
    ensures GoodTxns(live.sb, Walk(geo, img, live, s, fuel).value)
    decreases fuel
  {
    hide GetBe32, CommitCsumOk, ParseDescriptor;
    if fuel > 0 {
      var step := Step(geo, img, live, s);
      if step.Go? {
        var block := LogBlock(geo, img, s.cursor);
        if GetBe32(block, 4) == DESCRIPTOR_BLOCK {
          var tags := ParseDescriptor(block, live.fmt, live.has64).value;
          var data := Advance(live.sb.first, live.sb.maxlen, s.cursor);
          TagBlocksInArea(live.sb, tags, data);
          AdvanceByWalked(live.sb, data, |tags|);
        }
        WalkSound(geo, img, live, step.next, fuel - 1);
      }
    }
  }

  // ---- a laid-out log ------------------------------------------------------------

  datatype Rec = Desc(tags: seq<BlockTag>) | Revokes | Commit

  function RecLen(rec: Rec): nat {
    if rec.Desc? then 1 + |rec.tags| else 1
  }

  /** The block at `cursor` is a record of kind `rec` with sequence `seqno`. */
  predicate HoldsRec(geo: Geometry, img: Image, live: Live, cursor: nat, seqno: u32, rec: Rec)
    requires ValidImage(geo, img)
  {
    var block := LogBlock(geo, img, cursor);
    && GetBe32(block, 0) == MAGIC && GetBe32(block, 8) == seqno
    && match rec
       case Desc(tags) => GetBe32(block, 4) == DESCRIPTOR_BLOCK
           && ParseDescriptor(block, live.fmt, live.has64) == Ok(tags)
       case Revokes => GetBe32(block, 4) == REVOKE_BLOCK
       case Commit => GetBe32(block, 4) == COMMIT_BLOCK && (live.hasCsum ==> CommitCsumOk(geo.crc, live.seed, block))
  }

  /** The walk's variables after `recs` laid out from the current position, wrapping at the end of the log. */
  function AfterRec(sb: JournalSuperblock, s: ScanState, rec: Rec): ScanState {
    var next := Advance(sb.first, sb.maxlen, s.cursor);
    match rec
    case Desc(tags) =>
      s.(cursor := AdvanceBy(sb.first, sb.maxlen, next, |tags|), blocks := s.blocks + TagBlocks(sb, tags, next))
    case Revokes => s.(cursor := next, revokes := s.revokes + [s.cursor])
    case Commit =>
      ScanState(next, WrappingAdd1(s.nextSeq), [], [], s.txns + [ScannedTxn(s.nextSeq, s.blocks, s.revokes)])
  }

  function AfterRecs(sb: JournalSuperblock, s: ScanState, recs: seq<Rec>): ScanState
    decreases |recs|
  {
    if recs == [] then s else AfterRecs(sb, AfterRec(sb, s, recs[0]), recs[1..])
  }

  predicate Laid(geo: Geometry, img: Image, live: Live, s: ScanState, recs: seq<Rec>)
    requires ValidImage(geo, img)
    decreases |recs|
  {
    recs != [] ==>
      && HoldsRec(geo, img, live, s.cursor, s.nextSeq, recs[0])
      && Laid(geo, img, live, AfterRec(live.sb, s, recs[0]), recs[1..])
  }

  /** The walk follows a laid-out log record by record; what comes after decides the rest. */
  lemma {:induction false} WalkLaid(geo: Geometry, img: Image, live: Live, s: ScanState, recs: seq<Rec>, fuel: nat)
    requires ValidImage(geo, img)
    requires Laid(geo, img, live, s, recs) && |recs| <= fuel
    ensures Walk(geo, img, live, s, fuel) == Walk(geo, img, live, AfterRecs(live.sb, s, recs), fuel - |recs|)
    decreases |recs|
  {
    hide GetBe32, CommitCsumOk, ParseDescriptor;
    if recs != [] {
      assert Step(geo, img, live, s) == Go(AfterRec(live.sb, s, recs[0]));
      WalkLaid(geo, img, live, AfterRec(live.sb, s, recs[0]), recs[1..], fuel - 1);
    }
  }

  /** A transaction as its writer sees it: descriptors with their tags, revoke blocks, in log order. */
  datatype LogTxn = LogTxn(parts: seq<Rec>)

  predicate IsTxn(t: LogTxn) {
    forall i :: 0 <= i < |t.parts| ==> !t.parts[i].Commit?
  }

  function RecsOf(ts: seq<LogTxn>): seq<Rec> {
    if ts == [] then [] else ts[0].parts + [Commit] + RecsOf(ts[1..])
  }

  /** Where transaction `t`'s blocks and revokes are when its first record is at `cursor`. */
  function TxnBlocks(sb: JournalSuperblock, parts: seq<Rec>, cursor: nat): seq<LoggedBlock> {
    if parts == [] then []
    else
      var next := Advance(sb.first, sb.maxlen, cursor);
      (if parts[0].Desc? then TagBlocks(sb, parts[0].tags, next) else [])
      + TxnBlocks(sb, parts[1..], AdvanceBy(sb.first, sb.maxlen, cursor, RecLen(parts[0])))
  }

  function TxnRevokes(sb: JournalSuperblock, parts: seq<Rec>, cursor: nat): seq<nat> {
    if parts == [] then []
    else
      (if parts[0].Revokes? then [cursor] else [])
      + TxnRevokes(sb, parts[1..], AdvanceBy(sb.first, sb.maxlen, cursor, RecLen(parts[0])))
  }

  function TxnEnd(sb: JournalSuperblock, parts: seq<Rec>, cursor: nat): nat {
    if parts == [] then cursor
    else TxnEnd(sb, parts[1..], AdvanceBy(sb.first, sb.maxlen, cursor, RecLen(parts[0])))
  }

  /** The transactions a reader should see when `ts` are laid out back to back from `cursor`. */
  function Expected(sb: JournalSuperblock, ts: seq<LogTxn>, cursor: nat, seqno: u32): seq<ScannedTxn> {
    if ts == [] then []
    else
      var end := TxnEnd(sb, ts[0].parts, cursor);
      [ScannedTxn(seqno, TxnBlocks(sb, ts[0].parts, cursor), TxnRevokes(sb, ts[0].parts, cursor))]
      + Expected(sb, ts[1..], Advance(sb.first, sb.maxlen, end), WrappingAdd1(seqno))
  }

  lemma {:induction false} AfterParts(sb: JournalSuperblock, s: ScanState, parts: seq<Rec>)
    requires forall i :: 0 <= i < |parts| ==> !parts[i].Commit?
    ensures AfterRecs(sb, s, parts)
         == s.(cursor := TxnEnd(sb, parts, s.cursor), blocks := s.blocks + TxnBlocks(sb, parts, s.cursor),
               revokes := s.revokes + TxnRevokes(sb, parts, s.cursor))
    decreases |parts|
  {
    if parts == [] {
      assert s.blocks + [] == s.blocks && s.revokes + [] == s.revokes;
    } else {
      var s' := AfterRec(sb, s, parts[0]);
      AfterParts(sb, s', parts[1..]);
      assert s'.cursor == AdvanceBy(sb.first, sb.maxlen, s.cursor, RecLen(parts[0]));
      var b, r := TxnBlocks(sb, parts[1..], s'.cursor), TxnRevokes(sb, parts[1..], s'.cursor);
      if parts[0].Desc? {
        var tb := TagBlocks(sb, parts[0].tags, Advance(sb.first, sb.maxlen, s.cursor));
        assert s.blocks + tb + b == s.blocks + (tb + b);
        assert [] + r == r;
      } else {
        assert [] + b == b;
        assert s.revokes + [s.cursor] + r == s.revokes + ([s.cursor] + r);
      }
    }
  }

  lemma {:induction false} AfterConcat(sb: JournalSuperblock, s: ScanState, a: seq<Rec>, b: seq<Rec>)
    ensures AfterRecs(sb, s, a + b) == AfterRecs(sb, AfterRecs(sb, s, a), b)
    decreases |a|
  {
    if a == [] {
      assert a + b == b;
    } else {
      assert (a + b)[1..] == a[1..] + b;
      AfterConcat(sb, AfterRec(sb, s, a[0]), a[1..], b);
    }
  }

  lemma {:induction false} AfterTxns(sb: JournalSuperblock, s: ScanState, ts: seq<LogTxn>)
    requires s.blocks == [] && s.revokes == []
    requires forall i :: 0 <= i < |ts| ==> IsTxn(ts[i])
    ensures var e := AfterRecs(sb, s, RecsOf(ts));
            e.txns == s.txns + Expected(sb, ts, s.cursor, s.nextSeq) && e.blocks == [] && e.revokes == []
    decreases |ts|
  {
    if ts == [] {
      assert s.txns + [] == s.txns;
    } else {
      var parts := ts[0].parts;
      AfterParts(sb, s, parts);
      AfterConcat(sb, s, parts, [Commit] + RecsOf(ts[1..]));
      assert parts + [Commit] + RecsOf(ts[1..]) == parts + ([Commit] + RecsOf(ts[1..]));
      var m := AfterRecs(sb, s, parts);
      assert ([Commit] + RecsOf(ts[1..]))[1..] == RecsOf(ts[1..]);
      var c := AfterRec(sb, m, Commit);
      AfterTxns(sb, c, ts[1..]);
      assert m.blocks == TxnBlocks(sb, parts, s.cursor) && m.revokes == TxnRevokes(sb, parts, s.cursor);
      var e := ScannedTxn(s.nextSeq, m.blocks, m.revokes);
      assert s.txns + [e] + Expected(sb, ts[1..], c.cursor, c.nextSeq)
          == s.txns + ([e] + Expected(sb, ts[1..], c.cursor, c.nextSeq));
    }
  }

  /**
   The log ends at this block: no header, one of another sequence, one of no kind the log knows, or, on a journal with
   checksums, a commit block whose own is wrong.
   */
  predicate EndsLog(geo: Geometry, img: Image, sb: JournalSuperblock, cursor: nat, seqno: u32)
    requires ValidImage(geo, img)
  {
    var block := LogBlock(geo, img, cursor);
    || GetBe32(block, 0) != MAGIC || GetBe32(block, 8) != seqno
    || GetBe32(block, 4) !in {DESCRIPTOR_BLOCK, REVOKE_BLOCK, COMMIT_BLOCK}
    || (GetBe32(block, 4) == COMMIT_BLOCK && FeatureCsum(sb.featureIncompat)
        && !SelfSummed(geo.crc, geo.crc(CRC_INIT, sb.uuid), block, 16))
  }

  lemma StopsExactly(geo: Geometry, img: Image, live: Live, s: ScanState)
    requires ValidImage(geo, img) && LiveSb(geo, img) == Ok(live)
    ensures Step(geo, img, live, s) == Stop <==> EndsLog(geo, img, live.sb, s.cursor, s.nextSeq)
  {
    hide GetBe32, CommitCsumOk, ParseDescriptor, SelfSummed, ParseJournalSuperblock, LogBlock;
    ChecksumMeaning(geo.crc, live.seed, LogBlock(geo, img, s.cursor));
  }

  /** The records of `ts`, then of an uncommitted tail, are in the log from its head on. */
  predicate LaidOut(geo: Geometry, img: Image, live: Live, ts: seq<LogTxn>, tail: seq<Rec>)
    requires ValidImage(geo, img)
  {
    var recs := RecsOf(ts) + tail;
    && (forall i :: 0 <= i < |ts| ==> IsTxn(ts[i])) && IsTxn(LogTxn(tail))
    && Laid(geo, img, live, StartState(live.sb), recs) && |recs| <= live.sb.maxlen
  }

  /** Where the walk is behind them. */
  function Behind(sb: JournalSuperblock, ts: seq<LogTxn>, tail: seq<Rec>): ScanState {
    AfterRecs(sb, StartState(sb), RecsOf(ts) + tail)
  }

  /** The last sequence handed out: that of the last transaction, or the one before the first expected. */
  function LastSequence(sb: JournalSuperblock, n: nat): u32 {
    (sb.sequence + 0xFFFF_FFFF + n) % 0x1_0000_0000
  }

  lemma WalkLaidOut(geo: Geometry, img: Image, ts: seq<LogTxn>, tail: seq<Rec>)
    requires ValidImage(geo, img) && LiveSb(geo, img).Ok? && LaidOut(geo, img, LiveSb(geo, img).value, ts, tail)
    ensures var live := LiveSb(geo, img).value;
            && Walk(geo, img, live, StartState(live.sb), live.sb.maxlen)
               == Walk(geo, img, live, Behind(live.sb, ts, tail), live.sb.maxlen - |RecsOf(ts) + tail|)
            && Behind(live.sb, ts, tail).txns == Expected(live.sb, ts, live.sb.start, live.sb.sequence)
  {
    hide Step, Laid, AfterRec, LiveSb;
    var live := LiveSb(geo, img).value;
    var s := StartState(live.sb);
    WalkLaid(geo, img, live, s, RecsOf(ts) + tail, live.sb.maxlen);
    AfterConcat(live.sb, s, RecsOf(ts), tail);
    AfterTxns(live.sb, s, ts);
    AfterParts(live.sb, AfterRecs(live.sb, s, RecsOf(ts)), tail);
    assert [] + Expected(live.sb, ts, live.sb.start, live.sb.sequence)
        == Expected(live.sb, ts, live.sb.start, live.sb.sequence);
  }

  lemma {:induction false} ExpectedSequences(sb: JournalSuperblock, ts: seq<LogTxn>, cursor: nat, seqno: u32)
    ensures |Expected(sb, ts, cursor, seqno)| == |ts|
    ensures forall i :: 0 <= i < |ts| ==> Expected(sb, ts, cursor, seqno)[i].sequence == (seqno + i) % 0x1_0000_0000
    decreases |ts|
  {
    hide TxnBlocks, TxnRevokes, TxnEnd, Advance;
    if ts != [] {
      ExpectedSequences(sb, ts[1..], Advance(sb.first, sb.maxlen, TxnEnd(sb, ts[0].parts, cursor)),
          WrappingAdd1(seqno));
    }
  }

  /**
   Consecutive transactions laid out from `s_start`, an uncommitted tail,
       then a block that ends the log or no more blocks:
   the scan returns exactly the transactions, with the positions of their blocks, and drops the tail.
   */
  lemma ScanLaid(geo: Geometry, img: Image, ts: seq<LogTxn>, tail: seq<Rec>)
    requires ValidImage(geo, img) && LiveSb(geo, img).Ok? && LiveSb(geo, img).value.sb.start != 0
    requires LaidOut(geo, img, LiveSb(geo, img).value, ts, tail)
    requires var sb, s := LiveSb(geo, img).value.sb, Behind(LiveSb(geo, img).value.sb, ts, tail);
             |RecsOf(ts) + tail| == sb.maxlen || EndsLog(geo, img, sb, s.cursor, s.nextSeq)
    ensures ScanLog(geo, img).Ok?
    ensures var sb, r := LiveSb(geo, img).value.sb, ScanLog(geo, img).value;
            r.txns == Expected(sb, ts, sb.start, sb.sequence) && r.lastSequence == LastSequence(sb, |ts|)
  {
    hide Step, Laid, AfterRec, LiveSb, EndsLog, Expected, LaidOut;
    var live := LiveSb(geo, img).value;
    WalkLaidOut(geo, img, ts, tail);
    StopsExactly(geo, img, live, Behind(live.sb, ts, tail));
    ExpectedSequences(live.sb, ts, live.sb.start, live.sb.sequence);
  }

  /** A descriptor there that does not parse makes the whole scan fail. */
  lemma ScanFails(geo: Geometry, img: Image, ts: seq<LogTxn>, tail: seq<Rec>)
    requires ValidImage(geo, img) && LiveSb(geo, img).Ok? && LiveSb(geo, img).value.sb.start != 0
    requires LaidOut(geo, img, LiveSb(geo, img).value, ts, tail)
    requires var sb := LiveSb(geo, img).value.sb;
             var s := Behind(sb, ts, tail);
             var block := LogBlock(geo, img, s.cursor);
             && |RecsOf(ts) + tail| < sb.maxlen && !EndsLog(geo, img, sb, s.cursor, s.nextSeq)
             && GetBe32(block, 4) == DESCRIPTOR_BLOCK
             && ParseDescriptor(block, FormatOf(sb.featureIncompat), Feature64(sb.featureIncompat)).Err?
    ensures var sb := LiveSb(geo, img).value.sb;
            var block := LogBlock(geo, img, Behind(sb, ts, tail).cursor);
            && ScanLog(geo, img).Err?
            && ParseDescriptor(block, FormatOf(sb.featureIncompat), Feature64(sb.featureIncompat))
               == Err(ScanLog(geo, img).errno)
  {
    hide GetBe32, CommitCsumOk, ParseDescriptor, SelfSummed, LiveSb, LaidOut, Expected, AfterRecs;
    var live := LiveSb(geo, img).value;
    LiveFields(geo, img);
    WalkLaidOut(geo, img, ts, tail);
  }

  lemma LiveFields(geo: Geometry, img: Image)
    requires ValidImage(geo, img) && LiveSb(geo, img).Ok?
    ensures var live := LiveSb(geo, img).value;
            && live.fmt == FormatOf(live.sb.featureIncompat) && live.has64 == Feature64(live.sb.featureIncompat)
            && live.hasCsum == FeatureCsum(live.sb.featureIncompat) && live.seed == geo.crc(CRC_INIT, live.sb.uuid)
  {
    hide ParseJournalSuperblock;
  }

  /** A clean log holds nothing. */
  lemma ScanClean(geo: Geometry, img: Image)
    requires ValidImage(geo, img) && LiveSb(geo, img).Ok? && LiveSb(geo, img).value.sb.start == 0
    ensures ScanLog(geo, img) == Ok(ScanResult([], LastSequence(LiveSb(geo, img).value.sb, 0)))
  {
    hide LiveSb;
  }

  // ---- every log is such a log ------------------------------------------------------------------------

  /** The record a step of the walk passes. */
  function RecAt(geo: Geometry, img: Image, live: Live, cursor: nat): Rec
    requires ValidImage(geo, img)
  {
    var block := LogBlock(geo, img, cursor);
    if GetBe32(block, 4) == DESCRIPTOR_BLOCK then
      match ParseDescriptor(block, live.fmt, live.has64)
      case Ok(tags) => Desc(tags)
      case Err(_) => Revokes
    else if GetBe32(block, 4) == REVOKE_BLOCK then Revokes
    else Commit
  }

  function Passed(geo: Geometry, img: Image, live: Live, s: ScanState, fuel: nat): seq<Rec>
    requires ValidImage(geo, img)
    decreases fuel
  {
    if fuel == 0 then []
    else match Step(geo, img, live, s)
      case Go(next) => [RecAt(geo, img, live, s.cursor)] + Passed(geo, img, live, next, fuel - 1)
      case _ => []
  }

  lemma {:induction false} PassedLaid(geo: Geometry, img: Image, live: Live, s: ScanState, fuel: nat)
    requires ValidImage(geo, img) && Walk(geo, img, live, s, fuel).Ok?
    ensures var recs := Passed(geo, img, live, s, fuel);
            && |recs| <= fuel && Laid(geo, img, live, s, recs)
            && (|recs| == fuel || Step(geo, img, live, AfterRecs(live.sb, s, recs)) == Stop)
    decreases fuel
  {
    hide GetBe32, CommitCsumOk, ParseDescriptor, LogBlock;
    if fuel > 0 && Step(geo, img, live, s).Go? {
      var next := Step(geo, img, live, s).next;
      var rec, rest := RecAt(geo, img, live, s.cursor), Passed(geo, img, live, next, fuel - 1);
      assert next == AfterRec(live.sb, s, rec);
      PassedLaid(geo, img, live, next, fuel - 1);
      assert ([rec] + rest)[1..] == rest;
    }
  }

  /** Records cut at their commits. */
  lemma {:induction false} CutTxns(recs: seq<Rec>) returns (ts: seq<LogTxn>, tail: seq<Rec>)
    ensures RecsOf(ts) + tail == recs
    ensures (forall i :: 0 <= i < |ts| ==> IsTxn(ts[i])) && IsTxn(LogTxn(tail))
    decreases |recs|
  {
    if recs == [] {
      ts, tail := [], [];
      return;
    }
    ts, tail := CutTxns(recs[1..]);
    assert recs == [recs[0]] + recs[1..];
    if recs[0].Commit? {
      ts := [LogTxn([])] + ts;
      assert RecsOf(ts) == [] + [Commit] + RecsOf(ts[1..]);
    } else if ts == [] {
      tail := [recs[0]] + tail;
    } else {
      var first := LogTxn([recs[0]] + ts[0].parts);
      assert ([first] + ts[1..])[1..] == ts[1..];
      ts := [first] + ts[1..];
    }
  }

  /** Whatever the log holds, an Ok scan is that of some transactions and some tail laid out in it. */
  lemma ScanIsLaid(geo: Geometry, img: Image) returns (ts: seq<LogTxn>, tail: seq<Rec>)
    requires ValidImage(geo, img) && ScanLog(geo, img).Ok? && LiveSb(geo, img).value.sb.start != 0
    ensures LiveSb(geo, img).Ok? && LaidOut(geo, img, LiveSb(geo, img).value, ts, tail)
    ensures var sb, s := LiveSb(geo, img).value.sb, Behind(LiveSb(geo, img).value.sb, ts, tail);
            |RecsOf(ts) + tail| == sb.maxlen || EndsLog(geo, img, sb, s.cursor, s.nextSeq)
  {
    hide Step, Laid, AfterRec, LiveSb, EndsLog, Passed;
    var live := LiveSb(geo, img).value;
    var s := StartState(live.sb);
    PassedLaid(geo, img, live, s, live.sb.maxlen);
    var recs := Passed(geo, img, live, s, live.sb.maxlen);
    ts, tail := CutTxns(recs);
    StopsExactly(geo, img, live, AfterRecs(live.sb, s, recs));
  }

  // ---- revoke table ----------------------------------------------------------

  type RevokeTable = map<u64, u32>

  function AddRevoked(table: RevokeTable, blocks: seq<u64>, sequence: u32): RevokeTable
    decreases |blocks|
  {
    if blocks == [] then table
    else
      var b := blocks[0];
      var s := if b in table && table[b] >= sequence then table[b] else sequence;
      AddRevoked(table[b := s], blocks[1..], sequence)
  }

  /** Fold in the revoke blocks at the log indices `idxs`. */
  function AddRevokeBlocks(geo: Geometry, img: Image, live: Live, table: RevokeTable,
      idxs: seq<nat>): Result<RevokeTable>
    requires ValidImage(geo, img)
    decreases |idxs|
  {
    if idxs == [] then Ok(table)
    else
      var block := LogBlock(geo, img, idxs[0]);
      if live.hasCsum && !TailCsumOk(geo.crc, live.seed, block) then Err(EIO)
      else
        var rb :- ParseRevokeBlock(block, live.has64);
        AddRevokeBlocks(geo, img, live, AddRevoked(table, rb.blocks, rb.sequence), idxs[1..])
  }

  function AddTxnRevokes(geo: Geometry, img: Image, live: Live, table: RevokeTable, txns: seq<ScannedTxn>)
    : Result<RevokeTable>
    requires ValidImage(geo, img)
    decreases |txns|
  {
    if txns == [] then Ok(table)
    else
      var t :- AddRevokeBlocks(geo, img, live, table, txns[0].revokeLogBlocks);
      AddTxnRevokes(geo, img, live, t, txns[1..])
  }

  function RevokesOf(geo: Geometry, img: Image, txns: seq<ScannedTxn>): Result<RevokeTable>
    requires ValidImage(geo, img)
  {
    var live :- LiveSb(geo, img);
    AddTxnRevokes(geo, img, live, map[], txns)
  }

  /** Build the table by walking every revoke block of every scanned transaction. */
  method BuildRevokeTable(geo: Geometry, dev: Device, txns: seq<ScannedTxn>) returns (r: Result<RevokeTable>)
    requires ValidImage(geo, dev.cells)
    ensures r == RevokesOf(geo, dev.cells, txns)
  {
    hide TailCsumOk, ParseRevokeBlock, FeatureCsum, Feature64, FormatOf;
    var live :- LiveSb(geo, dev.cells);
    var table: RevokeTable := map[];
    for i := 0 to |txns|
      invariant RevokesOf(geo, dev.cells, txns) == AddTxnRevokes(geo, dev.cells, live, table, txns[i..])
    {
      var idxs := txns[i].revokeLogBlocks;
      ghost var before := table;
      for j := 0 to |idxs|
        invariant AddRevokeBlocks(geo, dev.cells, live, before, idxs)
               == AddRevokeBlocks(geo, dev.cells, live, table, idxs[j..])
      {
        var block := LogBlock(geo, dev.cells, idxs[j]);
        if live.hasCsum && !TailCsumOk(geo.crc, live.seed, block) {
          return Err(EIO);
        }
        var rb :- ReadRevokeBlock(block, live.has64);
        table := RevokeEach(table, rb.blocks, rb.sequence);
      }
    }
    return Ok(table);
  }

  /** Note the blocks of one revoke block, keeping the highest sequence of each. */
  method RevokeEach(table0: RevokeTable, blocks: seq<u64>, sequence: u32) returns (table: RevokeTable)
    ensures table == AddRevoked(table0, blocks, sequence)
  {
    table := table0;
    for k := 0 to |blocks|
      invariant AddRevoked(table0, blocks, sequence) == AddRevoked(table, blocks[k..], sequence)
    {
      var b := blocks[k];
      if b in table {
        table := table[b := if table[b] >= sequence then table[b] else sequence];
      } else {
        table := table[b := sequence];
      }
    }
  }

  /** Some revoke block among `idxs` lists `b` with sequence at least `s`. */
  predicate RevokedIn(geo: Geometry, img: Image, live: Live, idxs: seq<nat>, b: u64, s: u32)
    requires ValidImage(geo, img)
  {
    exists j :: 0 <= j < |idxs| && ListsRevoked(geo, img, live, idxs[j], b, s)
  }

  predicate ListsRevoked(geo: Geometry, img: Image, live: Live, idx: nat, b: u64, s: u32)
    requires ValidImage(geo, img)
  {
    var rb := ParseRevokeBlock(LogBlock(geo, img, idx), live.has64);
    rb.Ok? && b in rb.value.blocks && rb.value.sequence >= s
  }

  /** Block `b` is revoked by a scanned transaction with sequence `s` or later. */
  predicate RevokedSince(geo: Geometry, img: Image, live: Live, txns: seq<ScannedTxn>, b: u64, s: u32)
    requires ValidImage(geo, img)
  {
    exists i :: 0 <= i < |txns| && RevokedIn(geo, img, live, txns[i].revokeLogBlocks, b, s)
  }

  predicate TableSays(table: RevokeTable, b: u64, s: u32) {
    b in table && table[b] >= s
  }

  lemma {:induction false} AddRevokedMeaning(table: RevokeTable, blocks: seq<u64>, sequence: u32, b: u64, s: u32)
    ensures TableSays(AddRevoked(table, blocks, sequence), b, s)
       <==> TableSays(table, b, s) || (b in blocks && sequence >= s)
    decreases |blocks|
  {
    if blocks != [] {
      var c := blocks[0];
      var t := table[c := if c in table && table[c] >= sequence then table[c] else sequence];
      AddRevokedMeaning(t, blocks[1..], sequence, b, s);
      assert b in blocks <==> b == c || b in blocks[1..];
    }
  }

  lemma {:induction false} AddRevokeBlocksMeaning(geo: Geometry, img: Image, live: Live, table: RevokeTable,
                                                  idxs: seq<nat>, b: u64, s: u32)
    requires ValidImage(geo, img)
    requires AddRevokeBlocks(geo, img, live, table, idxs).Ok?
    ensures TableSays(AddRevokeBlocks(geo, img, live, table, idxs).value, b, s)
       <==> TableSays(table, b, s) || RevokedIn(geo, img, live, idxs, b, s)
    decreases |idxs|
  {
    hide TailCsumOk, ParseRevokeBlock, AddRevoked, TableSays;
    if idxs != [] {
      var rb := ParseRevokeBlock(LogBlock(geo, img, idxs[0]), live.has64).value;
      AddRevokedMeaning(table, rb.blocks, rb.sequence, b, s);
      AddRevokeBlocksMeaning(geo, img, live, AddRevoked(table, rb.blocks, rb.sequence), idxs[1..], b, s);
      if RevokedIn(geo, img, live, idxs[1..], b, s) {
        var j :| 0 <= j < |idxs[1..]| && ListsRevoked(geo, img, live, idxs[1..][j], b, s);
        assert ListsRevoked(geo, img, live, idxs[j + 1], b, s);
      }
      if j :| 0 <= j < |idxs| && ListsRevoked(geo, img, live, idxs[j], b, s) {
        if j > 0 {
          assert ListsRevoked(geo, img, live, idxs[1..][j - 1], b, s);
        }
      }
    }
  }

  lemma {:induction false} AddTxnRevokesMeaning(geo: Geometry, img: Image, live: Live, table: RevokeTable,
                                                txns: seq<ScannedTxn>, b: u64, s: u32)
    requires ValidImage(geo, img)
    requires AddTxnRevokes(geo, img, live, table, txns).Ok?
    ensures TableSays(AddTxnRevokes(geo, img, live, table, txns).value, b, s)
       <==> TableSays(table, b, s) || RevokedSince(geo, img, live, txns, b, s)
    decreases |txns|
  {
    hide TailCsumOk, AddRevokeBlocks, TableSays, RevokedIn;
    if txns != [] {
      var t := AddRevokeBlocks(geo, img, live, table, txns[0].revokeLogBlocks).value;
      AddRevokeBlocksMeaning(geo, img, live, table, txns[0].revokeLogBlocks, b, s);
      AddTxnRevokesMeaning(geo, img, live, t, txns[1..], b, s);
      if RevokedSince(geo, img, live, txns[1..], b, s) {
        var i :| 0 <= i < |txns[1..]| && RevokedIn(geo, img, live, txns[1..][i].revokeLogBlocks, b, s);
        assert RevokedIn(geo, img, live, txns[i + 1].revokeLogBlocks, b, s);
      }
      if i :| 0 <= i < |txns| && RevokedIn(geo, img, live, txns[i].revokeLogBlocks, b, s) {
        if i > 0 {
          assert RevokedIn(geo, img, live, txns[1..][i - 1].revokeLogBlocks, b, s);
        }
      }
    }
  }

  /** The table answers exactly the question replay asks of it. */
  lemma RevokeTableMeaning(geo: Geometry, img: Image, txns: seq<ScannedTxn>, b: u64, s: u32)
    requires ValidImage(geo, img)
    requires RevokesOf(geo, img, txns).Ok?
    ensures TableSays(RevokesOf(geo, img, txns).value, b, s)
       <==> RevokedSince(geo, img, LiveSb(geo, img).value, txns, b, s)
  {
    AddTxnRevokesMeaning(geo, img, LiveSb(geo, img).value, map[], txns, b, s);
  }
}
