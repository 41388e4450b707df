/** Recovery: replay of the committed, unrevoked blocks, then a clean journal. */
module JournalRecovery {
  import opened Bytes
  import opened Outcome
  import opened JournalCodec
  import opened CrashDisk
  import opened JournalLog
  import opened Journal

  /** What replay writes for a logged block: its log copy, with an escaped magic restored. */
  function LoggedData(geo: Geometry, img: Image, lb: LoggedBlock): (r: Block)
    requires ValidImage(geo, img)
    ensures |r| == geo.blockSize
  {
    var data := LogBlock(geo, img, lb.dataLogBlock);
    if Escaped(lb.flags) then UnescapeData(data) else data
  }

  /** The blocks of one transaction that replay does not skip. */
  function Unrevoked(table: RevokeTable, sequence: u32, blocks: seq<LoggedBlock>): (r: seq<LoggedBlock>)
    ensures forall lb :: lb in r ==> lb in blocks
    decreases |blocks|
  {
    if blocks == [] then []
    else
      (if TableSays(table, blocks[0].finalBlock, sequence) then [] else [blocks[0]])
      + Unrevoked(table, sequence, blocks[1..])
  }

  function ToReplay(table: RevokeTable, txns: seq<ScannedTxn>): (r: seq<LoggedBlock>)
    decreases |txns|
  {
    if txns == [] then []
    else Unrevoked(table, txns[0].sequence, txns[0].blocks) + ToReplay(table, txns[1..])
  }

  function ReplayWrites(geo: Geometry, img: Image, lbs: seq<LoggedBlock>): (r: seq<BlockWrite>)
    requires ValidImage(geo, img)
    ensures |r| == |lbs|
    ensures forall i :: 0 <= i < |lbs| ==> r[i] == BlockWrite(lbs[i].finalBlock, LoggedData(geo, img, lbs[i]))
  {
    hide LoggedData;
    seq(|lbs|, i requires 0 <= i < |lbs| => BlockWrite(lbs[i].finalBlock, LoggedData(geo, img, lbs[i])))
  }

  /** Final places are blocks of the device outside the log. */
  predicate FinalOutsideLog(geo: Geometry, n: nat, blocks: seq<LoggedBlock>) {
    forall i :: 0 <= i < |blocks| ==> blocks[i].finalBlock < n && !geo.InLog(blocks[i].finalBlock)
  }

  predicate TxnsOutsideLog(geo: Geometry, n: nat, txns: seq<ScannedTxn>) {
    forall i :: 0 <= i < |txns| ==> FinalOutsideLog(geo, n, txns[i].blocks)
  }

  predicate HeadInLog(sb: JournalSuperblock) {
    sb.start == 0 || sb.first <= sb.start < sb.maxlen
  }

  /** A sane journal whose transactions log blocks outside the journal itself. */
  predicate RecoverPre(geo: Geometry, img: Image) {
    && ValidImage(geo, img)
    && (LiveSb(geo, img).Ok? ==> SaneLog(geo, LiveSb(geo, img).value.sb) && HeadInLog(LiveSb(geo, img).value.sb))
    && (ScanLog(geo, img).Ok? ==> TxnsOutsideLog(geo, |img|, ScanLog(geo, img).value.txns))
  }

  /** Replay, the clean mark, RECOVER off. */
  datatype RecoverPlan = RecoverPlan(replay: seq<BlockWrite>, head: BlockWrite, recoverOff: BlockWrite) {
    function All(): seq<seq<BlockWrite>> {
      [replay, [head], [recoverOff]]
    }
  }

  function PlanFor(geo: Geometry, img: Image, scan: ScanResult, table: RevokeTable, hasCsum: bool): RecoverPlan
    requires ValidImage(geo, img) && ParseJournalSuperblock(LogBlock(geo, img, 0)).Ok?
    requires InRange(img, ReplayWrites(geo, img, ToReplay(table, scan.txns)))
    requires |Apply(img, ReplayWrites(geo, img, ToReplay(table, scan.txns)))[geo.SbBlock()]| == geo.blockSize
  {
    hide UpdateSuperblock, PatchRecover, ParseJournalSuperblock;
    var replay := ReplayWrites(geo, img, ToReplay(table, scan.txns));
    RecoverPlan(
      replay,
      BlockWrite(geo.Map(0), UpdateSuperblock(geo.crc, LogBlock(geo, img, 0), WrappingAdd1(scan.lastSequence), 0,
          hasCsum)),
      BlockWrite(geo.SbBlock(), PatchRecover(geo.crc, Apply(img, replay)[geo.SbBlock()], geo.SbOff(), false)))
  }

  lemma {:induction false} ToReplayOutsideLog(geo: Geometry, n: nat, table: RevokeTable, txns: seq<ScannedTxn>)
    requires TxnsOutsideLog(geo, n, txns)
    ensures FinalOutsideLog(geo, n, ToReplay(table, txns))
    decreases |txns|
  {
    if txns != [] {
      var u := Unrevoked(table, txns[0].sequence, txns[0].blocks);
      forall i | 0 <= i < |u|
        ensures u[i].finalBlock < n && !geo.InLog(u[i].finalBlock)
      {
        assert u[i] in txns[0].blocks;
      }
      ToReplayOutsideLog(geo, n, table, txns[1..]);
    }
  }

  /** Replaying keeps blocks whole and the log untouched. */
  lemma {:induction false} ReplayFrame(geo: Geometry, img: Image, ws: seq<BlockWrite>)
    requires ValidImage(geo, img)
    requires WholeBlocks(geo, |img|, ws) && forall i :: 0 <= i < |ws| ==> !geo.InLog(ws[i].target)
    ensures InRange(img, ws) && ValidImage(geo, Apply(img, ws))
    ensures forall idx :: 0 <= idx < |geo.logMap| ==> LogBlock(geo, Apply(img, ws), idx) == LogBlock(geo, img, idx)
    decreases |ws|
  {
    if ws != [] {
      var img' := img[ws[0].target := ws[0].data];
      forall idx | 0 <= idx < |geo.logMap|
        ensures img'[geo.Map(idx)] == img[geo.Map(idx)]
      {
        assert geo.InLog(geo.Map(idx));
      }
      ReplayFrame(geo, img', ws[1..]);
    }
  }

  lemma ReplayValid(geo: Geometry, img: Image, lbs: seq<LoggedBlock>)
    requires ValidImage(geo, img) && FinalOutsideLog(geo, |img|, lbs)
    ensures var ws := ReplayWrites(geo, img, lbs);
            && WholeBlocks(geo, |img|, ws) && (forall i :: 0 <= i < |ws| ==> !geo.InLog(ws[i].target))
            && InRange(img, ws) && ValidImage(geo, Apply(img, ws))
            && (forall idx :: 0 <= idx < |geo.logMap| ==> LogBlock(geo, Apply(img, ws), idx) == LogBlock(geo, img, idx))
  {
    hide LoggedData, ValidImage, LogBlock, Geometry.InLog;
    ReplayFrame(geo, img, ReplayWrites(geo, img, lbs));
  }

  /** The plan of a recovery that finds committed transactions. */
  function Plan(geo: Geometry, img: Image, hasCsum: bool): (r: Result<RecoverPlan>)
    requires RecoverPre(geo, img)
  {
    hide LiveSb, ScanLog, RevokesOf, ReplayWrites, ToReplay, Apply;
    var scan :- ScanLog(geo, img);
    var table :- RevokesOf(geo, img, scan.txns);
    ToReplayOutsideLog(geo, |img|, table, scan.txns);
    ReplayValid(geo, img, ToReplay(table, scan.txns));
    LiveParses(geo, img);
    Ok(PlanFor(geo, img, scan, table, hasCsum))
  }

  lemma LiveParses(geo: Geometry, img: Image)
    requires ValidImage(geo, img) && ScanLog(geo, img).Ok?
    ensures LiveSb(geo, img).Ok? && ParseJournalSuperblock(LogBlock(geo, img, 0)).Ok?
  {
    hide ParseJournalSuperblock, FormatOf, Feature64, FeatureCsum, Walk;
  }

  /** Everything a recovery does to the device, or the error it returns before touching it. */
  function RecoverTrace(geo: Geometry, img: Image, hasCsum: bool): (r: Result<seq<Op>>)
    requires RecoverPre(geo, img)
  {
    hide ScanLog, Plan;
    var scan :- ScanLog(geo, img);
    if scan.txns == [] then Ok([])
    else
      var plan :- Plan(geo, img, hasCsum);
      Ok(Trace(plan.All()))
  }

  // ---- the recovery loops --------------------------------------------------

  lemma UnrevokedMore(table: RevokeTable, sequence: u32, blocks: seq<LoggedBlock>, i: nat)
    requires i < |blocks|
    ensures Unrevoked(table, sequence, blocks[i..])
         == (if TableSays(table, blocks[i].finalBlock, sequence) then [] else [blocks[i]])
            + Unrevoked(table, sequence, blocks[i + 1..])
  {
    assert blocks[i..][0] == blocks[i] && blocks[i..][1..] == blocks[i + 1..];
  }

  /** Replay one transaction: every block not revoked at its sequence or later. */
  method ReplayTxn(geo: Geometry, dev: Device, table: RevokeTable, txn: ScannedTxn, ghost img: Image)
    requires dev.Valid() && ValidImage(geo, dev.cells) && ValidImage(geo, img) && |img| == |dev.cells|
    requires forall idx :: 0 <= idx < |geo.logMap| ==> LogBlock(geo, dev.cells, idx) == LogBlock(geo, img, idx)
    requires FinalOutsideLog(geo, |img|, txn.blocks)
    requires forall i :: 0 <= i < |txn.blocks| ==> txn.blocks[i].dataLogBlock < |geo.logMap|
    modifies dev
    ensures dev.Valid() && dev.origin == old(dev.origin) && ValidImage(geo, dev.cells) && |dev.cells| == |img|
    ensures forall idx :: 0 <= idx < |geo.logMap| ==> LogBlock(geo, dev.cells, idx) == LogBlock(geo, img, idx)
    ensures var ws := ReplayWrites(geo, img, Unrevoked(table, txn.sequence, txn.blocks));
            && InRange(old(dev.cells), ws) && dev.cells == Apply(old(dev.cells), ws)
            && dev.trace == old(dev.trace) + Writes(ws)
  {
    hide UnescapeData, TableSays, View, OpsInRange, Apply, Unrevoked, ReplayWrites, LogBlock, Geometry.Valid;
    hide Geometry.InLog;
    ghost var done: seq<LoggedBlock> := [];
    ghost var cells, t := dev.cells, dev.trace;
    NothingReplayed(geo, img, cells, t);
    for i := 0 to |txn.blocks|
      invariant dev.Valid() && dev.origin == old(dev.origin) && ValidImage(geo, dev.cells) && |dev.cells| == |img|
      invariant forall idx :: 0 <= idx < |geo.logMap| ==> LogBlock(geo, dev.cells, idx) == LogBlock(geo, img, idx)
      invariant done + Unrevoked(table, txn.sequence, txn.blocks[i..]) == Unrevoked(table, txn.sequence, txn.blocks)
      invariant InRange(cells, ReplayWrites(geo, img, done))
      invariant dev.cells == Apply(cells, ReplayWrites(geo, img, done))
      invariant dev.trace == t + Writes(ReplayWrites(geo, img, done))
    {
      var lb := txn.blocks[i];
      UnrevokedMore(table, txn.sequence, txn.blocks, i);
      ghost var rest := Unrevoked(table, txn.sequence, txn.blocks[i + 1..]);
      if TableSays(table, lb.finalBlock, txn.sequence) {
        assert [] + rest == rest;
        continue;
      }
      var data := LogBlock(geo, dev.cells, lb.dataLogBlock);
      if Escaped(lb.flags) {
        data := UnescapeData(data);
      }
      ReplayOne(geo, img, cells, done, lb);
      ReplayedApart(geo, dev.cells, lb.finalBlock, data);
      dev.Write(lb.finalBlock, data);
      assert done + ([lb] + rest) == done + [lb] + rest;
      done := done + [lb];
    }
    NoneLeft(table, txn.sequence);
    assert txn.blocks[|txn.blocks|..] == [];
    assert done + [] == done;
  }

  lemma NoneLeft(table: RevokeTable, sequence: u32)
    ensures Unrevoked(table, sequence, []) == [] && ToReplay(table, []) == []
  {
  }

  lemma NothingReplayed(geo: Geometry, img: Image, cells: Image, t: seq<Op>)
    requires ValidImage(geo, img)
    ensures InRange(cells, ReplayWrites(geo, img, [])) && Apply(cells, ReplayWrites(geo, img, [])) == cells
    ensures t + Writes(ReplayWrites(geo, img, [])) == t
  {
  }

  lemma ReplayedApart(geo: Geometry, cells: Image, b: nat, data: Block)
    requires ValidImage(geo, cells) && b < |cells| && !geo.InLog(b) && |data| == geo.blockSize
    ensures ValidImage(geo, cells[b := data])
    ensures forall idx :: 0 <= idx < |geo.logMap| ==> LogBlock(geo, cells[b := data], idx) == LogBlock(geo, cells, idx)
  {
    forall idx | 0 <= idx < |geo.logMap|
      ensures geo.Map(idx) != b
    {
      assert geo.InLog(geo.Map(idx));
    }
  }

  lemma ReplayOne(geo: Geometry, img: Image, cells: Image, done: seq<LoggedBlock>, lb: LoggedBlock)
    requires ValidImage(geo, img) && lb.finalBlock < |cells|
    requires InRange(cells, ReplayWrites(geo, img, done))
    ensures var w := BlockWrite(lb.finalBlock, LoggedData(geo, img, lb));
            && InRange(cells, ReplayWrites(geo, img, done + [lb]))
            && Apply(cells, ReplayWrites(geo, img, done + [lb]))
            == Apply(cells, ReplayWrites(geo, img, done))[w.target := w.data]
            && Writes(ReplayWrites(geo, img, done + [lb])) == Writes(ReplayWrites(geo, img, done)) + [Write(w)]
  {
    hide LoggedData;
    var w := BlockWrite(lb.finalBlock, LoggedData(geo, img, lb));
    assert ReplayWrites(geo, img, done + [lb]) == ReplayWrites(geo, img, done) + [w];
    ApplyConcat(cells, ReplayWrites(geo, img, done), [w]);
    ApplyOne(Apply(cells, ReplayWrites(geo, img, done)), w);
    WritesMore(ReplayWrites(geo, img, done), w);
  }

  lemma ToReplayMore(table: RevokeTable, txns: seq<ScannedTxn>, i: nat)
    requires i < |txns|
    ensures ToReplay(table, txns[i..])
            == Unrevoked(table, txns[i].sequence, txns[i].blocks) + ToReplay(table, txns[i + 1..])
  {
    assert txns[i..][0] == txns[i] && txns[i..][1..] == txns[i + 1..];
  }

  lemma ReplayConcat(geo: Geometry, img: Image, cells: Image, a: seq<LoggedBlock>, b: seq<LoggedBlock>)
    requires ValidImage(geo, img)
    requires InRange(cells, ReplayWrites(geo, img, a)) && InRange(cells, ReplayWrites(geo, img, b))
    ensures InRange(cells, ReplayWrites(geo, img, a + b))
    ensures Apply(cells, ReplayWrites(geo, img, a + b))
         == Apply(Apply(cells, ReplayWrites(geo, img, a)), ReplayWrites(geo, img, b))
    ensures Writes(ReplayWrites(geo, img, a + b))
            == Writes(ReplayWrites(geo, img, a)) + Writes(ReplayWrites(geo, img, b))
  {
    hide LoggedData;
    assert ReplayWrites(geo, img, a + b) == ReplayWrites(geo, img, a) + ReplayWrites(geo, img, b);
    ApplyConcat(cells, ReplayWrites(geo, img, a), ReplayWrites(geo, img, b));
  }

  /** Replay every scanned transaction in log order. */
  method ReplayAll(geo: Geometry, dev: Device, table: RevokeTable, txns: seq<ScannedTxn>)
    requires dev.Valid() && ValidImage(geo, dev.cells) && TxnsOutsideLog(geo, |dev.cells|, txns)
    requires forall i :: 0 <= i < |txns| ==> forall j :: 0 <= j < |txns[i].blocks| ==>
             txns[i].blocks[j].dataLogBlock < |geo.logMap|
    modifies dev
    ensures dev.Valid() && dev.origin == old(dev.origin) && ValidImage(geo, dev.cells)
    ensures forall idx :: 0 <= idx < |geo.logMap| ==>
            LogBlock(geo, dev.cells, idx) == LogBlock(geo, old(dev.cells), idx)
    ensures var ws := ReplayWrites(geo, old(dev.cells), ToReplay(table, txns));
            && InRange(old(dev.cells), ws) && dev.cells == Apply(old(dev.cells), ws)
            && dev.trace == old(dev.trace) + Writes(ws)
  {
    hide View, OpsInRange, Apply, Unrevoked, LogBlock, ReplayWrites;
    ghost var img, t := dev.cells, dev.trace;
    ghost var done: seq<LoggedBlock> := [];
    NothingReplayed(geo, img, img, t);
    for i := 0 to |txns|
      invariant dev.Valid() && dev.origin == old(dev.origin) && ValidImage(geo, dev.cells) && |dev.cells| == |img|
      invariant forall idx :: 0 <= idx < |geo.logMap| ==> LogBlock(geo, dev.cells, idx) == LogBlock(geo, img, idx)
      invariant done + ToReplay(table, txns[i..]) == ToReplay(table, txns)
      invariant InRange(img, ReplayWrites(geo, img, done))
      invariant dev.cells == Apply(img, ReplayWrites(geo, img, done))
      invariant dev.trace == t + Writes(ReplayWrites(geo, img, done))
    {
      ghost var more := Unrevoked(table, txns[i].sequence, txns[i].blocks);
      ToReplayMore(table, txns, i);
      ReplayTxn(geo, dev, table, txns[i], img);
      ReplayConcat(geo, img, img, done, more);
      assert done + (more + ToReplay(table, txns[i + 1..])) == done + more + ToReplay(table, txns[i + 1..]);
      done := done + more;
    }
    assert done + [] == done;
  }

  /** Scan, build the revoke table, replay, clear the journal and the RECOVER flag. */
  method Recover(geo: Geometry, dev: Device, hasCsum: bool) returns (r: Result<()>)
    requires dev.Valid() && RecoverPre(geo, dev.cells)
    modifies dev
    ensures dev.Valid() && dev.origin == old(dev.origin)
    ensures var t := RecoverTrace(geo, old(dev.cells), hasCsum);
            && (r.Ok? <==> t.Ok?)
            && (t.Err? ==> r == Err(t.errno) && dev.cells == old(dev.cells) && dev.trace == old(dev.trace))
            && (t.Ok? ==> dev.trace == old(dev.trace) + t.value)
  {
    hide LiveSb, ScanLog, RevokesOf, UpdateSuperblock, PatchRecover, ToReplay, Apply, Trace, View, OpsInRange, Writes;
    hide ParseJournalSuperblock, ReplayWrites;
    var scan :- Scan(geo, dev);
    if scan.txns == [] {
      return Ok(());
    }
    var table :- BuildRevokeTable(geo, dev, scan.txns);
    ghost var plan, t := Plan(geo, dev.cells, hasCsum).value, dev.trace;
    ToReplayOutsideLog(geo, |dev.cells|, table, scan.txns);
    ReplayValid(geo, dev.cells, ToReplay(table, scan.txns));
    LiveParses(geo, dev.cells);
    DataInLog(geo, dev.cells);
    ReplayAll(geo, dev, table, scan.txns);
    dev.Flush();
    MoveHead(geo, dev, WrappingAdd1(scan.lastSequence), 0, hasCsum);
    MarkRecover(geo, dev, false);
    ThreeEpochs(plan);
    return Ok(());
  }

  lemma ThreeEpochs(p: RecoverPlan)
    ensures Trace(p.All()) == Writes(p.replay) + [Flush] + [Write(p.head), Flush] + [Write(p.recoverOff), Flush]
  {
    hide Trace;
    EmptyTrace();
    TraceMore([], p.replay);
    TraceMore([p.replay], [p.head]);
    TraceMore([p.replay, [p.head]], [p.recoverOff]);
    assert [] + [p.replay] == [p.replay];
    assert [p.replay] + [[p.head]] == [p.replay, [p.head]];
    assert [p.replay, [p.head]] + [[p.recoverOff]] == p.All();
  }

  lemma DataInLog(geo: Geometry, img: Image)
    requires RecoverPre(geo, img) && ScanLog(geo, img).Ok?
    ensures var txns := ScanLog(geo, img).value.txns;
            forall i :: 0 <= i < |txns| ==> forall j :: 0 <= j < |txns[i].blocks| ==>
                txns[i].blocks[j].dataLogBlock < |geo.logMap|
  {
    hide LiveSb, ScanLog, TxnsOutsideLog;
    LiveParses(geo, img);
    if LiveSb(geo, img).value.sb.start == 0 {
      CleanScan(geo, img);
    } else {
      ScanSound(geo, img);
    }
  }

  lemma CleanScan(geo: Geometry, img: Image)
    requires ValidImage(geo, img) && LiveSb(geo, img).Ok? && LiveSb(geo, img).value.sb.start == 0
    ensures ScanLog(geo, img) == Ok(ScanOf(LiveSb(geo, img).value.sb, []))
  {
    hide LiveSb;
  }
}
