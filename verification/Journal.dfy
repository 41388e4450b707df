/** The journal engine: commit with its crash points, and recovery. */
module Journal {
  import opened Bytes
  import opened Outcome
  import opened JournalCodec
  import opened CrashDisk
  import opened JournalLog

  /** A running transaction: staged blocks and revoked block numbers. */
  datatype Transaction = Transaction(sequence: u32, blocks: map<nat, Block>, revokes: set<nat>) {
    predicate IsEmpty() {
      blocks == map[] && revokes == {}
    }

    /** The last write to a block within the transaction wins. */
    function Stage(finalBlock: nat, data: Block): Transaction {
      this.(blocks := blocks[finalBlock := data])
    }

    function Revoke(block: nat): Transaction {
      this.(revokes := revokes + {block})
    }
  }

  datatype CrashPoint = NoCrash | AfterCommitBlock | MidCheckpoint(n: nat)

  // ---- key order -----------------------------------------------------------

  ghost predicate IsLeast(s: set<nat>, m: nat) {
    m in s && forall y :: y in s ==> m <= y
  }

  lemma {:induction false} LeastExists(s: set<nat>)
    requires s != {}
    ensures exists m :: IsLeast(s, m)
  {
    var x :| x in s;
    var rest := s - {x};
    if rest == {} {
      assert IsLeast(s, x) by {
        forall y | y in s
          ensures x <= y
        {
          assert y !in rest;
        }
      }
    } else {
      LeastExists(rest);
      var m :| IsLeast(rest, m);
      assert IsLeast(s, if x <= m then x else m) by {
        forall y | y in s
          ensures (if x <= m then x else m) <= y
        {
          assert y == x || y in rest;
        }
      }
    }
  }

  function Least(s: set<nat>): (m: nat)
    requires s != {}
    ensures IsLeast(s, m)
  {
    LeastExists(s);
    assert exists m :: m in s && forall y :: y in s ==> m <= y by {
      var m :| IsLeast(s, m);
      assert m in s;
    }
    var m :| m in s && forall y :: y in s ==> m <= y;
    m
  }

  /** The elements of `s` in increasing order. */
  function Ordered(s: set<nat>): (r: seq<nat>)
  {
    if s == {} then [] else [Least(s)] + Ordered(s - {Least(s)})
  }

  lemma {:induction false} OrderedFacts(s: set<nat>)
    ensures |Ordered(s)| == |s|
    ensures forall x :: x in Ordered(s) <==> x in s
    ensures forall i, j :: 0 <= i < j < |Ordered(s)| ==> Ordered(s)[i] < Ordered(s)[j]
  {
    if s != {} {
      hide Least;
      var m, r := Least(s), Ordered(s - {Least(s)});
      OrderedFacts(s - {m});
      forall j | 0 <= j < |r|
        ensures m < r[j]
      {
        assert r[j] in s - {m};
      }
      assert Ordered(s) == [m] + r;
    }
  }

  /** The entries of `m` in key order. */
  function InOrder(m: map<nat, Block>): (ws: seq<BlockWrite>)
  {
    hide Ordered;
    OrderedFacts(m.Keys);
    var keys := Ordered(m.Keys);
    assert forall i :: 0 <= i < |keys| ==> keys[i] in m;
    seq(|keys|, i requires 0 <= i < |keys| => BlockWrite(keys[i], m[keys[i]]))
  }

  lemma InOrderFacts(m: map<nat, Block>)
    ensures |InOrder(m)| == |m|
    ensures forall i :: 0 <= i < |InOrder(m)| ==>
            InOrder(m)[i].target in m && InOrder(m)[i].data == m[InOrder(m)[i].target]
    ensures DistinctTargets(InOrder(m))
  {
    hide Ordered;
    OrderedFacts(m.Keys);
    var keys := Ordered(m.Keys);
    assert forall i :: 0 <= i < |keys| ==> keys[i] in m;
  }

  /** They are in increasing order. */
  lemma InOrderRises(m: map<nat, Block>)
    ensures forall i, j :: 0 <= i < j < |InOrder(m)| ==> InOrder(m)[i].target < InOrder(m)[j].target
  {
    hide Ordered;
    OrderedFacts(m.Keys);
    var keys := Ordered(m.Keys);
    assert forall i :: 0 <= i < |keys| ==> keys[i] in m;
  }

  /** Every entry of `m` is among the ordered ones. */
  lemma InOrderComplete(m: map<nat, Block>, b: nat) returns (i: nat)
    requires b in m
    ensures i < |InOrder(m)| && InOrder(m)[i] == BlockWrite(b, m[b])
  {
    hide Ordered;
    OrderedFacts(m.Keys);
    var keys := Ordered(m.Keys);
    assert b in keys;
    i :| 0 <= i < |keys| && keys[i] == b;
  }

  // ---- what a commit writes ------------------------------------------------

  /** Every staged block is one whole block of the device, and none belongs to the log. */
  predicate Stageable(geo: Geometry, img: Image, txn: Transaction) {
    forall b :: b in txn.blocks ==> b < |img| && |txn.blocks[b]| == geo.blockSize && !geo.InLog(b)
  }

  /** The ext4 superblock block as it is on disk, or as the transaction staged it. */
  function SuperBuf(geo: Geometry, img: Image, txn: Transaction): (r: Block)
    requires ValidImage(geo, img) && Stageable(geo, img, txn)
    ensures |r| == geo.blockSize
  {
    if geo.SbBlock() in txn.blocks then txn.blocks[geo.SbBlock()] else img[geo.SbBlock()]
  }

  /** Whole-block writes inside the device. */
  predicate WholeBlocks(geo: Geometry, n: nat, ws: seq<BlockWrite>) {
    forall i :: 0 <= i < |ws| ==> ws[i].target < n && |ws[i].data| == geo.blockSize
  }

  predicate SaneLog(geo: Geometry, sb: JournalSuperblock) {
    1 <= sb.first < sb.maxlen <= |geo.logMap|
  }

  /** The staged blocks plus a copy of the ext4 superblock block with RECOVER set. */
  function Journaled(geo: Geometry, img: Image, txn: Transaction): (m: map<nat, Block>)
    requires ValidImage(geo, img) && Stageable(geo, img, txn)
    ensures m.Keys == txn.blocks.Keys + {geo.SbBlock()}
    ensures forall b :: b in m ==> b < |img| && |m[b]| == geo.blockSize && !geo.InLog(b)
    ensures m[geo.SbBlock()] == PatchRecover(geo.crc, SuperBuf(geo, img, txn), geo.SbOff(), true)
    ensures forall b :: b in m && b != geo.SbBlock() ==> m[b] == txn.blocks[b]
  {
    hide PatchRecover;
    txn.blocks[geo.SbBlock() := PatchRecover(geo.crc, SuperBuf(geo, img, txn), geo.SbOff(), true)]
  }

  /** Block numbers are 64-bit. */
  predicate Targets64(ws: seq<BlockWrite>) {
    forall i :: 0 <= i < |ws| ==> ws[i].target < 0x1_0000_0000_0000_0000
  }

  function DataCsum(crc: Crc, seed: u32, sequence: u32, logged: Block): u32 {
    crc(crc(seed, Be32(sequence)), logged)
  }

  function TagFor(geo: Geometry, live: Live, sequence: u32, w: BlockWrite): BlockTag
    requires w.target < 0x1_0000_0000_0000_0000
  {
    BlockTag(w.target,
             if StartsWithMagic(w.data) then 1 else 0,
             if live.hasCsum then DataCsum(geo.crc, live.seed, sequence, EscapeData(w.data)) else 0)
  }

  function TagsFor(geo: Geometry, live: Live, sequence: u32, ws: seq<BlockWrite>): (r: seq<BlockTag>)
    requires Targets64(ws)
    ensures |r| == |ws|
    ensures forall i :: 0 <= i < |ws| ==> r[i] == TagFor(geo, live, sequence, ws[i])
  {
    hide TagFor;
    seq(|ws|, i requires 0 <= i < |ws| => TagFor(geo, live, sequence, ws[i]))
  }

  function LoggedCopies(ws: seq<BlockWrite>): (r: seq<Block>)
    ensures |r| == |ws|
    ensures forall i :: 0 <= i < |ws| ==> r[i] == EscapeData(ws[i].data)
  {
    hide EscapeData;
    seq(|ws|, i requires 0 <= i < |ws| => EscapeData(ws[i].data))
  }

  function RevokeBlocks(geo: Geometry, live: Live, txn: Transaction): (r: seq<Block>)
    requires geo.blockSize < 0x1_0000_0000
    requires RevokesFit(|txn.revokes|, geo.blockSize, live.has64, false) && Numbers64(txn.revokes)
    ensures |r| == if txn.revokes == {} then 0 else 1
    ensures forall i :: 0 <= i < |r| ==> |r[i]| == geo.blockSize
  {
    hide RevokeBlock, Ordered;
    if txn.revokes == {} then []
    else [RevokeBlock(geo.crc, live.seed, txn.sequence, Revoked64(txn.revokes), geo.blockSize, live.has64,
        live.hasCsum)]
  }

  /** What the source demands of a transaction it is asked to commit; it panics otherwise. */
  predicate Committable(geo: Geometry, img: Image, live: Live, txn: Transaction) {
    && Stageable(geo, img, txn) && |img| <= 0x1_0000_0000_0000_0000
    && RevokesFit(|txn.revokes|, geo.blockSize, live.has64, false) && Numbers64(txn.revokes)
  }

  predicate Numbers64(s: set<nat>) {
    forall b :: b in s ==> b < 0x1_0000_0000_0000_0000
  }

  function Revoked64(s: set<nat>): (r: seq<u64>)
    requires Numbers64(s)
    ensures |r| == |s| && r == Ordered(s)
  {
    hide Ordered;
    OrderedFacts(s);
    var r := Ordered(s);
    assert forall i :: 0 <= i < |r| ==> r[i] in s;
    r
  }

  function JournaledCount(geo: Geometry, txn: Transaction): nat {
    |txn.blocks.Keys + {geo.SbBlock()}|
  }

  /** The journaled blocks in the order they are logged and checkpointed. */
  function JournaledWrites(geo: Geometry, img: Image, txn: Transaction): (ws: seq<BlockWrite>)
    requires ValidImage(geo, img) && Stageable(geo, img, txn)
    ensures |ws| == JournaledCount(geo, txn) && WholeBlocks(geo, |img|, ws)
  {
    hide PatchRecover, InOrder;
    var m := Journaled(geo, img, txn);
    InOrderFacts(m);
    InOrder(m)
  }

  /** The source goes ahead with the commit: the log is sane and the tags fit one descriptor block. */
  predicate Ready(geo: Geometry, img: Image, live: Live, txn: Transaction)
    requires ValidImage(geo, img)
  {
    && SaneLog(geo, live.sb) && Committable(geo, img, live, txn)
    && JournaledCount(geo, txn) <= TagCapacity(geo.blockSize, live.fmt, live.has64, live.hasCsum)
  }

  /** The blocks of the log body, in log order: descriptor, escaped data, revoke block. */
  function Body(geo: Geometry, img: Image, live: Live, txn: Transaction): (r: seq<Block>)
    requires ValidImage(geo, img) && Ready(geo, img, live, txn)
    ensures Stageable(geo, img, txn) && |r| == 1 + JournaledCount(geo, txn) + if txn.revokes == {} then 0 else 1
  {
    hide DescriptorBlock, TagsFor, LoggedCopies, RevokeBlocks, TagCapacity, JournaledWrites;
    var ws := JournaledWrites(geo, img, txn);
    assert geo.SbBlock() in txn.blocks.Keys + {geo.SbBlock()};
    [DescriptorBlock(geo.crc, live.seed, txn.sequence, geo.blockSize, live.fmt, live.has64, live.hasCsum,
                     TagsFor(geo, live, txn.sequence, ws))]
    + LoggedCopies(ws) + RevokeBlocks(geo, live, txn)
  }

  lemma BodyWhole(geo: Geometry, img: Image, live: Live, txn: Transaction)
    requires ValidImage(geo, img) && Ready(geo, img, live, txn)
    ensures forall i :: 0 <= i < |Body(geo, img, live, txn)| ==> |Body(geo, img, live, txn)[i]| == geo.blockSize
  {
    hide DescriptorBlock, TagsFor, RevokeBlocks, TagCapacity, EscapeData, JournaledWrites;
  }

  /** Device block of the `i`-th block of a transaction logged from `s_first`. */
  function LogTarget(geo: Geometry, sb: JournalSuperblock, i: nat): nat {
    geo.Map(AdvanceBy(sb.first, sb.maxlen, sb.first, i))
  }

  function LogWrites(geo: Geometry, sb: JournalSuperblock, blocks: seq<Block>): (r: seq<BlockWrite>)
    ensures |r| == |blocks|
    ensures forall i :: 0 <= i < |r| ==> r[i] == BlockWrite(LogTarget(geo, sb, i), blocks[i])
  {
    seq(|blocks|, i requires 0 <= i < |blocks| => BlockWrite(LogTarget(geo, sb, i), blocks[i]))
  }

  /** Body, then the dirty mark, the commit block, RECOVER on, the checkpoint, the clean mark, RECOVER off. */
  datatype Epochs = Epochs(body: seq<BlockWrite>, dirty: BlockWrite, commit: BlockWrite, recoverOn: BlockWrite,
                           checkpoint: seq<BlockWrite>, clean: BlockWrite, recoverOff: BlockWrite) {
    function All(): seq<seq<BlockWrite>> {
      [body, [dirty], [commit], [recoverOn], checkpoint, [clean], [recoverOff]]
    }
  }

  /** The batches of writes of a full commit. */
  function CommitEpochs(geo: Geometry, img: Image, live: Live, txn: Transaction): Epochs
    requires ValidImage(geo, img) && Ready(geo, img, live, txn)
  {
    hide Body, CommitBlock, UpdateSuperblock, PatchRecover, JournaledWrites, TagCapacity, RevokesFit;
    var sb := live.sb;
    var body := Body(geo, img, live, txn);
    var head := UpdateSuperblock(geo.crc, LogBlock(geo, img, 0), txn.sequence, sb.first, live.hasCsum);
    Epochs(LogWrites(geo, sb, body),
           BlockWrite(geo.Map(0), head),
           BlockWrite(LogTarget(geo, sb, |body|),
               CommitBlock(geo.crc, live.seed, txn.sequence, geo.blockSize, live.hasCsum)),
           BlockWrite(geo.SbBlock(), PatchRecover(geo.crc, img[geo.SbBlock()], geo.SbOff(), true)),
           JournaledWrites(geo, img, txn),
           BlockWrite(geo.Map(0), UpdateSuperblock(geo.crc, head, WrappingAdd1(txn.sequence), 0, live.hasCsum)),
           BlockWrite(geo.SbBlock(), PatchRecover(geo.crc, SuperBuf(geo, img, txn), geo.SbOff(), false)))
  }

  /** The trace of a commit that stops at `crash`. */
  function StoppedTrace(e: Epochs, crash: CrashPoint): seq<Op> {
    match crash
    case NoCrash => Trace(e.All())
    case AfterCommitBlock => Trace(e.All()[..4])
    case MidCheckpoint(n) =>
      if n < |e.checkpoint| then Trace(e.All()[..4]) + Writes(e.checkpoint[..n]) else Trace(e.All())
  }

  /** What the source demands of the image and the transaction when it starts a commit. */
  predicate CommitPre(geo: Geometry, img: Image, txn: Transaction) {
    && ValidImage(geo, img)
    && (LiveSb(geo, img).Ok? ==>
          SaneLog(geo, LiveSb(geo, img).value.sb) && Committable(geo, img, LiveSb(geo, img).value, txn))
  }

  /** Everything a commit does to the device, or the error it returns before touching it. */
  function CommitTrace(geo: Geometry, img: Image, txn: Transaction, crash: CrashPoint): Result<seq<Op>>
    requires CommitPre(geo, img, txn)
  {
    hide LiveSb, TagCapacity, RevokesFit, CommitEpochs;
    if txn.IsEmpty() then Ok([])
    else
      var live :- LiveSb(geo, img);
      if JournaledCount(geo, txn) > TagCapacity(geo.blockSize, live.fmt, live.has64, live.hasCsum) then Err(ENOSPC)
      else Ok(StoppedTrace(CommitEpochs(geo, img, live, txn), crash))
  }

  // ---- commit, step by step ------------------------------------------------

  lemma TraceMore(done: seq<seq<BlockWrite>>, ws: seq<BlockWrite>)
    ensures Trace(done + [ws]) == Trace(done) + Writes(ws) + [Flush]
  {
    var all := done + [ws];
    assert all[..|all| - 1] == done;
  }

  lemma WritesMore(ws: seq<BlockWrite>, w: BlockWrite)
    ensures Writes(ws + [w]) == Writes(ws) + [Write(w)]
  {
  }

  lemma NoWrites(ws: seq<BlockWrite>, t: seq<Op>)
    ensures ws[..0] == [] && t + Writes(ws[..0]) == t
  {
  }

  /** A cursor inside the log area is clear of the journal superblock and of the ext4 superblock. */
  lemma CursorApart(geo: Geometry, n: nat, sb: JournalSuperblock, cursor: nat)
    requires geo.Valid(n) && SaneLog(geo, sb) && sb.first <= cursor < sb.maxlen
    ensures geo.Map(cursor) < n && geo.InLog(geo.Map(cursor))
    ensures geo.Map(cursor) != geo.Map(0) && geo.Map(cursor) != geo.SbBlock()
  {
  }

  /** Read the journal superblock, patch its head, write it back and flush. */
  method MoveHead(geo: Geometry, dev: Device, sequence: u32, start: u32, hasCsum: bool)
    requires dev.Valid() && ValidImage(geo, dev.cells)
    modifies dev
    ensures dev.Valid() && dev.origin == old(dev.origin) && ValidImage(geo, dev.cells)
    ensures var head := UpdateSuperblock(geo.crc, LogBlock(geo, old(dev.cells), 0), sequence, start, hasCsum);
            && dev.cells == old(dev.cells)[geo.Map(0) := head]
            && dev.trace == old(dev.trace) + [Write(BlockWrite(geo.Map(0), head)), Flush]
  {
    hide UpdateSuperblock;
    var sbBlock := LogBlock(geo, dev.cells, 0);
    sbBlock := UpdateSuperblock(geo.crc, sbBlock, sequence, start, hasCsum);
    dev.Write(geo.Map(0), sbBlock);
    dev.Flush();
  }

  /** Set or clear RECOVER in the on-disk ext4 superblock and flush. */
  method MarkRecover(geo: Geometry, dev: Device, on: bool)
    requires dev.Valid() && ValidImage(geo, dev.cells)
    modifies dev
    ensures dev.Valid() && dev.origin == old(dev.origin) && ValidImage(geo, dev.cells)
    ensures var patched := PatchRecover(geo.crc, old(dev.cells)[geo.SbBlock()], geo.SbOff(), on);
            && dev.cells == old(dev.cells)[geo.SbBlock() := patched]
            && dev.trace == old(dev.trace) + [Write(BlockWrite(geo.SbBlock(), patched)), Flush]
  {
    hide PatchRecover;
    dev.Write(geo.SbBlock(), PatchRecover(geo.crc, dev.cells[geo.SbBlock()], geo.SbOff(), on));
    dev.Flush();
  }

  /** Write the blocks of the log body at the moving, wrapping cursor. */
  method WriteBody(geo: Geometry, dev: Device, sb: JournalSuperblock, blocks: seq<Block>) returns (cursor: nat)
    requires dev.Valid() && ValidImage(geo, dev.cells) && SaneLog(geo, sb)
    requires forall i :: 0 <= i < |blocks| ==> |blocks[i]| == geo.blockSize
    modifies dev
    ensures dev.Valid() && dev.origin == old(dev.origin) && ValidImage(geo, dev.cells)
    ensures |dev.cells| == |old(dev.cells)|
    ensures dev.cells[geo.Map(0)] == old(dev.cells)[geo.Map(0)]
    ensures dev.cells[geo.SbBlock()] == old(dev.cells)[geo.SbBlock()]
    ensures dev.trace == old(dev.trace) + Writes(LogWrites(geo, sb, blocks)) + [Flush]
    ensures cursor == AdvanceBy(sb.first, sb.maxlen, sb.first, |blocks|) && sb.first <= cursor < sb.maxlen
  {
    hide View, OpsInRange, Writes, Splice;
    cursor := sb.first;
    ghost var ws := LogWrites(geo, sb, blocks);
    ghost var t := dev.trace;
    NoWrites(ws, t);
    for i := 0 to |blocks|
      invariant cursor == AdvanceBy(sb.first, sb.maxlen, sb.first, i) && sb.first <= cursor < sb.maxlen
      invariant dev.Valid() && dev.origin == old(dev.origin) && ValidImage(geo, dev.cells)
      invariant |dev.cells| == |old(dev.cells)|
      invariant dev.cells[geo.Map(0)] == old(dev.cells)[geo.Map(0)]
      invariant dev.cells[geo.SbBlock()] == old(dev.cells)[geo.SbBlock()]
      invariant dev.trace == t + Writes(ws[..i])
    {
      CursorApart(geo, |dev.cells|, sb, cursor);
      dev.Write(geo.Map(cursor), blocks[i]);
      assert ws[..i + 1] == ws[..i] + [ws[i]];
      WritesMore(ws[..i], ws[i]);
      AdvanceOne(sb, sb.first, i);
      cursor := Advance(sb.first, sb.maxlen, cursor);
    }
    assert ws[..|ws|] == ws;
    dev.Flush();
  }

  lemma {:induction false} AdvanceOne(sb: JournalSuperblock, cursor: nat, n: nat)
    ensures AdvanceBy(sb.first, sb.maxlen, cursor, n + 1)
         == Advance(sb.first, sb.maxlen, AdvanceBy(sb.first, sb.maxlen, cursor, n))
    decreases n
  {
    if n > 0 {
      AdvanceOne(sb, Advance(sb.first, sb.maxlen, cursor), n - 1);
    }
  }

  /** Write the first `limit` journaled blocks, un-escaped, to their final places. */
  method Checkpoint(geo: Geometry, dev: Device, ws: seq<BlockWrite>, limit: nat)
    requires dev.Valid() && ValidImage(geo, dev.cells) && WholeBlocks(geo, |dev.cells|, ws) && limit <= |ws|
    modifies dev
    ensures dev.Valid() && dev.origin == old(dev.origin) && ValidImage(geo, dev.cells)
    ensures |dev.cells| == |old(dev.cells)| && InRange(old(dev.cells), ws[..limit])
    ensures dev.cells == Apply(old(dev.cells), ws[..limit])
    ensures dev.trace == old(dev.trace) + Writes(ws[..limit])
  {
    ghost var t := dev.trace;
    NoWrites(ws, t);
    for i := 0 to limit
      invariant dev.Valid() && dev.origin == old(dev.origin) && ValidImage(geo, dev.cells)
      invariant |dev.cells| == |old(dev.cells)| && InRange(old(dev.cells), ws[..i])
      invariant dev.cells == Apply(old(dev.cells), ws[..i])
      invariant dev.trace == t + Writes(ws[..i])
    {
      ghost var before := dev.cells;
      dev.Write(ws[i].target, ws[i].data);
      assert ws[..i + 1] == ws[..i] + [ws[i]];
      ApplyConcat(old(dev.cells), ws[..i], [ws[i]]);
      ApplyOne(before, ws[i]);
      WritesMore(ws[..i], ws[i]);
    }
  }

  lemma ApplyOne(img: Image, w: BlockWrite)
    requires w.target < |img|
    ensures Apply(img, [w]) == img[w.target := w.data]
  {
  }

  /** Build the tags and the logged copies of the journaled blocks. */
  method BuildLog(geo: Geometry, live: Live, sequence: u32, ws: seq<BlockWrite>)
      returns (tags: seq<BlockTag>, copies: seq<Block>)
    requires Targets64(ws)
    ensures tags == TagsFor(geo, live, sequence, ws) && copies == LoggedCopies(ws)
  {
    hide EscapeData, StartsWithMagic;
    tags, copies := [], [];
    for i := 0 to |ws|
      invariant |tags| == i && |copies| == i
      invariant forall k :: 0 <= k < i ==>
              tags[k] == TagFor(geo, live, sequence, ws[k]) && copies[k] == EscapeData(ws[k].data)
    {
      var w := ws[i];
      var flags: u16 := 0;
      if StartsWithMagic(w.data) {
        flags := 1;
      }
      var logged := EscapeData(w.data);
      var checksum: u32 := 0;
      if live.hasCsum {
        checksum := DataCsum(geo.crc, live.seed, sequence, logged);
      }
      tags := tags + [BlockTag(w.target, flags, checksum)];
      copies := copies + [logged];
    }
  }

  /** The log body is built and written; what the later steps rely on is untouched. */
  method LogTransaction(geo: Geometry, dev: Device, live: Live, txn: Transaction, ws: seq<BlockWrite>)
      returns (cursor: nat)
    requires dev.Valid() && ValidImage(geo, dev.cells) && Ready(geo, dev.cells, live, txn)
    requires ws == JournaledWrites(geo, dev.cells, txn)
    modifies dev
    ensures dev.Valid() && dev.origin == old(dev.origin) && ValidImage(geo, dev.cells)
    ensures |dev.cells| == |old(dev.cells)|
    ensures dev.cells[geo.Map(0)] == old(dev.cells)[geo.Map(0)]
    ensures dev.cells[geo.SbBlock()] == old(dev.cells)[geo.SbBlock()]
    ensures dev.trace == old(dev.trace) + Writes(LogWrites(geo, live.sb, Body(geo, old(dev.cells), live, txn)))
            + [Flush]
    ensures cursor == AdvanceBy(live.sb.first, live.sb.maxlen, live.sb.first, |Body(geo, old(dev.cells), live, txn)|)
    ensures live.sb.first <= cursor < live.sb.maxlen
  {
    hide DescriptorBlock, RevokeBlocks, JournaledWrites, TagsFor, LoggedCopies, LogWrites, AdvanceBy, TagCapacity;
    hide RevokesFit;
    assert geo.SbBlock() in txn.blocks.Keys + {geo.SbBlock()};
    var tags, copies := BuildLog(geo, live, txn.sequence, ws);
    var descriptor := AssembleDescriptor(geo.crc, live.seed, txn.sequence, geo.blockSize, live.fmt, live.has64,
        live.hasCsum, tags);
    BodyWhole(geo, dev.cells, live, txn);
    cursor := WriteBody(geo, dev, live.sb, [descriptor] + copies + RevokeBlocks(geo, live, txn));
  }

  /** Log body, dirty mark, commit block and RECOVER flag, each batch flushed before the next. */
  method LogAndCommit(geo: Geometry, dev: Device, live: Live, txn: Transaction, ws: seq<BlockWrite>)
    requires dev.Valid() && ValidImage(geo, dev.cells) && Ready(geo, dev.cells, live, txn)
    requires ws == JournaledWrites(geo, dev.cells, txn)
    modifies dev
    ensures dev.Valid() && dev.origin == old(dev.origin) && ValidImage(geo, dev.cells)
    ensures |dev.cells| == |old(dev.cells)|
    ensures dev.cells[geo.Map(0)] == CommitEpochs(geo, old(dev.cells), live, txn).dirty.data
    ensures dev.trace == old(dev.trace) + Trace(CommitEpochs(geo, old(dev.cells), live, txn).All()[..4])
  {
    hide JournaledWrites, Body, CommitBlock, UpdateSuperblock, PatchRecover, Trace, Writes, LogWrites, TagCapacity;
    hide RevokesFit;
    hide AdvanceBy, View, OpsInRange, Committable, Epochs.All;
    ghost var e := CommitEpochs(geo, dev.cells, live, txn);
    var cursor := LogTransaction(geo, dev, live, txn, ws);
    MoveHead(geo, dev, txn.sequence, live.sb.first, live.hasCsum);
    var commitBlock := CommitBlock(geo.crc, live.seed, txn.sequence, geo.blockSize, live.hasCsum);
    dev.Write(geo.Map(cursor), commitBlock);
    dev.Flush();
    MarkRecover(geo, dev, true);
    FourEpochs(e);
  }

  lemma FourEpochs(e: Epochs)
    ensures Trace(e.All()[..4])
         == Writes(e.body) + [Flush] + [Write(e.dirty), Flush] + [Write(e.commit)] + [Flush]
             + [Write(e.recoverOn), Flush]
  {
    hide Trace;
    EmptyTrace();
    TraceMore([], e.body);
    TraceMore([e.body], [e.dirty]);
    TraceMore([e.body, [e.dirty]], [e.commit]);
    TraceMore([e.body, [e.dirty], [e.commit]], [e.recoverOn]);
    assert [] + [e.body] == [e.body];
    assert [e.body] + [[e.dirty]] == [e.body, [e.dirty]];
    assert [e.body, [e.dirty]] + [[e.commit]] == [e.body, [e.dirty], [e.commit]];
    assert e.All()[..4] == [e.body, [e.dirty], [e.commit]] + [[e.recoverOn]];
  }

  lemma EmptyTrace()
    ensures Trace([]) == []
  {
  }

  lemma SevenEpochs(e: Epochs)
    ensures Trace(e.All())
         == Trace(e.All()[..4]) + Writes(e.checkpoint) + [Flush] + [Write(e.clean), Flush]
             + [Write(e.recoverOff), Flush]
  {
    hide Trace;
    TraceMore(e.All()[..4], e.checkpoint);
    TraceMore(e.All()[..5], [e.clean]);
    TraceMore(e.All()[..6], [e.recoverOff]);
    assert e.All()[..4] + [e.checkpoint] == e.All()[..5];
    assert e.All()[..5] + [[e.clean]] == e.All()[..6];
    assert e.All()[..6] + [[e.recoverOff]] == e.All();
  }

  /** The checkpoint leaves the journal superblock alone and decides the ext4 superblock. */
  lemma CheckpointEffect(geo: Geometry, img: Image, cells: Image, txn: Transaction)
    requires ValidImage(geo, img) && Stageable(geo, img, txn) && |cells| == |img|
    ensures var ws := JournaledWrites(geo, img, txn);
            && InRange(cells, ws)
            && (forall b :: 0 <= b < |img| && geo.InLog(b) ==> Apply(cells, ws)[b] == cells[b])
            && Apply(cells, ws)[geo.SbBlock()] == PatchRecover(geo.crc, SuperBuf(geo, img, txn), geo.SbOff(), true)
  {
    hide PatchRecover, InOrder, Apply;
    var m := Journaled(geo, img, txn);
    var ws := JournaledWrites(geo, img, txn);
    InOrderFacts(m);
    forall b | 0 <= b < |img| && geo.InLog(b)
      ensures Apply(cells, ws)[b] == cells[b]
    {
      ApplyBlock(cells, ws, b);
    }
    var i := InOrderComplete(m, geo.SbBlock());
    ApplyDistinct(cells, ws, i);
  }

  /** Log the transaction, mark the journal dirty, commit, checkpoint, mark it clean. */
  method CommitWithCrash(geo: Geometry, dev: Device, txn: Transaction, crash: CrashPoint) returns (r: Result<()>)
    requires dev.Valid() && CommitPre(geo, dev.cells, txn)
    modifies dev
    ensures dev.Valid() && dev.origin == old(dev.origin)
    ensures var t := CommitTrace(geo, old(dev.cells), txn, crash);
            && (r.Ok? <==> t.Ok?)
            && (t.Err? ==> r == Err(t.errno) && dev.cells == old(dev.cells) && dev.trace == old(dev.trace))
            && (t.Ok? ==> dev.trace == old(dev.trace) + t.value)
  {
    hide LiveSb, TagCapacity, RevokesFit, JournaledWrites, Body, CommitBlock, UpdateSuperblock, PatchRecover, Trace;
    hide Writes, LogWrites;
    if txn.IsEmpty() {
      return Ok(());
    }
    var live :- LiveSb(geo, dev.cells);
    var ws := JournaledWrites(geo, dev.cells, txn);
    if |ws| > TagCapacity(geo.blockSize, live.fmt, live.has64, live.hasCsum) {
      return Err(ENOSPC);
    }
    CommitReady(geo, dev, live, txn, ws, crash);
    return Ok(());
  }

  /** The steps of a commit once the descriptor is known to hold every tag. */
  method CommitReady(geo: Geometry, dev: Device, live: Live, txn: Transaction, ws: seq<BlockWrite>, crash: CrashPoint)
    requires dev.Valid() && ValidImage(geo, dev.cells) && Ready(geo, dev.cells, live, txn)
    requires ws == JournaledWrites(geo, dev.cells, txn)
    modifies dev
    ensures dev.Valid() && dev.origin == old(dev.origin)
    ensures dev.trace == old(dev.trace) + StoppedTrace(CommitEpochs(geo, old(dev.cells), live, txn), crash)
  {
    hide JournaledWrites, Body, CommitBlock, UpdateSuperblock, PatchRecover, Trace, Writes, LogWrites, TagCapacity;
    hide RevokesFit, Apply;
    hide AdvanceBy, View, OpsInRange, Committable, Epochs.All, WholeBlocks;
    ghost var e, img := CommitEpochs(geo, dev.cells, live, txn), dev.cells;
    LogAndCommit(geo, dev, live, txn, ws);
    if crash == AfterCommitBlock {
      return;
    }
    if crash.MidCheckpoint? && crash.n < |ws| {
      Checkpoint(geo, dev, ws, crash.n);
      return;
    }
    CheckpointAndClean(geo, dev, live, txn, ws, img);
    SevenEpochs(e);
  }

  /** The whole checkpoint, then the clean mark and RECOVER off, each flushed. */
  method CheckpointAndClean(geo: Geometry, dev: Device, live: Live, txn: Transaction, ws: seq<BlockWrite>,
      ghost img: Image)
    requires dev.Valid() && ValidImage(geo, dev.cells) && |dev.cells| == |img|
    requires ValidImage(geo, img) && Ready(geo, img, live, txn) && ws == JournaledWrites(geo, img, txn)
    requires dev.cells[geo.Map(0)] == CommitEpochs(geo, img, live, txn).dirty.data
    modifies dev
    ensures dev.Valid() && dev.origin == old(dev.origin)
    ensures var e := CommitEpochs(geo, img, live, txn);
            dev.trace == old(dev.trace) + Writes(e.checkpoint) + [Flush] + [Write(e.clean), Flush]
                + [Write(e.recoverOff), Flush]
  {
    hide JournaledWrites, Body, CommitBlock, UpdateSuperblock, PatchRecover, Writes, LogWrites, TagCapacity, RevokesFit;
    hide Apply;
    hide AdvanceBy, View, OpsInRange, Committable;
    CheckpointEffect(geo, img, dev.cells, txn);
    assert ws[..|ws|] == ws;
    Checkpoint(geo, dev, ws, |ws|);
    dev.Flush();
    assert geo.InLog(geo.Map(0));
    MoveHead(geo, dev, WrappingAdd1(txn.sequence), 0, live.hasCsum);
    PatchRecoverTwice(geo.crc, SuperBuf(geo, img, txn), geo.SbOff(), true, false);
    MarkRecover(geo, dev, false);
  }
}
