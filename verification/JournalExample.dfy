/** A small journal: transactions that meet the conditions of the crash theorems, and two that break one each. */
module JournalExample {
  import opened Bytes
  import opened Outcome
  import opened JournalCodec
  import opened CrashDisk
  import opened JournalLog
  import opened Journal
  import opened JournalRecovery
  import opened JournalReplay
  import opened JournalQuiet
  import opened JournalCommitted
  import opened JournalCrash
  import opened JournalAtomic
  import opened JournalCrashSafe
  import opened JournalLimits

  const BLOCKS: nat := 14

  /** Six 1 KiB blocks of journal behind the ext4 superblock and one block of data. */
  function Geo(crc: Crc): Geometry {
    Geometry(1024, crc, seq(6, i => i + 3))
  }

  /** A clean journal superblock: six blocks, the log area from 1 on, next sequence 1, no features. */
  function Head(): (r: Block)
    ensures |r| == 1024
  {
    var a := PutBe32(Zeros(1024), 0, MAGIC);
    var b := PutBe32(a, 4, 4);
    var c := PutBe32(b, 16, 6);
    var d := PutBe32(c, 20, 1);
    PutBe32(d, 24, 1)
  }

  function Disk0(): (r: Image)
    ensures |r| == BLOCKS
  {
    seq(BLOCKS, i => if i == 3 then Head() else Zeros(1024))
  }

  function Txn(data: Block): Transaction {
    Transaction(1, map[2 := data], {})
  }

  lemma ZeroField(buf: seq<byte>, off: nat)
    requires off + 4 <= |buf| && forall k :: off <= k < off + 4 ==> buf[k] == 0
    ensures GetBe32(buf, off) == 0
  {
    var z := buf[off..off + 4];
    assert z[..4] == z;
    ZeroValue(z);
  }

  lemma {:induction false} ZeroValue(z: seq<byte>)
    requires forall k :: 0 <= k < |z| ==> z[k] == 0
    ensures BeValue(z) == 0
  {
    if z != [] {
      ZeroValue(z[..|z| - 1]);
    }
  }

  lemma HeadParses()
    ensures ParseJournalSuperblock(Head()).Ok?
    ensures var sb := ParseJournalSuperblock(Head()).value;
            sb.maxlen == 6 && sb.first == 1 && sb.sequence == 1 && sb.start == 0 && sb.featureIncompat == 0
  {
    hide BeValue, Be32;
    var a := PutBe32(Zeros(1024), 0, MAGIC);
    var b := PutBe32(a, 4, 4);
    var c := PutBe32(b, 16, 6);
    var d := PutBe32(c, 20, 1);
    var r := Head();
    SameField(a, r, 0);
    SameField(c, r, 16);
    SameField(d, r, 20);
    ZeroField(r, 28);
    ZeroField(r, 40);
  }

  lemma GeoValid(crc: Crc)
    ensures Geo(crc).Valid(BLOCKS) && Geo(crc).Map(0) == 3
  {
    var geo := Geo(crc);
    assert |geo.logMap| == 6 && forall i :: 0 <= i < 6 ==> geo.logMap[i] == i + 3;
    assert geo.SbBlock() == 1 && !geo.InLog(1);
  }

  lemma DiskValid(crc: Crc)
    ensures ValidImage(Geo(crc), Disk0()) && LiveSb(Geo(crc), Disk0()).Ok?
    ensures var live := LiveSb(Geo(crc), Disk0()).value;
            && live.sb.maxlen == 6 && live.sb.first == 1 && live.sb.sequence == 1 && live.sb.start == 0
            && !live.has64 && !live.hasCsum && live.fmt != V3 && SaneLog(Geo(crc), live.sb)
  {
    assert |Head()| == 1024;
    hide ParseJournalSuperblock, Head;
    var geo := Geo(crc);
    GeoValid(crc);
    hide Geometry.Valid;
    HeadParses();
    assert LogBlock(geo, Disk0(), 0) == Head();
  }

  lemma LogIsBlank(crc: Crc, pos: nat)
    requires 1 <= pos < 6 && ValidImage(Geo(crc), Disk0())
    ensures LogBlock(Geo(crc), Disk0(), pos) == Zeros(1024) && GetBe32(LogBlock(Geo(crc), Disk0(), pos), 0) == 0
  {
    hide Head;
    ZeroField(Zeros(1024), 0);
  }

  lemma DiskQuiet(crc: Crc)
    ensures Quiet(Geo(crc), Disk0(), 1)
  {
    hide LiveSb, LogBlock, Head;
    DiskValid(crc);
    var geo := Geo(crc);
    var live := LiveSb(geo, Disk0()).value;
    forall pos | live.sb.first <= pos < live.sb.maxlen
      ensures QuietBlock(live, LogBlock(geo, Disk0(), pos), 1)
    {
      LogIsBlank(crc, pos);
    }
  }

  /**
   The conditions of the crash theorems can be met, by a commit of any block, and even a crash before its first write
   counts.
   */
  lemma Satisfiable(crc: Crc, data: Block)
    requires |data| == 1024
    ensures ValidImage(Geo(crc), Disk0()) && LiveSb(Geo(crc), Disk0()).Ok?
    ensures var live := LiveSb(Geo(crc), Disk0()).value;
            && Startable(Geo(crc), Disk0(), live, Txn(data)) && FitsLog(Geo(crc), live.sb, Txn(data))
            && Harmless(Geo(crc), Disk0(), Txn(data), Txn(data).revokes)
            && CrashImage(Geo(crc), Disk0(), Txn(data), NoCrash, Disk0())
  {
    hide LiveSb, LogBlock, Head, CommitEpochs;
    var geo, txn := Geo(crc), Txn(data);
    DiskValid(crc);
    DiskQuiet(crc);
    var live := LiveSb(geo, Disk0()).value;
    assert txn.blocks.Keys + {geo.SbBlock()} == {1, 2};
    assert Stageable(geo, Disk0(), txn);
    StartableTrace(geo, Disk0(), live, txn, NoCrash);
    NoOps(Disk0(), CommitTrace(geo, Disk0(), txn, NoCrash).value);
  }

  lemma NoOps(img: Image, ops: seq<Op>)
    ensures CrashDuring(img, ops, img)
  {
    var none: seq<bool> := [];
    assert ops[..0] == [];
    assert Survivor(img, [], none) == img;
    assert CrashAfter(img, ops[..0], img);
  }

  // ---- transactions beyond the limits ------------------------------------------------------------------------

  /** Three blocks: with the superblock's copy, descriptor and commit block they need six log blocks, of five. */
  function BigTxn(data: Block): Transaction {
    Transaction(1, map[2 := data, 11 := data, 12 := data], {})
  }

  /** One block both staged and revoked. */
  function RevokedTxn(data: Block): Transaction {
    Transaction(1, map[2 := data], {2})
  }

  /** Staging a block that was blank changes the file system. */
  lemma StagingShows(crc: Crc, txn: Transaction, data: Block)
    requires |data| == 1024 && data[0] != 0 && 2 in txn.blocks && txn.blocks[2] == data
    ensures ValidImage(Geo(crc), Disk0()) && !SameFs(Geo(crc), Disk0(), Staged(Disk0(), txn))
  {
    hide Head, PatchRecover;
    DiskValid(crc);
    var geo := Geo(crc);
    assert !geo.InLog(2) && geo.SbBlock() != 2;
    assert Disk0()[2] == Zeros(1024);
    assert Disk0()[2][0] != Staged(Disk0(), txn)[2][0];
  }

  lemma BigCount(crc: Crc, data: Block)
    ensures JournaledCount(Geo(crc), BigTxn(data)) == 4
  {
    assert BigTxn(data).blocks.Keys + {Geo(crc).SbBlock()} == {1, 2, 11, 12};
  }

  /**
   A transaction larger than the log is accepted and its commit returns, but power lost right after its commit block
   became durable loses it: recovery does not give the staged file system.
   */
  lemma OversizedIsLost(crc: Crc, data: Block)
    requires |data| == 1024 && data[0] != 0
    ensures ValidImage(Geo(crc), Disk0()) && LiveSb(Geo(crc), Disk0()).Ok?
    ensures var live := LiveSb(Geo(crc), Disk0()).value;
            Startable(Geo(crc), Disk0(), live, BigTxn(data)) && !FitsLog(Geo(crc), live.sb, BigTxn(data))
    ensures exists c :: LostIn(Geo(crc), Disk0(), BigTxn(data), c)
  {
    hide LiveSb, LogBlock, Head, CommitEpochs, StagesOf, JournaledCount, SameFs, CrashImage, RecoverPre, Recovered;
    hide Harmless, Staged;
    var geo, txn := Geo(crc), BigTxn(data);
    DiskValid(crc);
    DiskQuiet(crc);
    BigCount(crc, data);
    var live := LiveSb(geo, Disk0()).value;
    assert txn.blocks != map[] by { assert 2 in txn.blocks; }
    assert Stageable(geo, Disk0(), txn);
    DurableIff(geo, Disk0(), live, txn);
    StagingShows(crc, txn, data);
    assert LostIn(geo, Disk0(), txn, StagesOf(Disk0(), CommitEpochs(geo, Disk0(), live, txn)).recoverOn);
  }

  /**
   `c` is a crash image with the commit block on its way to being durable, and recovering it loses the transaction.
   */
  ghost predicate LostIn(geo: Geometry, img: Image, txn: Transaction, c: Image) {
    && CrashImage(geo, img, txn, AfterCommitBlock, c) && RecoverPre(geo, c) && Recovered(geo, c).Ok?
    && !SameFs(geo, Recovered(geo, c).value, Staged(img, txn))
  }

  /** `c` is a crash image of the commit that recovers to neither all nor nothing of the transaction. */
  ghost predicate TornIn(geo: Geometry, img: Image, txn: Transaction, c: Image) {
    CrashImage(geo, img, txn, NoCrash, c) && !AllOrNothing(geo, img, txn, c)
  }

  /** A block both staged and revoked: some crash leaves neither all nor nothing of the transaction. */
  lemma RevokedIsTorn(crc: Crc, data: Block)
    requires |data| == 1024 && data[0] != 0
    ensures ValidImage(Geo(crc), Disk0()) && LiveSb(Geo(crc), Disk0()).Ok?
    ensures var live := LiveSb(Geo(crc), Disk0()).value;
            && Startable(Geo(crc), Disk0(), live, RevokedTxn(data)) && FitsLog(Geo(crc), live.sb, RevokedTxn(data))
            && !Harmless(Geo(crc), Disk0(), RevokedTxn(data), RevokedTxn(data).revokes)
    ensures exists c :: TornIn(Geo(crc), Disk0(), RevokedTxn(data), c)
  {
    hide LiveSb, LogBlock, Head, CommitEpochs, CrashImage, AllOrNothing, PatchRecover;
    var geo, txn := Geo(crc), RevokedTxn(data);
    DiskValid(crc);
    DiskQuiet(crc);
    var live := LiveSb(geo, Disk0()).value;
    assert txn.blocks.Keys + {geo.SbBlock()} == {1, 2};
    assert Stageable(geo, Disk0(), txn);
    assert Disk0()[2] == Zeros(1024);
    assert !SameBlock(geo, 2, txn.blocks[2], Disk0()[2]);
    AtomicIffHarmless(geo, Disk0(), live, txn);
    var c :| CrashImage(geo, Disk0(), txn, NoCrash, c) && !AllOrNothing(geo, Disk0(), txn, c);
    assert TornIn(geo, Disk0(), txn, c);
  }
}
