/** Recovery of any log, block by block: the last unrevoked copy wins. */
module JournalMeaning {
  import opened Bytes
  import opened Outcome
  import opened JournalCodec
  import opened CrashDisk
  import opened JournalLog
  import opened Journal
  import opened JournalRecovery
  import opened JournalReplay
  import opened RecoverFlag

  /** Logged block `j` of transaction `i` is a copy of block `b` that the table does not revoke. */
  predicate Copies(table: RevokeTable, txns: seq<ScannedTxn>, i: nat, j: nat, b: nat) {
    && i < |txns| && j < |txns[i].blocks| && txns[i].blocks[j].finalBlock == b
    && !TableSays(table, txns[i].blocks[j].finalBlock, txns[i].sequence)
  }

  predicate Later(i: nat, j: nat, i': nat, j': nat) {
    i < i' || (i == i' && j < j')
  }

  ghost predicate LastCopy(table: RevokeTable, txns: seq<ScannedTxn>, i: nat, j: nat, b: nat) {
    && Copies(table, txns, i, j, b)
    && forall i': nat, j': nat :: Copies(table, txns, i', j', b) ==> !Later(i, j, i', j')
  }

  // ---- one transaction ---------------------------------------------------------

  predicate Kept1(table: RevokeTable, sequence: u32, lb: LoggedBlock, b: nat) {
    lb.finalBlock == b && !TableSays(table, lb.finalBlock, sequence)
  }

  lemma {:induction false} UnrevokedNone(geo: Geometry, img: Image, cells: Image, table: RevokeTable, sequence: u32,
                                         blocks: seq<LoggedBlock>, b: nat)
    requires ValidImage(geo, img) && b < |cells|
    requires InRange(cells, ReplayWrites(geo, img, Unrevoked(table, sequence, blocks)))
    requires forall j :: 0 <= j < |blocks| ==> !Kept1(table, sequence, blocks[j], b)
    ensures Apply(cells, ReplayWrites(geo, img, Unrevoked(table, sequence, blocks)))[b] == cells[b]
  {
    hide LoggedData, Apply, Unrevoked;
    var u := Unrevoked(table, sequence, blocks);
    var ws := ReplayWrites(geo, img, u);
    forall k | 0 <= k < |ws|
      ensures ws[k].target != b
    {
      UnrevokedElem(table, sequence, blocks, k);
    }
    ApplyBlock(cells, ws, b);
  }

  lemma {:induction false} UnrevokedElem(table: RevokeTable, sequence: u32, blocks: seq<LoggedBlock>, k: nat)
    requires k < |Unrevoked(table, sequence, blocks)|
    ensures exists j :: 0 <= j < |blocks| && blocks[j] == Unrevoked(table, sequence, blocks)[k]
                        && Kept1(table, sequence, blocks[j], blocks[j].finalBlock)
    decreases |blocks|
  {
    var u := Unrevoked(table, sequence, blocks);
    if TableSays(table, blocks[0].finalBlock, sequence) {
      UnrevokedElem(table, sequence, blocks[1..], k);
      var j :| 0 <= j < |blocks[1..]| && blocks[1..][j] == Unrevoked(table, sequence, blocks[1..])[k]
               && Kept1(table, sequence, blocks[1..][j], blocks[1..][j].finalBlock);
      assert blocks[j + 1] == u[k];
    } else if k == 0 {
      assert blocks[0] == u[0];
    } else {
      UnrevokedElem(table, sequence, blocks[1..], k - 1);
      var j :| 0 <= j < |blocks[1..]| && blocks[1..][j] == Unrevoked(table, sequence, blocks[1..])[k - 1]
               && Kept1(table, sequence, blocks[1..][j], blocks[1..][j].finalBlock);
      assert blocks[j + 1] == u[k];
    }
  }

  lemma {:induction false} UnrevokedLast(geo: Geometry, img: Image, cells: Image, table: RevokeTable, sequence: u32,
                                         blocks: seq<LoggedBlock>, j: nat, b: nat)
    requires ValidImage(geo, img) && b < |cells| && j < |blocks|
    requires InRange(cells, ReplayWrites(geo, img, Unrevoked(table, sequence, blocks)))
    requires Kept1(table, sequence, blocks[j], b)
    requires forall k :: j < k < |blocks| ==> !Kept1(table, sequence, blocks[k], b)
    ensures Apply(cells, ReplayWrites(geo, img, Unrevoked(table, sequence, blocks)))[b]
            == LoggedData(geo, img, blocks[j])
    decreases |blocks|
  {
    hide LoggedData, Apply;
    var head := if TableSays(table, blocks[0].finalBlock, sequence) then [] else [blocks[0]];
    var rest := Unrevoked(table, sequence, blocks[1..]);
    HeadSplit(geo, img, cells, head, rest);
    var cells' := Apply(cells, ReplayWrites(geo, img, head));
    if j == 0 {
      assert forall k :: 0 <= k < |blocks[1..]| ==> !Kept1(table, sequence, blocks[1..][k], b) by {
        assert forall k :: 0 <= k < |blocks[1..]| ==> blocks[1..][k] == blocks[k + 1];
      }
      UnrevokedNone(geo, img, cells', table, sequence, blocks[1..], b);
      assert ReplayWrites(geo, img, head) == [BlockWrite(b, LoggedData(geo, img, blocks[0]))];
      ApplyOne(cells, BlockWrite(b, LoggedData(geo, img, blocks[0])));
    } else {
      UnrevokedLast(geo, img, cells', table, sequence, blocks[1..], j - 1, b);
    }
  }

  /** Replaying a concatenation is replaying its parts in turn. */
  lemma HeadSplit(geo: Geometry, img: Image, cells: Image, head: seq<LoggedBlock>, rest: seq<LoggedBlock>)
    requires ValidImage(geo, img)
    requires InRange(cells, ReplayWrites(geo, img, head + rest))
    ensures InRange(cells, ReplayWrites(geo, img, head)) && InRange(cells, ReplayWrites(geo, img, rest))
    ensures Apply(cells, ReplayWrites(geo, img, head + rest))
         == Apply(Apply(cells, ReplayWrites(geo, img, head)), ReplayWrites(geo, img, rest))
  {
    hide LoggedData, Apply;
    var all := ReplayWrites(geo, img, head + rest);
    assert forall i :: 0 <= i < |head| ==> ReplayWrites(geo, img, head)[i] == all[i];
    assert forall i :: 0 <= i < |rest| ==> ReplayWrites(geo, img, rest)[i] == all[|head| + i];
    ReplayConcat(geo, img, cells, head, rest);
  }

  // ---- the whole log -------------------------------------------------------------

  lemma {:induction false} ReplayNone(geo: Geometry, img: Image, cells: Image, table: RevokeTable,
      txns: seq<ScannedTxn>, b: nat)
    requires ValidImage(geo, img) && b < |cells|
    requires InRange(cells, ReplayWrites(geo, img, ToReplay(table, txns)))
    requires forall i: nat, j: nat :: !Copies(table, txns, i, j, b)
    ensures Apply(cells, ReplayWrites(geo, img, ToReplay(table, txns)))[b] == cells[b]
    decreases |txns|
  {
    hide LoggedData, Apply, Unrevoked, TableSays;
    if txns == [] {
      NothingReplayed(geo, img, cells, []);
    } else {
      var head, rest := Unrevoked(table, txns[0].sequence, txns[0].blocks), ToReplay(table, txns[1..]);
      HeadSplit(geo, img, cells, head, rest);
      forall j | 0 <= j < |txns[0].blocks|
        ensures !Kept1(table, txns[0].sequence, txns[0].blocks[j], b)
      {
        assert !Copies(table, txns, 0, j, b);
      }
      UnrevokedNone(geo, img, cells, table, txns[0].sequence, txns[0].blocks, b);
      forall i: nat, j: nat
        ensures !Copies(table, txns[1..], i, j, b)
      {
        assert !Copies(table, txns, i + 1, j, b);
      }
      ReplayNone(geo, img, Apply(cells, ReplayWrites(geo, img, head)), table, txns[1..], b);
    }
  }

  lemma {:induction false} ReplayLast(geo: Geometry, img: Image, cells: Image, table: RevokeTable,
      txns: seq<ScannedTxn>,
                                      i: nat, j: nat, b: nat)
    requires ValidImage(geo, img) && b < |cells|
    requires InRange(cells, ReplayWrites(geo, img, ToReplay(table, txns)))
    requires LastCopy(table, txns, i, j, b)
    ensures Apply(cells, ReplayWrites(geo, img, ToReplay(table, txns)))[b] == LoggedData(geo, img, txns[i].blocks[j])
    decreases |txns|
  {
    hide LoggedData, Apply, Unrevoked, TableSays;
    var head, rest := Unrevoked(table, txns[0].sequence, txns[0].blocks), ToReplay(table, txns[1..]);
    HeadSplit(geo, img, cells, head, rest);
    var cells' := Apply(cells, ReplayWrites(geo, img, head));
    if i == 0 {
      forall k | j < k < |txns[0].blocks|
        ensures !Kept1(table, txns[0].sequence, txns[0].blocks[k], b)
      {
        assert Later(0, j, 0, k) && !Copies(table, txns, 0, k, b);
      }
      UnrevokedLast(geo, img, cells, table, txns[0].sequence, txns[0].blocks, j, b);
      forall i': nat, j': nat
        ensures !Copies(table, txns[1..], i', j', b)
      {
        assert Later(0, j, i' + 1, j') && !Copies(table, txns, i' + 1, j', b);
      }
      ReplayNone(geo, img, cells', table, txns[1..], b);
    } else {
      assert Copies(table, txns[1..], i - 1, j, b);
      forall i': nat, j': nat | Copies(table, txns[1..], i', j', b)
        ensures !Later(i - 1, j, i', j')
      {
        assert Copies(table, txns, i' + 1, j', b);
        assert !Later(i, j, i' + 1, j');
      }
      ReplayLast(geo, img, cells', table, txns[1..], i - 1, j, b);
    }
  }

  // ---- in the log's own terms ------------------------------------------------------

  /** Transaction `i` logged block `b` as its block `j`, and no transaction from `i` on revokes it. */
  predicate Standing(geo: Geometry, img: Image, live: Live, txns: seq<ScannedTxn>, i: nat, j: nat, b: nat)
    requires ValidImage(geo, img)
  {
    && i < |txns| && j < |txns[i].blocks| && txns[i].blocks[j].finalBlock == b
    && !RevokedSince(geo, img, live, txns, txns[i].blocks[j].finalBlock, txns[i].sequence)
  }

  lemma StandingIsCopy(geo: Geometry, img: Image, txns: seq<ScannedTxn>, i: nat, j: nat, b: nat)
    requires ValidImage(geo, img) && RevokesOf(geo, img, txns).Ok?
    ensures Standing(geo, img, LiveSb(geo, img).value, txns, i, j, b) <==>
            Copies(RevokesOf(geo, img, txns).value, txns, i, j, b)
  {
    hide RevokesOf, TableSays, RevokedSince, LiveSb;
    if i < |txns| && j < |txns[i].blocks| {
      RevokeTableMeaning(geo, img, txns, txns[i].blocks[j].finalBlock, txns[i].sequence);
    }
  }

  /** The data block `b` should end up with after recovery of `img`: the last standing copy, or what is there. */
  ghost predicate RightContent(geo: Geometry, img: Image, live: Live, txns: seq<ScannedTxn>, b: nat, content: Block)
    requires ValidImage(geo, img) && b < |img|
  {
    && (forall i: nat, j: nat :: Standing(geo, img, live, txns, i, j, b)
                       && (forall i': nat, j': nat :: Standing(geo, img, live, txns, i', j', b) ==>
                           !Later(i, j, i', j'))
                       ==> content == LoggedData(geo, img, txns[i].blocks[j]))
    && ((forall i: nat, j: nat :: !Standing(geo, img, live, txns, i, j, b)) ==> content == img[b])
  }

  lemma ReplayRight(geo: Geometry, img: Image, txns: seq<ScannedTxn>, b: nat)
    requires ValidImage(geo, img) && LiveSb(geo, img).Ok? && RevokesOf(geo, img, txns).Ok? && b < |img|
    requires InRange(img, ReplayWrites(geo, img, ToReplay(RevokesOf(geo, img, txns).value, txns)))
    ensures RightContent(geo, img, LiveSb(geo, img).value, txns, b,
                         Apply(img, ReplayWrites(geo, img, ToReplay(RevokesOf(geo, img, txns).value, txns)))[b])
  {
    hide RevokesOf, TableSays, RevokedSince, LiveSb, LoggedData, Apply, Standing, ToReplay, ReplayWrites;
    var live, table := LiveSb(geo, img).value, RevokesOf(geo, img, txns).value;
    forall i: nat, j: nat
      ensures Standing(geo, img, live, txns, i, j, b) <==> Copies(table, txns, i, j, b)
    {
      StandingIsCopy(geo, img, txns, i, j, b);
    }
    var content := Apply(img, ReplayWrites(geo, img, ToReplay(table, txns)))[b];
    forall i: nat, j: nat | Standing(geo, img, live, txns, i, j, b)
                  && (forall i': nat, j': nat :: Standing(geo, img, live, txns, i', j', b) ==> !Later(i, j, i', j'))
      ensures i < |txns| && j < |txns[i].blocks| && content == LoggedData(geo, img, txns[i].blocks[j])
    {
      assert LastCopy(table, txns, i, j, b);
      ReplayLast(geo, img, img, table, txns, i, j, b);
    }
    if forall i: nat, j: nat :: !Standing(geo, img, live, txns, i, j, b) {
      ReplayNone(geo, img, img, table, txns, b);
    }
  }

  /** The same for the image after recovery, which also clears RECOVER in the ext4 superblock. */
  ghost predicate RightBlock(geo: Geometry, img: Image, live: Live, txns: seq<ScannedTxn>, b: nat, final: Block)
    requires ValidImage(geo, img) && b < |img|
  {
    if b != geo.SbBlock() then RightContent(geo, img, live, txns, b, final)
    else exists content: Block ::
      && RightContent(geo, img, live, txns, b, content) && |content| == geo.blockSize
      && Marked(geo.crc, content, final, geo.SbOff(), false)
  }

  /**
   Recovering any log with committed transactions gives every block outside the log the data of the last
   transaction that logged it and is not overtaken by a revoke at its sequence or later, and leaves the
   other blocks alone; the ext4 superblock additionally has RECOVER clear and its checksum refreshed, no other byte
   changed.
   */
  lemma RecoverMeaning(geo: Geometry, img: Image, b: nat)
    requires RecoverPre(geo, img) && Recovered(geo, img).Ok?
    requires b < |img| && !geo.InLog(b)
    ensures var r, txns := Recovered(geo, img).value, ScanLog(geo, img).value.txns;
            && |r| == |img|
            && (txns == [] ==> r == img)
            && (txns != [] ==> LiveSb(geo, img).Ok? && RightBlock(geo, img, LiveSb(geo, img).value, txns, b, r[b]))
  {
    hide LiveSb, ScanLog, RevokesOf, AfterEpochs, Apply, RightContent, ToReplay, ReplayWrites, PatchRecover;
    hide UpdateSuperblock, ParseJournalSuperblock, Marked;
    var txns := ScanLog(geo, img).value.txns;
    if txns != [] {
      var p := Plan(geo, img, LiveCsum(geo, img)).value;
      LiveParses(geo, img);
      PlanFacts(geo, img, LiveCsum(geo, img));
      PlanEpochs(img, p);
      ReplayRight(geo, img, txns, b);
      assert geo.InLog(geo.Map(0));
      var content := Apply(img, p.replay)[b];
      assert |content| == geo.blockSize;
      assert RightContent(geo, img, LiveSb(geo, img).value, txns, b, content);
      if b == geo.SbBlock() {
        PatchMarked(geo.crc, content, geo.SbOff(), false);
      }
    }
  }
}
