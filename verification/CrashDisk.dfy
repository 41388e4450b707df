/**
 A block device that loses power. Whole-block writes stay pending until the next flush;
 a crash keeps any subset of the pending ones.
 */
module CrashDisk {
  import opened Bytes

  type Block = seq<byte>
  type Image = seq<Block>

  datatype BlockWrite = BlockWrite(target: nat, data: Block)
  datatype Op = Write(w: BlockWrite) | Flush

  predicate InRange(img: Image, ws: seq<BlockWrite>) {
    forall i :: 0 <= i < |ws| ==> ws[i].target < |img|
  }

  /** The contents a reader sees after the writes, in order. */
  function Apply(img: Image, ws: seq<BlockWrite>): (r: Image)
    requires InRange(img, ws)
    ensures |r| == |img|
    decreases |ws|
  {
    if ws == [] then img else Apply(img[ws[0].target := ws[0].data], ws[1..])
  }

  /** The writes that survive when `keep` says which ones reached the medium. */
  function Kept(ws: seq<BlockWrite>, keep: seq<bool>): (r: seq<BlockWrite>)
    requires |keep| == |ws|
    ensures forall w :: w in r ==> w in ws
  {
    if ws == [] then []
    else (if keep[0] then [ws[0]] else []) + Kept(ws[1..], keep[1..])
  }

  lemma KeptInRange(img: Image, ws: seq<BlockWrite>, keep: seq<bool>)
    requires |keep| == |ws| && InRange(img, ws)
    ensures InRange(img, Kept(ws, keep))
  {
    var k := Kept(ws, keep);
    forall i | 0 <= i < |k|
      ensures k[i].target < |img|
    {
      assert k[i] in ws;
    }
  }

  /** The image a crash leaves when `ws` were pending over `img`. */
  function Survivor(img: Image, ws: seq<BlockWrite>, keep: seq<bool>): (r: Image)
    requires |keep| == |ws| && InRange(img, ws)
    ensures |r| == |img|
  {
    KeptInRange(img, ws, keep);
    Apply(img, Kept(ws, keep))
  }

  // ---- traces --------------------------------------------------------------

  predicate OpsInRange(img: Image, ops: seq<Op>) {
    forall i :: 0 <= i < |ops| && ops[i].Write? ==> ops[i].w.target < |img|
  }

  datatype Disk = Disk(durable: Image, pending: seq<BlockWrite>)

  /** Durable contents and pending writes after a trace that starts on `img` with nothing pending. */
  function Run(img: Image, ops: seq<Op>): (d: Disk)
    requires OpsInRange(img, ops)
    ensures |d.durable| == |img| && InRange(img, d.pending)
  {
    if ops == [] then Disk(img, [])
    else
      var n := |ops| - 1;
      var d := Run(img, ops[..n]);
      match ops[n]
      case Write(w) => Disk(d.durable, d.pending + [w])
      case Flush => Disk(Apply(d.durable, d.pending), [])
  }

  /** `c` is what a crash may leave right after the trace `ops` on `img`. */
  ghost predicate CrashAfter(img: Image, ops: seq<Op>, c: Image) {
    OpsInRange(img, ops)
    && var d := Run(img, ops);
    exists keep: seq<bool> :: |keep| == |d.pending| && c == Survivor(d.durable, d.pending, keep)
  }

  /** `c` is what a crash may leave somewhere during the trace `ops` on `img`. */
  ghost predicate CrashDuring(img: Image, ops: seq<Op>, c: Image) {
    exists k :: 0 <= k <= |ops| && CrashAfter(img, ops[..k], c)
  }

  // ---- traces made of epochs: a batch of writes, then a flush ----------------

  function Writes(ws: seq<BlockWrite>): (r: seq<Op>)
    ensures |r| == |ws|
    ensures forall i :: 0 <= i < |ws| ==> r[i] == Write(ws[i])
  {
    seq(|ws|, i requires 0 <= i < |ws| => Write(ws[i]))
  }

  function Trace(epochs: seq<seq<BlockWrite>>): (ops: seq<Op>)
  {
    if epochs == [] then []
    else Trace(epochs[..|epochs| - 1]) + Writes(epochs[|epochs| - 1]) + [Flush]
  }

  predicate EpochsInRange(img: Image, epochs: seq<seq<BlockWrite>>) {
    forall j :: 0 <= j < |epochs| ==> InRange(img, epochs[j])
  }

  /** The contents after whole epochs. */
  function AfterEpochs(img: Image, epochs: seq<seq<BlockWrite>>): (r: Image)
    requires EpochsInRange(img, epochs)
    ensures |r| == |img|
  {
    if epochs == [] then img
    else Apply(AfterEpochs(img, epochs[..|epochs| - 1]), epochs[|epochs| - 1])
  }

  lemma {:induction false} RunWrites(img: Image, ops: seq<Op>, ws: seq<BlockWrite>, k: nat)
    requires OpsInRange(img, ops) && InRange(img, ws) && k <= |ws|
    ensures OpsInRange(img, ops + Writes(ws)[..k])
    ensures var d := Run(img, ops);
            Run(img, ops + Writes(ws)[..k]) == Disk(d.durable, d.pending + ws[..k])
  {
    var all := ops + Writes(ws)[..k];
    if k == 0 {
      assert all == ops;
    } else {
      RunWrites(img, ops, ws, k - 1);
      assert all[..|all| - 1] == ops + Writes(ws)[..k - 1];
      assert ws[..k] == ws[..k - 1] + [ws[k - 1]];
    }
  }

  lemma {:induction false} RunTrace(img: Image, epochs: seq<seq<BlockWrite>>)
    requires EpochsInRange(img, epochs)
    ensures OpsInRange(img, Trace(epochs))
    ensures Run(img, Trace(epochs)) == Disk(AfterEpochs(img, epochs), [])
  {
    if epochs != [] {
      var n := |epochs| - 1;
      RunTrace(img, epochs[..n]);
      var ops, ws := Trace(epochs[..n]), epochs[n];
      RunWrites(img, ops, ws, |ws|);
      assert Writes(ws)[..|ws|] == Writes(ws) && ws[..|ws|] == ws && [] + ws == ws;
      var all := Trace(epochs);
      assert all[..|all| - 1] == ops + Writes(ws);
    }
  }

  /** Every crash during a trace of epochs happens inside one epoch, with the earlier ones durable. */
  lemma {:induction false} CrashInsideEpoch(img: Image, epochs: seq<seq<BlockWrite>>, c: Image)
      returns (j: nat, keep: seq<bool>)
    requires EpochsInRange(img, epochs) && epochs != []
    requires CrashDuring(img, Trace(epochs), c)
    ensures j < |epochs| && |keep| == |epochs[j]|
    ensures c == Survivor(AfterEpochs(img, epochs[..j]), epochs[j], keep)
  {
    hide Run, Apply, Survivor, Kept, CrashAfter, OpsInRange;
    var n := |epochs| - 1;
    var ops, ws := Trace(epochs[..n]), epochs[n];
    var all := Trace(epochs);
    var k :| 0 <= k <= |all| && CrashAfter(img, all[..k], c);
    RunTrace(img, epochs[..n]);
    RunTrace(img, epochs);
    if k < |ops| {
      assert n > 0;
      assert all[..k] == ops[..k];
      j, keep := CrashInsideEpoch(img, epochs[..n], c);
      assert epochs[..n][..j] == epochs[..j];
    } else if k <= |ops| + |ws| {
      assert all[..k] == ops + Writes(ws)[..k - |ops|];
      j := n;
      keep := CrashInsideLast(img, ops, ws, k - |ops|, c);
    } else {
      assert all[..k] == all;
      j := n;
      keep := CrashAtRest(img, epochs, c);
    }
  }

  lemma CrashAtRest(img: Image, epochs: seq<seq<BlockWrite>>, c: Image) returns (keep: seq<bool>)
    requires EpochsInRange(img, epochs) && epochs != []
    requires CrashAfter(img, Trace(epochs), c)
    ensures |keep| == |epochs[|epochs| - 1]|
    ensures c == Survivor(AfterEpochs(img, epochs[..|epochs| - 1]), epochs[|epochs| - 1], keep)
  {
    var ws := epochs[|epochs| - 1];
    RunTrace(img, epochs);
    assert c == AfterEpochs(img, epochs);
    keep := seq(|ws|, i => true);
    AllKept(ws);
  }

  lemma CrashInsideLast(img: Image, ops: seq<Op>, ws: seq<BlockWrite>, m: nat, c: Image) returns (keep: seq<bool>)
    requires OpsInRange(img, ops) && InRange(img, ws) && m <= |ws|
    requires Run(img, ops).pending == []
    requires CrashAfter(img, ops + Writes(ws)[..m], c)
    ensures |keep| == |ws| && c == Survivor(Run(img, ops).durable, ws, keep)
  {
    RunWrites(img, ops, ws, m);
    assert [] + ws[..m] == ws[..m];
    var kept: seq<bool> :| |kept| == m && c == Survivor(Run(img, ops).durable, ws[..m], kept);
    keep := kept + seq(|ws| - m, i => false);
    DroppedTail(ws, m, kept);
  }

  lemma {:induction false} DroppedTail(ws: seq<BlockWrite>, m: nat, kept: seq<bool>)
    requires m <= |ws| && |kept| == m
    ensures Kept(ws, kept + seq(|ws| - m, i => false)) == Kept(ws[..m], kept)
  {
    var keep := kept + seq(|ws| - m, i => false);
    if m > 0 {
      DroppedTail(ws[1..], m - 1, kept[1..]);
      assert keep[1..] == kept[1..] + seq(|ws| - m, i => false);
      assert ws[1..][..m - 1] == ws[..m][1..];
    } else if ws != [] {
      DroppedTail(ws[1..], 0, []);
      assert keep[1..] == [] + seq(|ws| - 1, i => false);
      assert ws[1..][..0] == ws[..0] == [];
    }
  }

  lemma {:induction false} AllKept(ws: seq<BlockWrite>)
    ensures Kept(ws, seq(|ws|, i => true)) == ws
  {
    if ws != [] {
      AllKept(ws[1..]);
      assert seq(|ws|, i => true)[1..] == seq(|ws| - 1, i => true);
    }
  }

  lemma AllSurvive(img: Image, ws: seq<BlockWrite>)
    requires InRange(img, ws)
    ensures Survivor(img, ws, seq(|ws|, i => true)) == Apply(img, ws)
  {
    AllKept(ws);
  }

  // ---- what single blocks hold -----------------------------------------------

  predicate Targets(ws: seq<BlockWrite>, b: nat) {
    exists i :: 0 <= i < |ws| && ws[i].target == b
  }

  /** A block holds its old contents or the data of one of the writes to it. */
  lemma {:induction false} ApplyBlock(img: Image, ws: seq<BlockWrite>, b: nat)
    requires InRange(img, ws) && b < |img|
    ensures Apply(img, ws)[b] == img[b] || exists i :: 0 <= i < |ws| && ws[i] == BlockWrite(b, Apply(img, ws)[b])
    ensures !Targets(ws, b) ==> Apply(img, ws)[b] == img[b]
    decreases |ws|
  {
    if ws != [] {
      var img' := img[ws[0].target := ws[0].data];
      ApplyBlock(img', ws[1..], b);
      if Targets(ws[1..], b) {
        var i :| 0 <= i < |ws[1..]| && ws[1..][i].target == b;
        assert ws[i + 1].target == b;
      }
      if ws[0].target == b {
        assert ws[0] == BlockWrite(b, img'[b]);
      }
      if i :| 0 <= i < |ws[1..]| && ws[1..][i] == BlockWrite(b, Apply(img', ws[1..])[b]) {
        assert ws[i + 1] == BlockWrite(b, Apply(img, ws)[b]);
      }
    }
  }

  predicate DistinctTargets(ws: seq<BlockWrite>) {
    forall i, j :: 0 <= i < j < |ws| ==> ws[i].target != ws[j].target
  }

  /** With distinct targets every write decides its block. */
  lemma {:induction false} ApplyDistinct(img: Image, ws: seq<BlockWrite>, i: nat)
    requires InRange(img, ws) && DistinctTargets(ws) && i < |ws|
    ensures Apply(img, ws)[ws[i].target] == ws[i].data
    decreases |ws|
  {
    var img' := img[ws[0].target := ws[0].data];
    if i == 0 {
      ApplyBlock(img', ws[1..], ws[0].target);
      assert !Targets(ws[1..], ws[0].target);
    } else {
      ApplyDistinct(img', ws[1..], i - 1);
    }
  }

  /** The same for a crash survivor. */
  lemma SurvivorBlock(img: Image, ws: seq<BlockWrite>, keep: seq<bool>, b: nat)
    requires |keep| == |ws| && InRange(img, ws) && b < |img|
    ensures var c := Survivor(img, ws, keep);
            c[b] == img[b] || exists i :: 0 <= i < |ws| && ws[i] == BlockWrite(b, c[b])
    ensures !Targets(ws, b) ==> Survivor(img, ws, keep)[b] == img[b]
  {
    KeptInRange(img, ws, keep);
    var k := Kept(ws, keep);
    ApplyBlock(img, k, b);
    var c := Survivor(img, ws, keep);
    if i :| 0 <= i < |k| && k[i] == BlockWrite(b, c[b]) {
      assert k[i] in ws;
      var j :| 0 <= j < |ws| && ws[j] == k[i];
    }
    if Targets(k, b) {
      var i :| 0 <= i < |k| && k[i].target == b;
      assert k[i] in ws;
      var j :| 0 <= j < |ws| && ws[j] == k[i];
    }
  }

  lemma {:induction false} ApplyConcat(img: Image, a: seq<BlockWrite>, b: seq<BlockWrite>)
    requires InRange(img, a) && InRange(img, b)
    ensures InRange(img, a + b)
    ensures Apply(img, a + b) == Apply(Apply(img, a), b)
    decreases |a|
  {
    if a == [] {
      assert a + b == b;
    } else {
      ApplyConcat(img[a[0].target := a[0].data], a[1..], b);
      assert (a + b)[1..] == a[1..] + b;
    }
  }

  /** What reads see after a trace. */
  function View(img: Image, ops: seq<Op>): (r: Image)
    requires OpsInRange(img, ops)
    ensures |r| == |img|
  {
    Apply(Run(img, ops).durable, Run(img, ops).pending)
  }

  lemma ViewMore(img: Image, ops: seq<Op>, op: Op)
    requires OpsInRange(img, ops) && (op.Write? ==> op.w.target < |img|)
    ensures OpsInRange(img, ops + [op])
    ensures View(img, ops + [op]) == if op.Write? then View(img, ops)[op.w.target := op.w.data] else View(img, ops)
  {
    var all := ops + [op];
    assert all[..|all| - 1] == ops;
    var d := Run(img, ops);
    if op.Write? {
      ApplyConcat(d.durable, d.pending, [op.w]);
    }
  }

  /** A device as the engine drives it: `cells` is what reads see, `trace` everything done to `origin`. */
  class Device {
    var cells: Image
    ghost var origin: Image
    ghost var trace: seq<Op>

    ghost predicate Valid()
      reads this
    {
      OpsInRange(origin, trace) && cells == View(origin, trace)
    }

    constructor (img: Image)
      ensures Valid() && cells == origin == img && trace == []
    {
      cells, origin, trace := img, img, [];
    }

    method Write(b: nat, data: Block)
      requires Valid() && b < |cells|
      modifies this
      ensures Valid() && origin == old(origin)
      ensures cells == old(cells)[b := data]
      ensures trace == old(trace) + [Op.Write(BlockWrite(b, data))]
    {
      ViewMore(origin, trace, Op.Write(BlockWrite(b, data)));
      cells := cells[b := data];
      trace := trace + [Op.Write(BlockWrite(b, data))];
    }

    method Flush()
      requires Valid()
      modifies this
      ensures Valid() && origin == old(origin)
      ensures cells == old(cells) && trace == old(trace) + [Op.Flush]
    {
      ViewMore(origin, trace, Op.Flush);
      trace := trace + [Op.Flush];
    }
  }
}
