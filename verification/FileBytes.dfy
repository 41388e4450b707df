/** The bytes of a file, seen through its extents. */
module FileBytes {
  import opened Bytes
  import opened Outcome
  import opened Records
  import opened Extents
  import opened ExtentRuns

  /** Every mapped block lies on the device. */
  ghost predicate OnDisk(es: seq<Entry>, disk: seq<byte>, bs: nat) {
    bs > 0 && forall l: nat :: BlockOnDisk(es, disk, bs, l)
  }

  predicate BlockOnDisk(es: seq<Entry>, disk: seq<byte>, bs: nat, l: nat) {
    Lookup(es, l).Some? ==> Lookup(es, l).value.block * bs + bs <= |disk|
  }

  predicate SameBlock(es: seq<Entry>, l: nat, m: nat) {
    Lookup(es, l).Some? && Lookup(es, m).Some? && Lookup(es, l).value.block == Lookup(es, m).value.block
  }

  /** No two logical blocks share a physical one. */
  ghost predicate Injective(es: seq<Entry>) {
    forall l: nat, m: nat :: SameBlock(es, l, m) ==> l == m
  }

  /** Byte `k` of the file: holes and unwritten blocks read as zeros. */
  ghost function ByteAt(es: seq<Entry>, disk: seq<byte>, bs: nat, k: nat): byte
    requires OnDisk(es, disk, bs)
  {
    assert BlockOnDisk(es, disk, bs, k / bs);
    match Lookup(es, k / bs)
    case None => 0
    case Some(m) => if m.unwritten then 0 else disk[m.block * bs + k % bs]
  }

  /** The bytes of block `l` from `off` on. */
  lemma BlockBytes(es: seq<Entry>, disk: seq<byte>, bs: nat, l: nat, off: nat, k: nat)
    requires OnDisk(es, disk, bs) && off < bs && k == l * bs + off
    ensures k / bs == l && k % bs == off
    ensures Lookup(es, l) == None || Lookup(es, l).value.unwritten ==> ByteAt(es, disk, bs, k) == 0
    ensures BlockOnDisk(es, disk, bs, l)
    ensures Lookup(es, l).Some? && !Lookup(es, l).value.unwritten ==>
              Lookup(es, l).value.block * bs + bs <= |disk|
                  && ByteAt(es, disk, bs, k) == disk[Lookup(es, l).value.block * bs + off]
  {
    hide Lookup;
    BlockOf(k, l, bs);
    assert BlockOnDisk(es, disk, bs, l);
  }

  predicate Initialised(es: seq<Entry>, l: nat) {
    Lookup(es, l).Some? && !Lookup(es, l).value.unwritten
  }

  /** Writing into one block of the file changes those bytes of the file and no other. */
  lemma ByteWritten(es: seq<Entry>, disk: seq<byte>, bs: nat, l: nat, off: nat, chunk: seq<byte>, k: nat)
    requires OnDisk(es, disk, bs) && Injective(es) && Initialised(es, l) && off + |chunk| <= bs
    ensures var p := Lookup(es, l).value.block;
            && p * bs + bs <= |disk|
            && OnDisk(es, Splice(disk, p * bs + off, chunk), bs)
            && ByteAt(es, Splice(disk, p * bs + off, chunk), bs, k) ==
               if l * bs + off <= k < l * bs + off + |chunk| then chunk[k - l * bs - off] else ByteAt(es, disk, bs, k)
  {
    hide Lookup;
    assert BlockOnDisk(es, disk, bs, l);
    var p := Lookup(es, l).value.block;
    var now := Splice(disk, p * bs + off, chunk);
    forall m: nat
      ensures BlockOnDisk(es, now, bs, m)
    {
      assert BlockOnDisk(es, disk, bs, m);
    }
    var m, x := k / bs, k % bs;
    BlockOf(k, m, bs);
    BlockOf(k, l, bs);
    if Initialised(es, m) {
      var q := Lookup(es, m).value.block;
      assert BlockOnDisk(es, disk, bs, m);
      BlockOf(q * bs + x, q, bs);
      BlockOf(q * bs + x, p, bs);
      if m != l {
        assert !SameBlock(es, m, l);
      }
    }
  }

  // ---- filling holes --------------------------------------------------------------------------------------

  /** Blocks of `avail` are distinct, on the device, and not in use by the file. */
  ghost predicate Spare(es: seq<Entry>, disk: seq<byte>, bs: nat, avail: seq<nat>) {
    && (forall i :: 0 <= i < |avail| ==> 0 < avail[i] && avail[i] * bs + bs <= |disk|)
    && (forall i, j :: 0 <= i < j < |avail| ==> avail[i] != avail[j])
    && (forall l: nat :: NotUsing(es, l, avail))
  }

  predicate NotUsing(es: seq<Entry>, l: nat, avail: seq<nat>) {
    Lookup(es, l).Some? ==> Lookup(es, l).value.block !in avail
  }

  /** `now` maps what `was` did, and in addition every hole in `[lo, hi)`, to initialised blocks of `pool`. */
  ghost predicate Filled(was: seq<Entry>, now: seq<Entry>, lo: nat, hi: nat, pool: seq<nat>) {
    forall l: nat :: FilledAt(was, now, lo, hi, pool, l)
  }

  predicate FilledAt(was: seq<Entry>, now: seq<Entry>, lo: nat, hi: nat, pool: seq<nat>, l: nat) {
    if Lookup(was, l).Some? || !(lo <= l < hi) then Lookup(now, l) == Lookup(was, l)
    else Initialised(now, l) && Lookup(now, l).value.block in pool
  }

  /** What is left of the spare blocks. */
  predicate Within(avail: seq<nat>, pool: seq<nat>) {
    forall i :: 0 <= i < |avail| ==> avail[i] in pool
  }

  /** A batch of spare blocks in a hole keeps the file's blocks distinct and on the device. */
  lemma BatchFills(was: seq<Entry>, es: seq<Entry>, now: seq<Entry>, disk: seq<byte>, bs: nat, avail: seq<nat>, n: nat,
      lo: nat, lb: nat, pool: seq<nat>)
    requires OnDisk(es, disk, bs) && Injective(es) && Spare(es, disk, bs, avail) && n <= |avail| && lo <= lb
    requires forall l: nat :: lb <= l < lb + n ==> Lookup(es, l) == None
    requires forall l: nat :: Lookup(now, l) == BatchUpdated(es, lb, avail[..n], false, l)
    requires Filled(was, es, lo, lb, pool) && Within(avail, pool)
    ensures OnDisk(now, disk, bs) && Injective(now) && Spare(now, disk, bs, avail[n..])
    ensures Filled(was, now, lo, lb + n, pool)
  {
    hide Lookup;
    var rest, up := avail[n..], lb + n;
    assert forall i :: 0 <= i < |rest| ==> rest[i] == avail[i + n];
    forall i | 0 <= i < |rest|
      ensures 0 < rest[i] && rest[i] * bs + bs <= |disk|
    {
      assert rest[i] == avail[i + n];
    }
    forall l: nat
      ensures BlockOnDisk(now, disk, bs, l) && NotUsing(now, l, rest) && FilledAt(was, now, lo, up, pool, l)
    {
      assert BlockOnDisk(es, disk, bs, l) && NotUsing(es, l, avail) && FilledAt(was, es, lo, lb, pool, l);
      assert Lookup(now, l) == BatchUpdated(es, lb, avail[..n], false, l);
    }
    forall l: nat, m: nat | SameBlock(now, l, m)
      ensures l == m
    {
      assert NotUsing(es, l, avail) && NotUsing(es, m, avail) && (SameBlock(es, l, m) ==> l == m);
      assert Lookup(now, l) == BatchUpdated(es, lb, avail[..n], false, l)
          && Lookup(now, m) == BatchUpdated(es, lb, avail[..n], false, m);
    }
  }

  lemma FilledStart(es: seq<Entry>, lo: nat, pool: seq<nat>)
    ensures Filled(es, es, lo, lo, pool)
  {
  }

  /** A block already mapped needs nothing. */
  lemma FilledNext(was: seq<Entry>, now: seq<Entry>, lo: nat, hi: nat, pool: seq<nat>)
    requires Filled(was, now, lo, hi, pool) && Lookup(was, hi).Some? && lo <= hi && Initialised(now, hi)
    ensures Filled(was, now, lo, hi + 1, pool)
  {
    hide Lookup;
    var up := hi + 1;
    forall l: nat
      ensures FilledAt(was, now, lo, up, pool, l)
    {
      assert FilledAt(was, now, lo, hi, pool, l);
    }
  }

  // ---- writing ----------------------------------------------------------------------------------------------

  /** The first `n` bytes of `data` are in the file from `offset` on, and no other byte changed. */
  ghost predicate Wrote(es: seq<Entry>, d0: seq<byte>, d1: seq<byte>, bs: nat, offset: nat, data: seq<byte>, n: nat)
    requires OnDisk(es, d0, bs) && OnDisk(es, d1, bs) && n <= |data|
  {
    forall k: nat :: WroteAt(es, d0, d1, bs, offset, data, n, k)
  }

  ghost predicate WroteAt(es: seq<Entry>, d0: seq<byte>, d1: seq<byte>, bs: nat, offset: nat, data: seq<byte>, n: nat,
      k: nat)
    requires OnDisk(es, d0, bs) && OnDisk(es, d1, bs) && n <= |data|
  {
    ByteAt(es, d1, bs, k) == if offset <= k < offset + n then data[k - offset] else ByteAt(es, d0, bs, k)
  }

  lemma NothingWritten(es: seq<Entry>, d: seq<byte>, bs: nat, offset: nat, data: seq<byte>)
    requires OnDisk(es, d, bs)
    ensures Wrote(es, d, d, bs, offset, data, 0)
  {
    hide ByteAt;
  }

  /** One more piece, inside block `l`. */
  lemma WroteMore(es: seq<Entry>, d0: seq<byte>, d1: seq<byte>, bs: nat, offset: nat, data: seq<byte>, n: nat, l: nat,
      off: nat, m: nat)
    requires OnDisk(es, d0, bs) && OnDisk(es, d1, bs) && Injective(es) && Initialised(es, l)
    requires n + m <= |data| && off + m <= bs && l * bs + off == offset + n && Wrote(es, d0, d1, bs, offset, data, n)
    ensures var p := Lookup(es, l).value.block;
            && p * bs + bs <= |d1| && OnDisk(es, Splice(d1, p * bs + off, data[n..n + m]), bs)
            && Wrote(es, d0, Splice(d1, p * bs + off, data[n..n + m]), bs, offset, data, n + m)
  {
    hide Lookup, ByteAt, Injective, OnDisk;
    var chunk := data[n..n + m];
    ByteWritten(es, d1, bs, l, off, chunk, 0);
    var d2 := Splice(d1, Lookup(es, l).value.block * bs + off, chunk);
    var done := n + m;
    forall k: nat
      ensures WroteAt(es, d0, d2, bs, offset, data, done, k)
    {
      assert WroteAt(es, d0, d1, bs, offset, data, n, k);
      ByteWritten(es, d1, bs, l, off, chunk, k);
    }
  }

  /** Byte `k` lies in a block that filled a hole, and the device still held something there. */
  predicate Stale(was: seq<Entry>, now: seq<Entry>, disk: seq<byte>, bs: nat, k: nat)
    requires bs > 0
  {
    && Lookup(was, k / bs) == None && Initialised(now, k / bs)
    && var at := Lookup(now, k / bs).value.block * bs + k % bs;
       at < |disk| && disk[at] != 0
  }

  /** Filling holes changes exactly the bytes of the file under which the device still held something. */
  lemma FilledBytes(was: seq<Entry>, now: seq<Entry>, disk: seq<byte>, bs: nat, lo: nat, hi: nat, pool: seq<nat>,
      k: nat)
    requires OnDisk(was, disk, bs) && OnDisk(now, disk, bs) && Filled(was, now, lo, hi, pool)
    ensures ByteAt(now, disk, bs, k) != ByteAt(was, disk, bs, k) <==> Stale(was, now, disk, bs, k)
    ensures Lookup(was, k / bs).Some? || !(lo <= k / bs < hi) ==> !Stale(was, now, disk, bs, k)
    ensures ZeroBlocks(pool, disk, bs) ==> !Stale(was, now, disk, bs, k)
  {
    hide Lookup;
    assert FilledAt(was, now, lo, hi, pool, k / bs);
    assert BlockOnDisk(now, disk, bs, k / bs);
    if Initialised(now, k / bs) {
      ZeroByte(pool, disk, bs, Lookup(now, k / bs).value.block, k % bs);
    }
  }

  /** These blocks hold zeros only. */
  predicate ZeroBlocks(blocks: seq<nat>, disk: seq<byte>, bs: nat) {
    forall i :: 0 <= i < |blocks| ==> ZeroBlock(blocks[i], disk, bs)
  }

  predicate ZeroBlock(b: nat, disk: seq<byte>, bs: nat) {
    forall x :: b * bs <= x < b * bs + bs && x < |disk| ==> disk[x] == 0
  }

  lemma ZeroByte(blocks: seq<nat>, disk: seq<byte>, bs: nat, b: nat, x: nat)
    requires x < bs && b * bs + x < |disk|
    ensures ZeroBlocks(blocks, disk, bs) && b in blocks ==> disk[b * bs + x] == 0
  {
    assert ZeroBlocks(blocks, disk, bs) && b in blocks ==> ZeroBlock(b, disk, bs);
  }

  const ONE_BLOCK: seq<Entry> := [Entry(0, 1, 2)]
  const OLD_DISK: seq<byte> := [0, 0, 0, 0, 7, 7]

  /**
   One byte written to the start of an empty file, with blocks of two bytes: the byte behind it, a hole before,
       now reads
   as what the spare block held.
   */
  lemma StaleByteShows()
    ensures Spare([], OLD_DISK, 2, [2]) && Filled([], ONE_BLOCK, 0, 1, [2]) && Injective(ONE_BLOCK)
    ensures OnDisk([], OLD_DISK, 2) && OnDisk(ONE_BLOCK, OLD_DISK, 2)
    ensures var now := Splice(OLD_DISK, 4, [9]);
            && OnDisk(ONE_BLOCK, now, 2) && Wrote(ONE_BLOCK, OLD_DISK, now, 2, 0, [9], 1)
            && ByteAt([], OLD_DISK, 2, 1) == 0 && ByteAt(ONE_BLOCK, now, 2, 1) == 7
            && Stale([], ONE_BLOCK, OLD_DISK, 2, 1)
  {
    hide Lookup;
    OneBlockMap();
    NothingWritten(ONE_BLOCK, OLD_DISK, 2, 0, [9]);
    WroteMore(ONE_BLOCK, OLD_DISK, OLD_DISK, 2, 0, [9], 0, 0, 0, 1);
    assert [9][0..1] == [9];
    ByteWritten(ONE_BLOCK, OLD_DISK, 2, 0, 0, [9], 1);
  }

  lemma OneBlockMap()
    ensures forall l: nat :: Lookup([], l) == None
    ensures forall l: nat :: Lookup(ONE_BLOCK, l) == if l == 0 then Some(Mapping(2, false)) else None
  {
    hide Lookup;
    forall l: nat
      ensures Lookup([], l) == None
      ensures Lookup(ONE_BLOCK, l) == if l == 0 then Some(Mapping(2, false)) else None
    {
      OneBlockAt(l);
      LookupNone([], l);
    }
  }

  lemma OneBlockAt(l: nat)
    ensures Lookup(ONE_BLOCK, l) == if l == 0 then Some(Mapping(2, false)) else None
  {
    if l == 0 {
      LookupAt(ONE_BLOCK, 0, 0);
    } else {
      LookupNone(ONE_BLOCK, l);
    }
  }

  /** A block rewritten with one part replaced. */
  lemma BlockSplice(disk: seq<byte>, at: nat, bs: nat, off: nat, chunk: seq<byte>)
    requires at + bs <= |disk| && off + |chunk| <= bs
    ensures Splice(disk, at, Splice(disk[at..at + bs], off, chunk)) == Splice(disk, at + off, chunk)
  {
  }
}
