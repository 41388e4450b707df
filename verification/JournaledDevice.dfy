/** The block device the file system writes through: captures writes into the running transaction. */
module JournaledDevice {
  import opened Bytes
  import opened Outcome
  import opened CrashDisk
  import opened Journal
  import JournalCrash

  // ---- blocks and bytes --------------------------------------------------------------------------

  predicate WholeStaged(blocks: map<nat, Block>, bs: nat) {
    forall b :: b in blocks ==> |blocks[b]| == bs
  }

  /** The bytes a reader sees: staged blocks over the inner device. */
  function Overlay(bytes: seq<byte>, bs: nat, blocks: map<nat, Block>): (r: seq<byte>)
    requires bs > 0 && WholeStaged(blocks, bs)
    ensures |r| == |bytes|
  {
    seq(|bytes|, k requires 0 <= k < |bytes| => if k / bs in blocks then blocks[k / bs][k % bs] else bytes[k])
  }

  /** The whole current block `b`: its staged copy if there is one, else the inner device's. */
  function CurrentBlock(bytes: seq<byte>, bs: nat, blocks: map<nat, Block>, b: nat): (r: Block)
    requires bs > 0 && WholeStaged(blocks, bs) && b * bs + bs <= |bytes|
    ensures |r| == bs
  {
    if b in blocks then blocks[b] else bytes[b * bs..b * bs + bs]
  }

  lemma CurrentByte(bytes: seq<byte>, bs: nat, blocks: map<nat, Block>, b: nat, k: nat)
    requires bs > 0 && WholeStaged(blocks, bs) && b * bs + bs <= |bytes| && b * bs <= k < b * bs + bs
    ensures Overlay(bytes, bs, blocks)[k] == CurrentBlock(bytes, bs, blocks, b)[k - b * bs]
  {
    BlockOf(k, b, bs);
  }

  /** Restaging one block with some bytes replaced replaces exactly those bytes of the overlay. */
  lemma StageChunk(bytes: seq<byte>, bs: nat, blocks: map<nat, Block>, b: nat, intra: nat, chunk: seq<byte>)
    requires bs > 0 && WholeStaged(blocks, bs) && b * bs + bs <= |bytes| && intra + |chunk| <= bs
    ensures var blocks' := blocks[b := Splice(CurrentBlock(bytes, bs, blocks, b), intra, chunk)];
            && WholeStaged(blocks', bs)
            && Overlay(bytes, bs, blocks') == Splice(Overlay(bytes, bs, blocks), b * bs + intra, chunk)
  {
    hide Splice, CurrentBlock;
    var blocks' := blocks[b := Splice(CurrentBlock(bytes, bs, blocks, b), intra, chunk)];
    var x, y := Overlay(bytes, bs, blocks'), Splice(Overlay(bytes, bs, blocks), b * bs + intra, chunk);
    forall k | 0 <= k < |bytes|
      ensures x[k] == y[k]
    {
      BlockOf(k, b, bs);
      if b * bs <= k < b * bs + bs {
        CurrentByte(bytes, bs, blocks, b, k);
      }
    }
  }

  /** The bytes of an image. */
  function Flat(img: Image, bs: nat): (r: seq<byte>)
    requires bs > 0 && forall b :: 0 <= b < |img| ==> |img[b]| == bs
    ensures |r| == |img| * bs
  {
    seq(|img| * bs, k requires 0 <= k < |img| * bs => (InsideImage(k, |img|, bs); img[k / bs][k % bs]))
  }

  lemma InsideImage(k: nat, n: nat, bs: nat)
    requires bs > 0 && k < n * bs
    ensures k / bs < n
  {
    BlockOf(k, k / bs, bs);
    if n <= k / bs {
      Multiples(n, k / bs, bs);
    }
  }

  /** What the device shows while a transaction is open is what committing it would leave. */
  lemma OverlayIsStaged(img: Image, bs: nat, txn: Transaction)
    requires bs > 0 && WholeStaged(txn.blocks, bs)
    requires forall b :: 0 <= b < |img| ==> |img[b]| == bs
    ensures Overlay(Flat(img, bs), bs, txn.blocks) == Flat(JournalCrash.Staged(img, txn), bs)
  {
    var x, y := Overlay(Flat(img, bs), bs, txn.blocks), Flat(JournalCrash.Staged(img, txn), bs);
    forall k | 0 <= k < |x|
      ensures x[k] == y[k]
    {
      InsideImage(k, |img|, bs);
    }
  }

  /** Exactly the bytes of `data` at `offset` changed. */
  predicate Written(now: seq<byte>, was: seq<byte>, offset: nat, data: seq<byte>) {
    offset + |data| <= |was| && now == Splice(was, offset, data)
  }

  /** The blocks that hold the bytes `[offset, offset + len)`. */
  function Touched(offset: nat, len: nat, bs: nat): set<nat>
    requires bs > 0
  {
    if len == 0 then {} else Touched(offset, len - 1, bs) + {(offset + len - 1) / bs}
  }

  /** One more piece of a write, inside one block. */
  lemma {:induction false} TouchedMore(offset: nat, len: nat, n: nat, bs: nat)
    requires bs > 0 && 0 < n && (offset + len) % bs + n <= bs
    ensures Touched(offset, len + n, bs) == Touched(offset, len, bs) + {(offset + len) / bs}
    decreases n
  {
    if n > 1 {
      TouchedMore(offset, len, n - 1, bs);
      var pos, last := offset + len, offset + len + n - 1;
      BlockOf(pos, pos / bs, bs);
      BlockOf(last, pos / bs, bs);
    }
  }

  /**
   A write captured in the running transaction: exactly its bytes of the view change, in exactly the blocks it
   reaches.
   */
  predicate StagedBy(bytes: seq<byte>, bs: nat, was: Transaction, now: Transaction, offset: nat, data: seq<byte>) {
    && bs > 0 && now.sequence == was.sequence && now.revokes == was.revokes
    && WholeStaged(was.blocks, bs) && WholeStaged(now.blocks, bs)
    && now.blocks.Keys == was.blocks.Keys + Touched(offset, |data|, bs)
    && Written(Overlay(bytes, bs, now.blocks), Overlay(bytes, bs, was.blocks), offset, data)
  }

  /** The first `dst` bytes of a read of `[offset, end)` already show the view, the rest the inner device. */
  predicate Reading(r: seq<byte>, view: seq<byte>, bytes: seq<byte>, offset: nat, pos: nat, end: nat) {
    |view| == |bytes| && offset <= pos <= end <= |bytes| && r == view[offset..pos] + bytes[pos..end]
  }

  // ---- the device ---------------------------------------------------------------------------------

  /** The backing device, as bytes. */
  class RawDevice {
    var bytes: seq<byte>

    constructor (contents: seq<byte>)
      ensures bytes == contents
    {
      bytes := contents;
    }

    method ReadOffset(offset: nat, len: nat) returns (r: seq<byte>)
      requires offset + len <= |bytes|
      ensures r == bytes[offset..offset + len]
    {
      r := bytes[offset..offset + len];
    }

    method WriteOffset(offset: nat, data: seq<byte>)
      requires offset + |data| <= |bytes|
      modifies this
      ensures bytes == Splice(old(bytes), offset, data)
    {
      bytes := Splice(bytes, offset, data);
    }
  }

  class JournalDevice {
    const inner: RawDevice
    const blockSize: nat
    var txn: Option<Transaction>
    var depth: nat
    var crash: CrashPoint

    ghost predicate Valid()
      reads this, inner
    {
      && blockSize > 0 && |inner.bytes| % blockSize == 0
      && (depth > 0 <==> txn.Some?)
      && (txn.Some? ==> WholeStaged(txn.value.blocks, blockSize))
    }

    /** What readers of the device see. */
    ghost function View(): (r: seq<byte>)
      requires Valid()
      reads this, inner
      ensures |r| == |inner.bytes|
    {
      if txn.Some? then Overlay(inner.bytes, blockSize, txn.value.blocks) else inner.bytes
    }

    constructor (inner: RawDevice, blockSize: nat)
      requires blockSize > 0 && |inner.bytes| % blockSize == 0
      ensures Valid() && this.inner == inner && this.blockSize == blockSize && txn.None? && View() == inner.bytes
    {
      this.inner, this.blockSize, txn, depth, crash := inner, blockSize, None, 0, NoCrash;
    }

    /** Open a transaction, or nest into the open one. The view does not change. */
    method Begin(sequence: u32)
      requires Valid()
      modifies this
      ensures Valid() && depth == old(depth) + 1 && View() == old(View()) && crash == old(crash)
      ensures old(depth) == 0 ==> txn == Some(Transaction(sequence, map[], {}))
      ensures old(depth) > 0 ==> txn == old(txn)
    {
      if depth == 0 {
        txn := Some(Transaction(sequence, map[], {}));
      }
      depth := depth + 1;
    }

    /**
     Close one level. The outermost close hands the transaction to the caller; from then on readers see the
     inner device again, so dropping the transaction undoes every captured write.
     */
    method End() returns (r: Option<Transaction>)
      requires Valid()
      modifies this
      ensures Valid() && crash == old(crash)
      ensures old(depth) > 1 ==> r.None? && txn == old(txn) && depth == old(depth) - 1 && View() == old(View())
      ensures old(depth) == 1 ==> r == old(txn) && depth == 0 && View() == inner.bytes
      ensures old(depth) == 0 ==> r.None? && depth == 0 && View() == old(View())
    {
      if depth == 0 {
        return None;
      }
      depth := depth - 1;
      if depth == 0 {
        r := txn;
        txn := None;
      } else {
        r := None;
      }
    }

    method SetCrash(c: CrashPoint)
      requires Valid()
      modifies this`crash
      ensures Valid() && crash == c && View() == old(View())
    {
      crash := c;
    }

    /** The pending crash point, used once. */
    method TakeCrash() returns (c: CrashPoint)
      requires Valid()
      modifies this`crash
      ensures Valid() && c == old(crash) && crash == NoCrash && View() == old(View())
    {
      c, crash := crash, NoCrash;
    }

    method Revoke(block: nat)
      requires Valid()
      modifies this
      ensures Valid() && depth == old(depth) && View() == old(View()) && crash == old(crash)
      ensures txn == if old(txn).Some? then Some(old(txn).value.Revoke(block)) else None
    {
      if txn.Some? {
        txn := Some(txn.value.Revoke(block));
      }
    }

    /** Lay the staged bytes of one block over `r` where the read of `[offset, end)` has got to `pos`. */
    method OverlayBlock(r0: seq<byte>, offset: nat, pos: nat, end: nat) returns (r: seq<byte>, n: nat)
      requires Valid() && txn.Some? && pos < end && Reading(r0, View(), inner.bytes, offset, pos, end)
      ensures 0 < n <= end - pos && Reading(r, View(), inner.bytes, offset, pos + n, end)
    {
      hide Splice, Overlay, Piece;
      var b, intra := pos / blockSize, pos % blockSize;
      n := Piece(blockSize, intra, end - pos);
      r := r0;
      OverlayPiece(inner.bytes, blockSize, txn.value.blocks, pos, n);
      ReadPiece(r0, View(), inner.bytes, offset, pos, n, end);
      if b in txn.value.blocks {
        r := Splice(r, pos - offset, txn.value.blocks[b][intra..intra + n]);
      }
    }

    /** A read of any range returns exactly what the view holds there. */
    method ReadOffset(offset: nat, len: nat) returns (r: seq<byte>)
      requires Valid() && offset + len <= |inner.bytes|
      ensures r == View()[offset..offset + len]
    {
      hide Overlay, Reading;
      r := inner.ReadOffset(offset, len);
      if txn.None? {
        return;
      }
      var pos := offset;
      ReadStart(View(), inner.bytes, offset, offset + len);
      while pos < offset + len
        invariant pos <= offset + len && Reading(r, View(), inner.bytes, offset, pos, offset + len)
      {
        var n;
        r, n := OverlayBlock(r, offset, pos, offset + len);
        pos := pos + n;
      }
      ReadDone(r, View(), inner.bytes, offset, offset + len);
    }

    /** Read-modify-write one piece of one block into the open transaction. */
    method StagePiece(pos: nat, chunk: seq<byte>)
      requires Valid() && txn.Some? && pos < |inner.bytes| && pos % blockSize + |chunk| <= blockSize
      modifies this`txn
      ensures Valid() && txn.Some? && txn.value.sequence == old(txn).value.sequence
      ensures txn.value.revokes == old(txn).value.revokes
      ensures txn.value.blocks.Keys == old(txn).value.blocks.Keys + {pos / blockSize}
      ensures Written(View(), old(View()), pos, chunk)
    {
      hide Splice, Overlay;
      var b, intra := pos / blockSize, pos % blockSize;
      BlockOf(pos, b, blockSize);
      BlockInside(pos, |inner.bytes|, blockSize);
      var block;
      if b in txn.value.blocks {
        block := txn.value.blocks[b];
      } else {
        block := inner.ReadOffset(b * blockSize, blockSize);
      }
      StageChunk(inner.bytes, blockSize, txn.value.blocks, b, intra, chunk);
      block := Splice(block, intra, chunk);
      txn := Some(txn.value.Stage(b, block));
    }

    /**
     With a transaction open a write changes exactly its bytes of the view and leaves the inner device alone;
     otherwise it goes straight through.
     */
    method WriteOffset(offset: nat, data: seq<byte>)
      requires Valid() && offset + |data| <= |inner.bytes|
      modifies this`txn, if txn.Some? then {} else {inner}
      ensures Valid() && Written(View(), old(View()), offset, data)
      ensures txn.Some? <==> old(txn).Some?
      ensures txn.Some? ==> inner.bytes == old(inner.bytes)
      ensures txn.Some? ==> StagedBy(inner.bytes, blockSize, old(txn).value, txn.value, offset, data)
    {
      if txn.None? {
        inner.WriteOffset(offset, data);
        return;
      }
      hide Written, Overlay, WholeStaged, Piece, Touched;
      ghost var view := View();
      var pos, src := offset, 0;
      NothingWritten(view, offset, data);
      NothingTouched(offset, blockSize);
      while src < |data|
        invariant Valid() && txn.Some? && pos == offset + src && src <= |data|
        invariant txn.value.sequence == old(txn).value.sequence && txn.value.revokes == old(txn).value.revokes
        invariant txn.value.blocks.Keys == old(txn).value.blocks.Keys + Touched(offset, src, blockSize)
        invariant Written(View(), view, offset, data[..src])
      {
        var n := Piece(blockSize, pos % blockSize, |data| - src);
        ghost var mid := View();
        TouchedMore(offset, src, n, blockSize);
        StagePiece(pos, data[src..src + n]);
        WrittenMore(view, offset, data, src, n, mid, View());
        pos, src := pos + n, src + n;
      }
      assert data[..src] == data;
    }
  }

  /** How much of the rest falls into the current block. */
  function Piece(bs: nat, intra: nat, rest: nat): (n: nat)
    requires intra < bs && rest > 0
    ensures 0 < n <= rest && intra + n <= bs
  {
    if bs - intra < rest then bs - intra else rest
  }

  lemma NothingTouched(offset: nat, bs: nat)
    requires bs > 0
    ensures Touched(offset, 0, bs) == {}
  {
  }

  lemma NothingWritten(view: seq<byte>, offset: nat, data: seq<byte>)
    requires offset + |data| <= |view|
    ensures Written(view, view, offset, data[..0])
  {
  }

  lemma WrittenMore(was: seq<byte>, offset: nat, data: seq<byte>, src: nat, n: nat, mid: seq<byte>, now: seq<byte>)
    requires src + n <= |data| && Written(mid, was, offset, data[..src])
    requires Written(now, mid, offset + src, data[src..src + n])
    ensures Written(now, was, offset, data[..src + n])
  {
    hide Splice;
    SpliceTwice(was, offset, data[..src], data[src..src + n]);
    assert data[..src + n] == data[..src] + data[src..src + n];
  }

  /** A piece of the overlay inside one block is a piece of that block's staged copy, or of the inner device. */
  lemma OverlayPiece(bytes: seq<byte>, bs: nat, blocks: map<nat, Block>, pos: nat, n: nat)
    requires bs > 0 && WholeStaged(blocks, bs) && pos + n <= |bytes| && pos % bs + n <= bs
    ensures Overlay(bytes, bs, blocks)[pos..pos + n]
         == if pos / bs in blocks then blocks[pos / bs][pos % bs..pos % bs + n] else bytes[pos..pos + n]
  {
    var b, intra := pos / bs, pos % bs;
    BlockOf(pos, b, bs);
    var o := Overlay(bytes, bs, blocks);
    forall k | pos <= k < pos + n
      ensures o[k] == if b in blocks then blocks[b][intra + (k - pos)] else bytes[k]
    {
      BlockOf(k, b, bs);
    }
  }

  lemma ReadStart(view: seq<byte>, bytes: seq<byte>, offset: nat, end: nat)
    requires |view| == |bytes| && offset <= end <= |bytes|
    ensures Reading(bytes[offset..end], view, bytes, offset, offset, end)
  {
  }

  lemma ReadDone(r: seq<byte>, view: seq<byte>, bytes: seq<byte>, offset: nat, end: nat)
    requires Reading(r, view, bytes, offset, end, end)
    ensures r == view[offset..end]
  {
  }

  lemma ReadPiece(r: seq<byte>, view: seq<byte>, bytes: seq<byte>, offset: nat, pos: nat, n: nat, end: nat)
    requires Reading(r, view, bytes, offset, pos, end) && pos + n <= end
    ensures |r| == end - offset
    ensures Reading(Splice(r, pos - offset, view[pos..pos + n]), view, bytes, offset, pos + n, end)
    ensures view[pos..pos + n] == bytes[pos..pos + n] ==> Reading(r, view, bytes, offset, pos + n, end)
  {
    if view[pos..pos + n] == bytes[pos..pos + n] {
      assert view[offset..pos + n] == view[offset..pos] + view[pos..pos + n];
      assert bytes[pos..end] == bytes[pos..pos + n] + bytes[pos + n..end];
    }
  }

  lemma BlockInside(pos: nat, n: nat, bs: nat)
    requires bs > 0 && n % bs == 0 && pos < n
    ensures pos / bs * bs + bs <= n
  {
    BlockOf(pos, pos / bs, bs);
    assert n == n / bs * bs;
    if n / bs <= pos / bs {
      Multiples(n / bs, pos / bs, bs);
    } else {
      Multiples(pos / bs + 1, n / bs, bs);
      assert (pos / bs + 1) * bs == pos / bs * bs + bs;
    }
  }
}
