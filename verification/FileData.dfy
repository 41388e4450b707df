/** Reading and writing a sparse file at any offset. */
module FileData {
  import opened Bytes
  import opened Outcome
  import opened Records
  import opened Extents
  import opened TreeLevels
  import opened TreeShape
  import opened ExtentStore
  import opened ExtentTree
  import opened ExtentRuns
  import opened ExtentBatch
  import opened ExtentHole
  import opened FileBytes

  const EXT4_MAX_FILE_SIZE: nat := 16 * 1024 * 1024 * 1024

  function RoundUp(n: nat, bs: nat): nat
    requires bs > 0
  {
    (n + bs - 1) / bs
  }

  /** Where block `l` starts. */
  function Start(l: nat, bs: nat): nat {
    l * bs
  }

  function Min(a: nat, b: nat): nat {
    if a < b then a else b
  }

  class File {
    const tree: ExtentTree
    const bs: nat
    const block0: seq<Entry>
    var disk: seq<byte>
    var size: nat
    var avail: seq<nat>

    /** The file's blocks are distinct and on the device, and the spare ones are neither. */
    ghost predicate Stored()
      reads this, tree
    {
      && tree.Valid() && bs > 0
      && OnDisk(tree.Exts(), disk, bs) && Injective(tree.Exts()) && Spare(tree.Exts(), disk, bs, avail)
      && (forall e :: e in block0 ==> e.ptr + ActualLen(e) !in avail)
    }

    ghost predicate Valid()
      reads this, tree
    {
      Stored() && forall l: nat :: Beyond(l)
    }

    /** Blocks at or beyond the end of the file are unmapped. */
    ghost predicate Beyond(l: nat)
      requires tree.Valid() && bs > 0
      reads this, tree
    {
      l >= RoundUp(size, bs) ==> Lookup(tree.Exts(), l) == None
    }

    /** An empty file. */
    constructor (tree: ExtentTree, bs: nat, disk: seq<byte>, avail: seq<nat>, block0: seq<Entry>)
      requires tree.Valid() && tree.Exts() == [] && bs > 0 && Spare([], disk, bs, avail)
      requires forall e :: e in block0 ==> e.ptr + ActualLen(e) !in avail
      ensures Valid() && size == 0
    {
      this.tree, this.bs, this.block0, this.disk, size, this.avail := tree, bs, block0, disk, 0, avail;
    }

    ghost function At(k: nat): byte
      requires Valid()
      reads this, tree
    {
      ByteAt(tree.Exts(), disk, bs, k)
    }

    lemma ValidDisk()
      requires Valid()
      ensures tree.Valid() && bs > 0 && OnDisk(tree.Exts(), disk, bs)
    {
    }

    /** The physical block of a logical one, 0 in a hole, and whether the extent found is unwritten. */
    method State(l: u32) returns (pblock: nat, unwritten: bool)
      requires tree.Valid()
      ensures Lookup(tree.Exts(), l) == None ==> pblock == 0
      ensures Lookup(tree.Exts(), l).Some? ==> pblock > 0 && Lookup(tree.Exts(), l) == Some(Mapping(pblock, unwritten))
      ensures unwritten == Reported(tree.Exts(), l)
    {
      var path := tree.FindExtent(l);
      var node := path[|path| - 1];
      if tree.root == [] {
        TreeEmpty(tree);
        return 0, false;
      }
      FindSlotLookup(tree.Exts(), l);
      assert GoodEntry(tree.Exts()[FindSlot(tree.Exts(), l)]);
      pblock := node.pblock;
      unwritten := node.extent.Some? && IsUnwritten(node.extent.value);
    }

    /** Part of one block: zeros in a hole or an unwritten extent, else what the device holds. */
    method BlockPart(l: u32, off: nat, n: nat) returns (data: seq<byte>)
      requires Valid() && off + n <= bs
      ensures |data| == n && forall i: nat :: i < n ==> data[i] == At(l * bs + off + i)
    {
      hide Lookup, GoodExtents, Injective, Spare;
      var pblock, unwritten := State(l);
      ghost var es := tree.Exts();
      assert BlockOnDisk(es, disk, bs, l);
      if pblock == 0 || unwritten {
        data := Zeros(n);
      } else {
        data := disk[pblock * bs..pblock * bs + bs][off..off + n];
      }
      forall i: nat | i < n
        ensures data[i] == At(l * bs + off + i)
      {
        BlockBytes(es, disk, bs, l, off + i, l * bs + off + i);
      }
    }

    /** Part of a block, as bytes of the file from `pos` on. */
    method FilePart(l: u32, off: nat, n: nat, ghost pos: nat, ghost view: seq<byte>) returns (data: seq<byte>)
      requires Valid() && off + n <= bs && pos == Start(l, bs) + off && pos + n <= |view|
      requires IsView(tree.Exts(), disk, bs, view)
      ensures data == view[pos..pos + n]
    {
      data := BlockPart(l, off, n);
    }

    /** `len` bytes from `offset` on: an unaligned first piece, then block by block. */
    method ReadRange(offset: nat, len: nat) returns (out: seq<byte>)
      requires Valid() && size <= Start(0xFFFF_FFFF, bs) && len > 0 && offset + len <= size
      ensures |out| == len && forall i: nat :: i < len ==> out[i] == At(offset + i)
    {
      hide Valid, ByteAt, IsView, Start;
      ValidDisk();
      ghost var view := ViewOf(tree.Exts(), disk, bs, offset + len);
      out := ReadView(offset, len, view);
      forall i: nat | i < len
        ensures out[i] == At(offset + i)
      {
        ViewByte(view, offset, len, i);
      }
    }

    method ReadView(offset: nat, len: nat, ghost view: seq<byte>) returns (out: seq<byte>)
      requires Valid() && size <= Start(0xFFFF_FFFF, bs) && len > 0 && offset + len <= size
      requires tree.Valid() && bs > 0 && OnDisk(tree.Exts(), disk, bs) && |view| == offset + len
      requires IsView(tree.Exts(), disk, bs, view)
      ensures out == view[offset..]
    {
      hide Valid, OnDisk, RoundUp, IsView, Start;
      hide ExtentTree.Valid, ExtentTree.Exts;
      var total := RoundUp(size, bs);
      var iblock: nat := offset / bs;
      var last := Min(RoundUp(offset + len, bs), total);
      var unaligned := offset % bs;
      out := [];
      BlockBelow(offset, size, bs);
      if unaligned > 0 {
        var piece := Min(bs - unaligned, len);
        out := FilePart(iblock, unaligned, piece, offset, view);
        iblock := iblock + 1;
      }
      StillBelow(offset, len, size, bs, |out|, iblock);
      while |out| < len && iblock < last
        invariant |out| <= len && (|out| < len ==> Start(iblock, bs) == offset + |out| && iblock < last)
        invariant out == view[offset..offset + |out|]
        decreases len - |out|
      {
        var n := |out|;
        var piece := Min(bs, len - n);
        if iblock >= total - 1 {
          var remaining := if size <= Start(iblock, bs) then 0 else size - Start(iblock, bs);
          if remaining < piece {
            piece := remaining;
          }
        }
        ReadStep(offset, len, size, bs, n, iblock, piece);
        var data := FilePart(iblock, 0, piece, offset + n, view);
        Adjoining(view, offset, offset + n, offset + n + piece);
        out := out + data;
        iblock := iblock + 1;
      }
    }

    lemma ViewByte(view: seq<byte>, offset: nat, len: nat, i: nat)
      requires Valid() && OnDisk(tree.Exts(), disk, bs) && IsView(tree.Exts(), disk, bs, view) && offset + len <= |view|
      requires i < len
      ensures view[offset..offset + len][i] == At(offset + i)
    {
    }

    /** Read from `offset`, stopping at the end of the file: the bytes of the file, zeros in holes. */
    method ReadAt(offset: nat, buf: array<byte>) returns (n: nat)
      requires Valid() && size <= Start(0xFFFF_FFFF, bs)
      modifies buf
      ensures n == if offset >= size then 0 else Min(buf.Length, size - offset)
      ensures forall i: nat :: i < n ==> buf[i] == At(offset + i)
      ensures forall i: nat :: n <= i < buf.Length ==> buf[i] == old(buf[i])
    {
      hide Valid, ByteAt;
      if buf.Length == 0 || offset >= size {
        return 0;
      }
      var len := Min(buf.Length, size - offset);
      var data := ReadRange(offset, len);
      CopyInto(buf, data);
      return len;
    }

    // ---- writing -----------------------------------------------------------------------------------------

    /** Where a run of blocks reported unwritten ends. */
    method ReportedRun(lb: nat, last: nat) returns (end: nat)
      requires tree.Valid() && lb < last <= 0xFFFF_FFFF && Reported(tree.Exts(), lb)
      ensures lb < end <= last && forall l: nat :: lb <= l < end ==> Reported(tree.Exts(), l)
    {
      hide Lookup, Reported;
      end := lb + 1;
      var pblock, more := 0, end < last;
      if more {
        pblock, more := State(end);
      }
      while more
        invariant lb < end <= last && (more ==> end < last && Reported(tree.Exts(), end))
        invariant forall l: nat :: lb <= l < end ==> Reported(tree.Exts(), l)
        decreases last - end
      {
        end := end + 1;
        more := end < last;
        if more {
          pblock, more := State(end);
        }
      }
    }

    /**
     The pass over preallocated blocks in front of a write. Of the blocks it is asked about, only holes behind a
     preallocated extent are reported unwritten; removing those changes nothing.
     */
    method ConvertUnwritten(start: nat, last: nat, lastFirst: u32)
      requires Stored() && start <= last <= 0xFFFF_FFFF && NoPreallocated(tree.Exts(), tree.depth, start, last)
      modifies tree`root, tree`store
      ensures tree.root == old(tree.root) && tree.store == old(tree.store)
    {
      hide Lookup, OnDisk, Injective, Spare, Reported;
      var lb := start;
      while lb < last
        invariant start <= lb <= last && Stored() && tree.root == old(tree.root) && tree.store == old(tree.store)
        decreases last - lb
      {
        var pblock, unwritten := State(lb);
        if !unwritten {
          lb := lb + 1;
          continue;
        }
        var end := ReportedRun(lb, last);
        HolesReported(tree, start, last, lb, end);
        RemoveHole(tree, lb, end - 1, lastFirst);
        lb := end;
      }
    }

    /** A block at or beyond the old end of the file, or one no extent covers. */
    method IsHole(b: u32, fileBlocks: nat) returns (h: bool)
      requires tree.Valid()
      ensures h == (b >= fileBlocks || Lookup(tree.Exts(), b) == None)
    {
      if b >= fileBlocks {
        return true;
      }
      var pblock, unwritten := State(b);
      return pblock == 0;
    }

    /** Where a run of holes ends. */
    method HoleRun(lb: nat, last: nat, fileBlocks: nat) returns (end: nat)
      requires tree.Valid() && lb < last <= 0xFFFF_FFFF && Lookup(tree.Exts(), lb) == None
      requires forall l: nat :: l >= lb && l >= fileBlocks ==> Lookup(tree.Exts(), l) == None
      ensures lb < end <= last && forall l: nat :: lb <= l < end ==> Lookup(tree.Exts(), l) == None
    {
      hide Lookup;
      end := lb + 1;
      var more := end < last;
      if more {
        more := IsHole(end, fileBlocks);
      }
      while more
        invariant lb < end <= last && (more ==> end < last && Lookup(tree.Exts(), end) == None)
        invariant forall l: nat :: lb <= l < end ==> Lookup(tree.Exts(), l) == None
        decreases last - end
      {
        end := end + 1;
        more := end < last;
        if more {
          more := IsHole(end, fileBlocks);
        }
      }
    }

    /** How many holes there are from `lb` on, none if there is a block. */
    method HolesFrom(lb: nat, last: nat, fileBlocks: nat, ghost was: seq<Entry>, ghost start: nat, ghost pool: seq<nat>)
      returns (count: nat)
      requires tree.Valid() && start <= lb < last <= 0xFFFF_FFFF && Filled(was, tree.Exts(), start, lb, pool)
      requires forall l: nat :: l >= fileBlocks ==> Lookup(was, l) == None
      ensures lb + count <= last && Lookup(was, lb) == Lookup(tree.Exts(), lb)
      ensures count == 0 <==> Lookup(was, lb).Some?
      ensures forall l: nat :: lb <= l < lb + count ==> Lookup(tree.Exts(), l) == None
    {
      hide Lookup, Filled, GoodExtents;
      var hole := IsHole(lb, fileBlocks);
      StillThere(was, tree.Exts(), start, lb, pool, lb);
      if !hole {
        return 0;
      }
      HolesOnward(was, tree.Exts(), start, lb, pool, fileBlocks);
      var end := HoleRun(lb, last, fileBlocks);
      return end - lb;
    }

    /** Map a run of holes to spare blocks, as far as they go. */
    method FillRun(lb: u32, count: nat, ghost was: seq<Entry>, ghost start: nat, ghost pool: seq<nat>)
      returns (r: Result<nat>)
      requires Stored() && lb + count <= 0xFFFF_FFFF && count > 0 && start <= lb
      requires Filled(was, tree.Exts(), start, lb, pool) && Within(avail, pool)
      requires forall l: nat :: lb <= l < lb + count ==> Lookup(tree.Exts(), l) == None
      modifies tree, this`avail
      ensures r.Ok? ==> Stored() && r.value == Min(count, |old(avail)|) && avail == old(avail)[r.value..]
      ensures r.Ok? ==> Filled(was, tree.Exts(), start, lb + r.value, pool) && Within(avail, pool)
      ensures r.Ok? ==> Lasts(old(tree.depth), old(tree.free), tree.depth, tree.free, count)
      ensures r.Err? ==> r == Err(ENOSPC) && |old(tree.free)| < NodesFor(count, old(tree.depth))
    {
      hide Lookup, GoodExtents, OnDisk, Injective, Spare, Filled, FreeRange, BatchPieces;
      hide Lasts, NodesFor, Runs;
      var n := Min(count, |avail|);
      LastsNone(tree.depth, tree.free);
      LastsMore(tree.depth, tree.free, tree.depth, tree.free, 0, count);
      ghost var es := tree.Exts();
      var blocks := avail[..n];
      if n > 0 {
        BatchReady(es, disk, bs, avail, block0, lb, n, count, tree.depth);
        ghost var pieces := |BatchPieces(lb, blocks, false)|;
        var done := MapBatch(tree, lb, blocks, false, block0);
        if done.Err? {
          return Err(ENOSPC);
        }
        LastsMore(old(tree.depth), old(tree.free), tree.depth, tree.free, pieces, count);
        BatchFills(was, es, tree.Exts(), disk, bs, avail, n, start, lb, pool);
      }
      assert n == 0 ==> avail[n..] == avail;
      avail := avail[n..];
      return Ok(n);
    }

    /** The holes in front of `lb` are filled, and the free nodes that were enough for all are enough for the rest. */
    ghost predicate Filling(was: seq<Entry>, start: nat, lb: nat, pool: seq<nat>, d0: nat, f0: seq<nat>)
      reads this, tree
    {
      && Stored() && start <= lb && Filled(was, tree.Exts(), start, lb, pool) && Within(avail, pool)
      && Lasts(d0, f0, tree.depth, tree.free, lb - start)
    }

    /** Pass one block, or fill one run of holes; `full` if the space ran out at the block answered. */
    method FillNext(lb: nat, last: nat, fileBlocks: nat, ghost was: seq<Entry>, ghost start: nat, ghost pool: seq<nat>,
        ghost d0: nat, ghost f0: seq<nat>)
      returns (r: Result<nat>, full: bool)
      requires Filling(was, start, lb, pool, d0, f0) && lb < last <= 0xFFFF_FFFF
      requires forall l: nat :: l >= fileBlocks ==> Lookup(was, l) == None
      requires Lookup(was, lb).Some? ==> Initialised(was, lb)
      modifies tree, this`avail
      ensures r.Ok? && !full ==> lb < r.value <= last && Filling(was, start, r.value, pool, d0, f0)
      ensures r.Ok? && full ==>
                && lb <= r.value < last && Stored() && Filled(was, tree.Exts(), start, r.value, pool) && avail == []
                && Lookup(was, r.value) == None && (r.value == lb ==> old(avail) == [])
      ensures r.Err? ==> r == Err(ENOSPC) && |f0| < NodesFor(last - start, d0)
    {
      hide Lookup, OnDisk, Injective, Spare, Filled, Lasts, NodesFor, GoodExtents, Tree, Matches, FreeOk, Within;
      full := false;
      var count := HolesFrom(lb, last, fileBlocks, was, start, pool);
      ghost var d1, f1 := tree.depth, tree.free;
      if count == 0 {
        FilledNext(was, tree.Exts(), start, lb, pool);
        LastsMore(d0, f0, d1, f1, lb - start, lb + 1 - start);
        return Ok(lb + 1), false;
      }
      if |avail| < count {
        StillThere(was, tree.Exts(), start, lb, pool, lb + |avail|);
      }
      r := FillRun(lb, count, was, start, pool);
      if r.Err? {
        TooFew(d0, f0, d1, f1, lb - start, count, last - start);
        return;
      }
      if r.value < count {
        return Ok(lb + r.value), true;
      }
      LastsOn(d0, f0, d1, f1, tree.depth, tree.free, lb - start, count);
      return Ok(lb + count), false;
    }

    /** Map every hole the write touches; answer the first block that got none, if the space ran out. */
    method FillHoles(start: nat, last: nat) returns (r: Result<Option<nat>>)
      requires Valid() && start < last <= 0xFFFF_FFFF
      requires forall l: nat :: start <= l < last && Lookup(tree.Exts(), l).Some? ==> Initialised(tree.Exts(), l)
      modifies tree, this`avail
      ensures r.Ok? ==> Stored() && (r.value.Some? ==> start <= r.value.value < last && avail == [])
      ensures r.Ok? ==>
                Filled(old(tree.Exts()), tree.Exts(), start, if r.value.Some? then r.value.value else last, old(avail))
      ensures r.Ok? && r.value.Some? ==> Lookup(old(tree.Exts()), r.value.value) == None
      ensures r == Ok(Some(start)) ==> old(avail) == []
      ensures r.Err? ==> r == Err(ENOSPC) && |old(tree.free)| < NodesFor(last - start, old(tree.depth))
    {
      hide Lookup, OnDisk, Injective, Spare, Filled, Lasts, NodesFor, GoodExtents, Tree, Matches, FreeOk, Within;
      ghost var was, pool, d0, f0 := tree.Exts(), avail, tree.depth, tree.free;
      LastsNone(d0, f0);
      WithinSelf(avail);
      FilledStart(was, start, pool);
      var fileBlocks := RoundUp(size, bs);
      forall l: nat | l >= fileBlocks
        ensures Lookup(was, l) == None
      {
        assert Beyond(l);
      }
      hide Stored, RoundUp;
      var lb := start;
      while lb < last
        invariant start <= lb <= last && Filling(was, start, lb, pool, d0, f0) && (lb == start ==> avail == old(avail))
        decreases last - lb
      {
        hide Filling;
        var next, full := FillNext(lb, last, fileBlocks, was, start, pool, d0, f0);
        if next.Err? {
          return Err(ENOSPC);
        }
        if full {
          return Ok(Some(next.value));
        }
        lb := next.value;
      }
      return Ok(None);
    }

    /** Read a block, replace part of it, write it back. */
    method WritePiece(l: u32, off: nat, chunk: seq<byte>)
      requires Stored() && Initialised(tree.Exts(), l) && off + |chunk| <= bs
      modifies this`disk
      ensures var p := Lookup(tree.Exts(), l).value.block;
              p * bs + bs <= |old(disk)| && disk == Splice(old(disk), p * bs + off, chunk)
    {
      hide Lookup, GoodExtents, Injective, Spare;
      var pblock, unwritten := State(l);
      assert BlockOnDisk(tree.Exts(), disk, bs, l);
      var block := disk[pblock * bs..pblock * bs + bs];
      BlockSplice(disk, pblock * bs, bs, off, chunk);
      disk := Splice(disk, pblock * bs, Splice(block, off, chunk));
    }

    /** One piece of the data, into block `l`. */
    method WriteData(l: u32, off: nat, n: nat, offset: nat, data: seq<byte>, written: nat, ghost was: seq<byte>)
      requires Stored() && Initialised(tree.Exts(), l) && off + n <= bs && written + n <= |data|
      requires Start(l, bs) + off == offset + written
      requires OnDisk(tree.Exts(), was, bs) && Wrote(tree.Exts(), was, disk, bs, offset, data, written)
      modifies this`disk
      ensures Stored() && |disk| == |old(disk)|
      ensures Wrote(tree.Exts(), was, disk, bs, offset, data, written + n)
    {
      hide Lookup, Injective, Spare, OnDisk, Wrote;
      WroteMore(tree.Exts(), was, disk, bs, offset, data, written, l, off, n);
      WritePiece(l, off, data[written..written + n]);
      SpareSized(tree.Exts(), old(disk), disk, bs, avail);
    }

    /** Write the data over blocks that are all mapped: an unaligned first piece, then block by block. */
    method WriteBlocks(offset: nat, data: seq<byte>, len: nat)
      requires Stored() && 0 < len <= |data| && offset + len <= Start(0xFFFF_FFFF, bs)
      requires AllInitialised(tree.Exts(), offset / bs, RoundUp(offset + len, bs))
      modifies this`disk
      ensures Stored() && |disk| == |old(disk)|
      ensures OnDisk(tree.Exts(), old(disk), bs) && Wrote(tree.Exts(), old(disk), disk, bs, offset, data, len)
    {
      ghost var was := disk;
      NothingWritten(tree.Exts(), disk, bs, offset, data);
      StoredDisk();
      hide Stored, OnDisk, Wrote, RoundUp, Start, Initialised, AllInitialised;
      var unaligned := offset % bs;
      var iblk: nat := offset / bs;
      var written := 0;
      BlockBelow(offset, offset + len, bs);
      RoundUpAbove(offset + len, iblk, bs);
      StartIs(iblk, bs);
      BlockReady(tree.Exts(), offset / bs, RoundUp(offset + len, bs), iblk);
      if unaligned > 0 {
        var n := Min(len, bs - unaligned);
        WriteData(iblk, unaligned, n, offset, data, 0, was);
        written := n;
        iblk := iblk + 1;
      }
      while written < len
        invariant 0 <= written <= len && offset / bs <= iblk && (written < len ==> Start(iblk, bs) == offset + written)
        invariant Stored() && |disk| == |was| && tree.Valid() && tree.Exts() == old(tree.Exts())
        invariant OnDisk(tree.Exts(), was, bs) && OnDisk(tree.Exts(), disk, bs)
        invariant Wrote(tree.Exts(), was, disk, bs, offset, data, written)
        decreases len - written
      {
        var n := Min(bs, len - written);
        WriteStep(offset, len, bs, written, iblk, n);
        BlockReady(tree.Exts(), offset / bs, RoundUp(offset + len, bs), iblk);
        WriteData(iblk, 0, n, offset, data, written, was);
        StoredDisk();
        written := written + n;
        iblk := iblk + 1;
      }
    }

    lemma StoredDisk()
      requires Stored()
      ensures tree.Valid() && bs > 0 && OnDisk(tree.Exts(), disk, bs)
    {
    }

    /** Map every block a write of `len` bytes reaches; answer how many bytes there is space for. */
    method Prepare(offset: nat, len: nat, lastFirst: u32) returns (r: Result<nat>)
      requires Valid() && len > 0 && offset + len <= Start(0xFFFF_FFFF, bs)
      requires NoPreallocated(tree.Exts(), tree.depth, offset / bs, RoundUp(offset + len, bs))
      modifies tree, this`avail
      ensures r.Ok? ==> Stored() && 0 < r.value <= len
      ensures r.Ok? && r.value < len ==> avail == [] && HoleAt(old(tree.Exts()), bs, offset + r.value)
      ensures r.Ok? ==> Filled(old(tree.Exts()), tree.Exts(), offset / bs, RoundUp(offset + r.value, bs), old(avail))
      ensures r.Ok? ==> AllInitialised(tree.Exts(), offset / bs, RoundUp(offset + r.value, bs))
      ensures r.Err? ==>
                && r == Err(ENOSPC)
                && NoSpace(Lookup(old(tree.Exts()), offset / bs) == None, old(avail), old(tree.depth), old(tree.free),
                           BlocksOf(offset, len, bs))
    {
      hide Lookup, OnDisk, Injective, Spare, Filled, RoundUp, Start, Initialised, AllInitialised, GoodExtents;
      hide Tree, Matches, FreeOk, NoPreallocated, NodesFor;
      ghost var was, pool := tree.Exts(), avail;
      var start, last := offset / bs, RoundUp(offset + len, bs);
      WriteRange(offset, len, bs);
      NoneUnwritten(tree, start, last);
      ConvertUnwritten(start, last, lastFirst);
      var filled := FillHoles(start, last);
      if filled.Err? {
        return Err(ENOSPC);
      }
      var room := len;
      if filled.value.Some? {
        var f := filled.value.value;
        if f <= start {
          return Err(ENOSPC);
        }
        CutShort(offset, len, bs, f);
        room := Min(len, f * bs - offset);
      }
      NowInitialised(was, tree.Exts(), start, RoundUp(offset + room, bs), pool, last);
      return Ok(room);
    }

    /**
     Write at any offset, over blocks and holes but no preallocated block. The first `n` bytes are in the file; what
     was mapped keeps its other bytes; a fresh block keeps around the data whatever the device held there.
     */
    method WriteAt(offset: nat, data: seq<byte>, lastFirst: u32) returns (r: Result<nat>)
      requires Valid() && offset + |data| <= Start(0xFFFF_FFFF, bs)
      requires NoPreallocated(tree.Exts(), tree.depth, offset / bs, RoundUp(offset + |data|, bs))
      modifies tree, this`disk, this`size, this`avail
      ensures r.Ok? ==> Valid() && r.value <= |data|
      ensures r.Ok? && r.value < |data| ==>
                r.value > 0 && avail == [] && HoleAt(old(tree.Exts()), bs, offset + r.value)
      ensures r.Ok? ==> size == if data == [] || old(size) >= offset + r.value then old(size) else offset + r.value
      ensures r.Ok? ==>
                var hi := if data == [] then offset / bs else RoundUp(offset + r.value, bs);
                Filled(old(tree.Exts()), tree.Exts(), offset / bs, hi, old(avail))
      ensures r.Ok? ==> forall i: nat :: i < r.value ==> At(offset + i) == data[i]
      ensures r.Ok? ==>
                var was, n := old(tree.Exts()), r.value;
                forall k: nat :: !(offset <= k < offset + n) && Untouched(was, bs, offset, n, k) ==> At(k) == old(At(k))
      ensures r.Ok? ==> OnDisk(tree.Exts(), old(disk), bs) && |disk| == |old(disk)|
      ensures r.Ok? ==>
                forall k: nat :: !(offset <= k < offset + r.value) ==> At(k) == ByteAt(tree.Exts(), old(disk), bs, k)
      ensures r.Ok? ==>
                forall k: nat :: !(offset <= k < offset + r.value) ==>
                                   (At(k) != old(At(k)) <==> Stale(old(tree.Exts()), tree.Exts(), old(disk), bs, k))
      ensures r.Ok? && ZeroBlocks(old(avail), old(disk), bs) ==>
                forall k: nat :: !(offset <= k < offset + r.value) ==> At(k) == old(At(k))
      ensures r.Err? ==> data != []
      ensures r.Err? ==>
                || (r == Err(ENOSPC)
                    && NoSpace(Lookup(old(tree.Exts()), offset / bs) == None, old(avail), old(tree.depth),
                               old(tree.free), BlocksOf(offset, |data|, bs)))
                || (r == Err(EFBIG) && offset + |data| > EXT4_MAX_FILE_SIZE)
    {
      hide Lookup, OnDisk, Injective, Spare, Filled, ByteAt, RoundUp, Start, Wrote, Initialised, AllInitialised;
      hide NoPreallocated, NotPreallocated, Untouched, Stale, ZeroBlocks, NodesFor, BlocksOf;
      ghost var was, before, pool := tree.Exts(), disk, avail;
      ValidDisk();
      NoneStale(was, disk, bs);
      FilledStart(was, offset / bs, pool);
      if data == [] {
        return Ok(0);
      }
      forall l: nat | l >= RoundUp(size, bs)
        ensures Lookup(was, l) == None
      {
        assert Beyond(l);
      }
      var prepared := Prepare(offset, |data|, lastFirst);
      if prepared.Err? {
        return Err(ENOSPC);
      }
      r := WriteMapped(offset, data, prepared.value, was, pool);
    }

    /** Write the data over blocks now all mapped, and grow the file if it reaches beyond the end. */
    method WriteMapped(offset: nat, data: seq<byte>, len: nat, ghost was: seq<Entry>, ghost pool: seq<nat>)
      returns (r: Result<nat>)
      requires Stored() && OnDisk(was, disk, bs) && 0 < len <= |data| && offset + len <= Start(0xFFFF_FFFF, bs)
      requires Filled(was, tree.Exts(), offset / bs, RoundUp(offset + len, bs), pool)
      requires AllInitialised(tree.Exts(), offset / bs, RoundUp(offset + len, bs))
      requires forall l: nat :: l >= RoundUp(size, bs) ==> Lookup(was, l) == None
      modifies this`disk, this`size
      ensures r.Ok? ==> Valid() && r.value == len && |disk| == |old(disk)| && OnDisk(tree.Exts(), old(disk), bs)
      ensures r.Ok? ==> size == if old(size) >= offset + len then old(size) else offset + len
      ensures r.Ok? ==> forall i: nat :: i < len ==> At(offset + i) == data[i]
      ensures r.Ok? ==>
                forall k: nat :: !(offset <= k < offset + len) && Untouched(was, bs, offset, len, k) ==>
                                   At(k) == ByteAt(was, old(disk), bs, k)
      ensures r.Ok? ==>
                forall k: nat :: !(offset <= k < offset + len) ==> At(k) == ByteAt(tree.Exts(), old(disk), bs, k)
      ensures r.Ok? ==>
                forall k: nat :: !(offset <= k < offset + len) ==>
                                   (At(k) != ByteAt(was, old(disk), bs, k) <==>
                                    Stale(was, tree.Exts(), old(disk), bs, k))
      ensures r.Ok? && ZeroBlocks(pool, old(disk), bs) ==>
                forall k: nat :: !(offset <= k < offset + len) ==> At(k) == ByteAt(was, old(disk), bs, k)
      ensures r.Err? ==> r == Err(EFBIG) && offset + |data| > EXT4_MAX_FILE_SIZE
    {
      hide Lookup, OnDisk, Injective, Spare, Filled, ByteAt, RoundUp, Start, Wrote, Initialised, AllInitialised;
      hide Untouched, Stale, ZeroBlocks;
      ghost var before := disk;
      StoredDisk();
      WriteBlocks(offset, data, len);
      StoredDisk();
      var newSize := offset + len;
      if newSize > size {
        if newSize > EXT4_MAX_FILE_SIZE {
          return Err(EFBIG);
        }
        size := newSize;
      }
      forall l: nat
        ensures Beyond(l)
      {
        StillBeyond(was, tree.Exts(), old(size), size, offset, len, bs, pool, l);
      }
      WriteOutcome(was, tree.Exts(), before, disk, bs, offset, data, len, pool);
      return Ok(len);
    }
  }

  lemma WithinSelf(avail: seq<nat>)
    ensures Within(avail, avail)
  {
  }

  /** A block without an extent starts at offset `k`. */
  predicate HoleAt(es: seq<Entry>, bs: nat, k: nat)
    requires bs > 0
  {
    k % bs == 0 && Lookup(es, k / bs) == None
  }

  /** How many blocks `len` bytes from `offset` on reach. */
  function BlocksOf(offset: nat, len: nat, bs: nat): nat
    requires bs > 0
  {
    var n := RoundUp(offset + len, bs);
    if n <= offset / bs then 0 else n - offset / bs
  }

  /** No spare block at all for a hole that comes first, or fewer free nodes than mapping `n` blocks may take. */
  predicate NoSpace(hole: bool, avail: seq<nat>, depth: nat, free: seq<nat>, n: nat) {
    (hole && avail == []) || |free| < NodesFor(n, depth)
  }

  /** Every piece of a batch covers a block. */
  lemma {:induction false} RunsCount(ps: seq<Entry>, cur: nat, blocks: seq<nat>, unwritten: bool)
    requires Runs(ps, cur, blocks, unwritten)
    ensures |ps| <= |blocks|
    decreases |ps|
  {
    if ps != [] {
      var n := ActualLen(ps[0]);
      RunsCount(ps[1..], cur + n, blocks[n..], unwritten);
    }
  }

  lemma Adjoining(s: seq<byte>, a: nat, b: nat, c: nat)
    requires a <= b <= c <= |s|
    ensures s[a..b] + s[b..c] == s[a..c]
  {
  }

  /** Fill the front of a buffer. */
  method CopyInto(buf: array<byte>, data: seq<byte>)
    requires |data| <= buf.Length
    modifies buf
    ensures forall j: nat :: j < buf.Length ==> buf[j] == if j < |data| then data[j] else old(buf[j])
  {
    for i := 0 to |data|
      invariant forall j: nat :: j < buf.Length ==> buf[j] == if j < i then data[j] else old(buf[j])
    {
      buf[i] := data[i];
    }
  }

  /** The first bytes of a file. */
  ghost predicate IsView(es: seq<Entry>, disk: seq<byte>, bs: nat, view: seq<byte>)
    requires OnDisk(es, disk, bs)
  {
    forall k: nat :: k < |view| ==> view[k] == ByteAt(es, disk, bs, k)
  }

  ghost function ViewOf(es: seq<Entry>, disk: seq<byte>, bs: nat, n: nat): (r: seq<byte>)
    requires OnDisk(es, disk, bs)
    ensures |r| == n && IsView(es, disk, bs, r)
  {
    seq(n, k requires 0 <= k < n => ByteAt(es, disk, bs, k))
  }

  lemma StillBelow(offset: nat, len: nat, size: nat, bs: nat, n: nat, iblock: nat)
    requires bs > 0 && offset + len <= size && n <= len && (n < len ==> Start(iblock, bs) == offset + n)
    ensures n < len ==> iblock < Min(RoundUp(offset + len, bs), RoundUp(size, bs))
  {
    RoundUpAbove(offset + len, iblock, bs);
    RoundUpAbove(size, iblock, bs);
  }

  lemma ReadStep(offset: nat, len: nat, size: nat, bs: nat, n: nat, iblock: nat, piece: nat)
    requires bs > 0 && offset + len <= size <= Start(0xFFFF_FFFF, bs) && n < len && Start(iblock, bs) == offset + n
    requires piece == Min(bs, len - n) || (piece < Min(bs, len - n) && piece == size - Start(iblock, bs))
    ensures piece == Min(bs, len - n) && iblock < 0xFFFF_FFFF
    ensures n + piece < len ==>
            Start(iblock + 1, bs) == offset + n + piece
                && iblock + 1 < Min(RoundUp(offset + len, bs), RoundUp(size, bs))
  {
    NextBlock(iblock, bs, 0);
    if iblock >= 0xFFFF_FFFF {
      Multiples(0xFFFF_FFFF, iblock, bs);
    }
    StillBelow(offset, len, size, bs, n + piece, iblock + 1);
  }

  lemma TreeEmpty(tree: ExtentTree)
    requires tree.Valid() && tree.root == []
    ensures tree.Exts() == [] && forall l: nat :: Lookup(tree.Exts(), l) == None
  {
    hide Tree, Matches, FreeOk, GoodExtents;
    RootFacts(tree.levels, tree.Cap(), tree.depth, tree.root, tree.store);
    FlatOne(Node(0, []));
  }

  /** Where a byte is, and that its block has a number. */
  lemma BlockBelow(k: nat, size: nat, bs: nat)
    requires bs > 0 && k < size <= Start(0xFFFF_FFFF, bs)
    ensures k / bs < 0xFFFF_FFFF && Start(k / bs, bs) + k % bs == k && k % bs < bs
    ensures Start(k / bs + 1, bs) == Start(k / bs, bs) + bs
  {
    BlockOf(k, k / bs, bs);
    NextBlock(k / bs, bs, 0);
    if k / bs >= 0xFFFF_FFFF {
      Multiples(0xFFFF_FFFF, k / bs, bs);
    }
  }

  /** Block `i` starts below `m` exactly when it is among the first blocks that hold `m` bytes. */
  lemma RoundUpAbove(m: nat, i: nat, bs: nat)
    requires bs > 0
    ensures i * bs < m <==> i < RoundUp(m, bs)
  {
    var q := RoundUp(m, bs);
    BlockOf(m + bs - 1, q, bs);
    if i < q {
      Multiples(i + 1, q, bs);
      assert (i + 1) * bs == i * bs + bs;
    } else {
      Multiples(q, i, bs);
    }
  }

  lemma NextBlock(l: nat, bs: nat, off: nat)
    requires bs > 0
    ensures (l + 1) * bs == l * bs + bs
    ensures off < bs ==> (l * bs + off) / bs == l && (l * bs + off) % bs == off
  {
    if off < bs {
      BlockOf(l * bs + off, l, bs);
    }
  }

  lemma SparePositive(es: seq<Entry>, disk: seq<byte>, bs: nat, avail: seq<nat>, n: nat)
    requires Spare(es, disk, bs, avail) && n <= |avail|
    ensures forall j :: 0 <= j < n ==> avail[..n][j] > 0
  {
  }

  /** No extent seen in block 0 continues into a batch of spare blocks. */
  lemma BatchApart(block0: seq<Entry>, avail: seq<nat>, lb: nat, n: nat)
    requires forall e :: e in block0 ==> e.ptr + ActualLen(e) !in avail
    requires 0 < n <= |avail| && lb + n <= 0xFFFF_FFFF
    ensures NoneMerges(block0, BatchPieces(lb, avail[..n], false))
  {
    hide BatchPieces;
    var ps := BatchPieces(lb, avail[..n], false);
    BatchRuns(lb, avail[..n], false);
    forall e, x | e in block0 && x in ps
      ensures !CanMerge(e, x)
    {
      RunsStart(ps, lb, avail[..n], false, x);
    }
  }

  /** Everything a batch of `n` spare blocks in a hole needs to be mapped. */
  lemma BatchReady(es: seq<Entry>, disk: seq<byte>, bs: nat, avail: seq<nat>, block0: seq<Entry>, lb: nat, n: nat,
      count: nat, depth: nat)
    requires Spare(es, disk, bs, avail) && forall e :: e in block0 ==> e.ptr + ActualLen(e) !in avail
    requires GoodExtents(es) && 0 < n <= |avail| && n <= count && lb + n <= 0xFFFF_FFFF
    requires forall l: nat :: lb <= l < lb + n ==> Lookup(es, l) == None
    ensures forall j :: 0 <= j < n ==> avail[..n][j] > 0
    ensures FreeRange(es, lb, lb + n) && NoneMerges(block0, BatchPieces(lb, avail[..n], false))
    ensures !Loses(es, BatchPieces(lb, avail[..n], false))
    ensures |BatchPieces(lb, avail[..n], false)| <= count
    ensures NodesFor(|BatchPieces(lb, avail[..n], false)|, depth) <= NodesFor(count, depth)
  {
    hide Lookup, GoodExtents, Spare, FreeRange, BatchPieces, Runs, Loses, NodesFor, NoneMerges;
    var blocks := avail[..n];
    SparePositive(es, disk, bs, avail, n);
    HoleIsFree(es, lb, lb + n);
    BatchApart(block0, avail, lb, n);
    BatchRuns(lb, blocks, false);
    InitialisedNeverLoses(es, BatchPieces(lb, blocks, false), lb, blocks);
    RunsCount(BatchPieces(lb, blocks, false), lb, blocks, false);
    NodesMore(|BatchPieces(lb, blocks, false)|, count, depth, depth);
  }

  /** Blocks from `lb` on are as they were. */
  lemma StillThere(was: seq<Entry>, now: seq<Entry>, start: nat, lb: nat, pool: seq<nat>, l: nat)
    requires Filled(was, now, start, lb, pool) && l >= lb
    ensures Lookup(now, l) == Lookup(was, l)
  {
    hide Lookup;
    assert FilledAt(was, now, start, lb, pool, l);
  }

  predicate AllInitialised(es: seq<Entry>, lo: nat, hi: nat) {
    forall l: nat :: lo <= l < hi ==> Initialised(es, l)
  }

  lemma BlockReady(es: seq<Entry>, lo: nat, hi: nat, l: nat)
    requires AllInitialised(es, lo, hi)
    ensures lo <= l < hi ==> Initialised(es, l)
  {
  }

  lemma SpareSized(es: seq<Entry>, d0: seq<byte>, d1: seq<byte>, bs: nat, avail: seq<nat>)
    requires Spare(es, d0, bs, avail) && |d0| == |d1|
    ensures Spare(es, d1, bs, avail)
  {
    hide Lookup;
  }

  lemma StartIs(l: nat, bs: nat)
    ensures Start(l, bs) == l * bs
  {
  }

  lemma WriteStep(offset: nat, len: nat, bs: nat, written: nat, iblk: nat, n: nat)
    requires bs > 0 && written < len && offset + len <= Start(0xFFFF_FFFF, bs) && Start(iblk, bs) == offset + written
    requires n == Min(bs, len - written)
    ensures iblk < 0xFFFF_FFFF && iblk < RoundUp(offset + len, bs)
    ensures written + n < len ==> Start(iblk + 1, bs) == offset + written + n
  {
    NextBlock(iblk, bs, 0);
    RoundUpAbove(offset + len, iblk, bs);
    if iblk >= 0xFFFF_FFFF {
      Multiples(0xFFFF_FFFF, iblk, bs);
    }
  }

  /** Byte `k` is in a block that was mapped before the write, or that the write does not reach. */
  predicate Untouched(was: seq<Entry>, bs: nat, offset: nat, n: nat, k: nat)
    requires bs > 0
  {
    Lookup(was, k / bs).Some? || !(offset / bs <= k / bs < RoundUp(offset + n, bs))
  }

  lemma WriteRange(offset: nat, len: nat, bs: nat)
    requires bs > 0 && len > 0 && offset + len <= Start(0xFFFF_FFFF, bs)
    ensures offset / bs < RoundUp(offset + len, bs) <= 0xFFFF_FFFF
  {
    BlockBelow(offset, offset + len, bs);
    RoundUpAbove(offset + len, offset / bs, bs);
    RoundUpAbove(offset + len, 0xFFFF_FFFF, bs);
  }

  /** A write cut short ends with the last block that got space. */
  lemma CutShort(offset: nat, len: nat, bs: nat, f: nat)
    requires bs > 0 && offset / bs < f < RoundUp(offset + len, bs)
    ensures offset < f * bs < offset + len && RoundUp(f * bs, bs) == f
    ensures f * bs % bs == 0 && f * bs / bs == f
  {
    BlockOf(f * bs, f, bs);
    RoundUpAbove(offset + len, f, bs);
    BlockOf(offset, offset / bs, bs);
    Multiples(offset / bs + 1, f, bs);
    assert (offset / bs + 1) * bs == offset / bs * bs + bs;
    RoundUpAbove(f * bs, f, bs);
    if f > 0 {
      RoundUpAbove(f * bs, f - 1, bs);
      assert (f - 1) * bs == f * bs - bs;
    }
  }

  lemma NowInitialised(was: seq<Entry>, now: seq<Entry>, lo: nat, hi: nat, pool: seq<nat>, last: nat)
    requires Filled(was, now, lo, hi, pool) && hi <= last
    requires forall l: nat :: lo <= l < last && Lookup(was, l).Some? ==> Initialised(was, l)
    ensures AllInitialised(now, lo, hi)
  {
    hide Lookup;
    forall l: nat | lo <= l < hi
      ensures Initialised(now, l)
    {
      assert FilledAt(was, now, lo, hi, pool, l);
    }
  }

  lemma StillBeyond(was: seq<Entry>, now: seq<Entry>, oldSize: nat, newSize: nat, offset: nat, len: nat, bs: nat,
      pool: seq<nat>, l: nat)
    requires bs > 0 && Filled(was, now, offset / bs, RoundUp(offset + len, bs), pool)
    requires l >= RoundUp(oldSize, bs) ==> Lookup(was, l) == None
    requires newSize >= oldSize && newSize >= offset + len
    ensures l >= RoundUp(newSize, bs) ==> Lookup(now, l) == None
  {
    hide Lookup, RoundUp;
    assert FilledAt(was, now, offset / bs, RoundUp(offset + len, bs), pool, l);
    RoundUpMonotone(oldSize, newSize, bs);
    RoundUpMonotone(offset + len, newSize, bs);
  }

  lemma RoundUpMonotone(a: nat, b: nat, bs: nat)
    requires bs > 0 && a <= b
    ensures RoundUp(a, bs) <= RoundUp(b, bs)
  {
    hide RoundUp;
    RoundUpAbove(a, RoundUp(b, bs), bs);
    RoundUpAbove(b, RoundUp(b, bs), bs);
  }

  /** Where nothing is mapped anew, nothing shows through. */
  lemma NoneStale(es: seq<Entry>, disk: seq<byte>, bs: nat)
    requires bs > 0
    ensures forall k: nat :: !Stale(es, es, disk, bs, k)
  {
    hide Lookup;
  }

  /** What the file holds after the holes were filled and the data written. */
  lemma WriteOutcome(was: seq<Entry>, now: seq<Entry>, d0: seq<byte>, d1: seq<byte>, bs: nat, offset: nat,
      data: seq<byte>, n: nat, pool: seq<nat>)
    requires bs > 0 && OnDisk(was, d0, bs) && OnDisk(now, d0, bs) && OnDisk(now, d1, bs) && n <= |data|
    requires Filled(was, now, offset / bs, RoundUp(offset + n, bs), pool) && Wrote(now, d0, d1, bs, offset, data, n)
    ensures forall k: nat :: offset <= k < offset + n ==> ByteAt(now, d1, bs, k) == data[k - offset]
    ensures forall k: nat :: !(offset <= k < offset + n) && Untouched(was, bs, offset, n, k) ==>
            ByteAt(now, d1, bs, k) == ByteAt(was, d0, bs, k)
    ensures forall k: nat :: !(offset <= k < offset + n) ==> ByteAt(now, d1, bs, k) == ByteAt(now, d0, bs, k)
    ensures forall k: nat :: !(offset <= k < offset + n) ==>
            (ByteAt(now, d1, bs, k) != ByteAt(was, d0, bs, k) <==> Stale(was, now, d0, bs, k))
    ensures ZeroBlocks(pool, d0, bs) ==> forall k: nat :: !Stale(was, now, d0, bs, k)
  {
    hide Lookup, ByteAt, OnDisk, RoundUp, Stale, ZeroBlocks;
    forall k: nat
      ensures offset <= k < offset + n ==> ByteAt(now, d1, bs, k) == data[k - offset]
      ensures !(offset <= k < offset + n) && Untouched(was, bs, offset, n, k) ==>
              ByteAt(now, d1, bs, k) == ByteAt(was, d0, bs, k)
      ensures !(offset <= k < offset + n) ==> ByteAt(now, d1, bs, k) == ByteAt(now, d0, bs, k)
      ensures ByteAt(now, d0, bs, k) != ByteAt(was, d0, bs, k) <==> Stale(was, now, d0, bs, k)
      ensures ZeroBlocks(pool, d0, bs) ==> !Stale(was, now, d0, bs, k)
    {
      assert WroteAt(now, d0, d1, bs, offset, data, n, k);
      FilledBytes(was, now, d0, bs, offset / bs, RoundUp(offset + n, bs), pool, k);
    }
  }

  /** No block of the range is preallocated; a hole reported as unwritten lies in a tree of at most one index level. */
  ghost predicate NoPreallocated(es: seq<Entry>, depth: nat, start: nat, last: nat) {
    forall l: nat :: start <= l < last ==> NotPreallocated(es, depth, l)
  }

  predicate NotPreallocated(es: seq<Entry>, depth: nat, l: nat) {
    Reported(es, l) ==> Lookup(es, l) == None && depth <= 1
  }

  lemma NoneUnwritten(tree: ExtentTree, start: nat, last: nat)
    requires tree.Valid() && NoPreallocated(tree.Exts(), tree.depth, start, last)
    ensures forall l: nat :: start <= l < last && Lookup(tree.Exts(), l).Some? ==> Initialised(tree.Exts(), l)
  {
    hide Lookup, Reported, Tree, Matches, FreeOk, GoodExtents;
    forall l: nat | start <= l < last && Lookup(tree.Exts(), l).Some?
      ensures Initialised(tree.Exts(), l)
    {
      assert NotPreallocated(tree.Exts(), tree.depth, l);
      ReportedMapped(tree.Exts(), l);
    }
  }

  lemma HolesReported(tree: ExtentTree, start: nat, last: nat, lb: nat, end: nat)
    requires tree.Valid() && NoPreallocated(tree.Exts(), tree.depth, start, last) && start <= lb < end <= last
    requires forall l: nat :: lb <= l < end ==> Reported(tree.Exts(), l)
    ensures tree.root != [] && tree.depth <= 1 && forall l: nat :: lb <= l <= end - 1 ==> Lookup(tree.Exts(), l) == None
  {
    hide Lookup, Tree, Matches, FreeOk, GoodExtents, FindSlot;
    forall l: nat | lb <= l < end
      ensures Lookup(tree.Exts(), l) == None && tree.depth <= 1
    {
      assert NotPreallocated(tree.Exts(), tree.depth, l);
    }
    assert Reported(tree.Exts(), lb);
    if tree.root == [] {
      TreeEmpty(tree);
      assert false;
    }
    assert NotPreallocated(tree.Exts(), tree.depth, lb);
  }

  lemma HolesOnward(was: seq<Entry>, now: seq<Entry>, start: nat, lb: nat, pool: seq<nat>, fileBlocks: nat)
    requires Filled(was, now, start, lb, pool) && forall l: nat :: l >= fileBlocks ==> Lookup(was, l) == None
    ensures forall l: nat :: l >= lb && l >= fileBlocks ==> Lookup(now, l) == None
  {
    hide Lookup;
    forall l: nat | l >= lb && l >= fileBlocks
      ensures Lookup(now, l) == None
    {
      assert FilledAt(was, now, start, lb, pool, l);
    }
  }
}
