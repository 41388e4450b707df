/** One block of a plain directory: records that tile it, found, inserted, removed and retargeted in place. */
module DirBlock {
  import opened Bytes
  import opened Outcome

  /** The checksum tail of a block. */
  const TAIL: nat := 12
  /** Fixed part of a record. */
  const HEADER: nat := 8
  /** The in-memory record with its full name field and padding, which is what gets copied into a block. */
  const RECORD: nat := 264

  type Name = seq<byte>

  datatype DirEntry = DirEntry(inode: u32, name: Name, kind: byte)

  // ---- fields --------------------------------------------------------------------------------------------

  function RecLen(buf: seq<byte>, off: nat): u16
    requires off + HEADER <= |buf|
  {
    Widths();
    GetLe16(buf, off + 4)
  }

  /** Header and name of the record at `off` lie inside its length, and the record inside `[off, end)`. */
  predicate GoodRecord(buf: seq<byte>, off: nat, end: nat) {
    && off + HEADER <= end <= |buf| && HEADER <= RecLen(buf, off) && off + RecLen(buf, off) <= end
    && (GetLe32(buf, off) != 0 ==> UsedLen(buf[off + 6]) <= RecLen(buf, off))
  }

  /** Header and name, padded to four bytes. */
  function UsedLen(nameLen: nat): nat {
    HEADER + nameLen + if nameLen % 4 != 0 then 4 - nameLen % 4 else 0
  }

  function EntryAt(buf: seq<byte>, off: nat): DirEntry
    requires off + HEADER <= |buf| && off + HEADER + buf[off + 6] <= |buf|
  {
    DirEntry(GetLe32(buf, off), buf[off + HEADER..off + HEADER + buf[off + 6]], buf[off + 7])
  }

  // ---- the records of a range ------------------------------------------------------------------------------

  /** Records fill `[off, end)` without gaps. */
  predicate Tiled(buf: seq<byte>, off: nat, end: nat)
    decreases end - off
  {
    off == end || (off < end && GoodRecord(buf, off, end) && Tiled(buf, off + RecLen(buf, off), end))
  }

  /** The live entry of one record, if any. */
  function One(buf: seq<byte>, off: nat, end: nat): seq<DirEntry>
    requires GoodRecord(buf, off, end)
  {
    if GetLe32(buf, off) == 0 then [] else [EntryAt(buf, off)]
  }

  /** The live entries of `[off, end)`, in order. */
  function Live(buf: seq<byte>, off: nat, end: nat): seq<DirEntry>
    requires Tiled(buf, off, end)
    decreases end - off
  {
    if off == end then [] else One(buf, off, end) + Live(buf, off + RecLen(buf, off), end)
  }

  lemma FieldsSame(a: seq<byte>, b: seq<byte>, off: nat, end: nat)
    requires |a| == |b| && end <= |a| && off + HEADER <= end && a[off..end] == b[off..end]
    ensures GetLe32(a, off) == GetLe32(b, off) && RecLen(a, off) == RecLen(b, off) && a[off + 6] == b[off + 6]
    ensures GoodRecord(a, off, end) <==> GoodRecord(b, off, end)
    ensures GoodRecord(a, off, end) ==> One(a, off, end) == One(b, off, end)
  {
    hide LeValue;
    Sub(a, off, b[off..end], 0, 4);
    Sub(b, off, a[off..end], 0, 4);
    Sub(a, off, b[off..end], 4, 2);
    Sub(b, off, a[off..end], 4, 2);
    assert a[off + 6] == a[off..end][6] && b[off + 6] == b[off..end][6];
    assert a[off + 7] == a[off..end][7] && b[off + 7] == b[off..end][7];
    if GoodRecord(a, off, end) && GetLe32(a, off) != 0 {
      var n: nat := a[off + 6];
      Sub(a, off, b[off..end], HEADER, n);
      Sub(b, off, a[off..end], HEADER, n);
    }
  }

  /** The records of a range depend on its bytes only. */
  lemma {:induction false} RangeSame(a: seq<byte>, b: seq<byte>, off: nat, end: nat)
    requires |a| == |b| && end <= |a| && off <= end && a[off..end] == b[off..end] && Tiled(a, off, end)
    ensures Tiled(b, off, end) && Live(b, off, end) == Live(a, off, end)
    decreases end - off
  {
    hide GoodRecord, RecLen, One;
    if off < end {
      GoodFacts(a, off, end);
      FieldsSame(a, b, off, end);
      var next := off + RecLen(a, off);
      assert a[next..end] == a[off..end][next - off..] && b[next..end] == b[off..end][next - off..];
      RangeSame(a, b, next, end);
    }
  }

  lemma GoodFacts(buf: seq<byte>, off: nat, end: nat)
    requires GoodRecord(buf, off, end)
    ensures off + HEADER <= end <= |buf| && HEADER <= RecLen(buf, off) && off + RecLen(buf, off) <= end
  {
  }

  /** A record does not care where the range around it ends. */
  lemma GoodShorter(buf: seq<byte>, off: nat, mid: nat, end: nat)
    requires mid <= end <= |buf| && GoodRecord(buf, off, mid)
    ensures GoodRecord(buf, off, end) && One(buf, off, end) == One(buf, off, mid)
  {
  }

  /** Two ranges next to each other. */
  lemma {:induction false} Joined(buf: seq<byte>, off: nat, mid: nat, end: nat)
    requires off <= mid <= end <= |buf| && Tiled(buf, off, mid) && Tiled(buf, mid, end)
    ensures Tiled(buf, off, end) && Live(buf, off, end) == Live(buf, off, mid) + Live(buf, mid, end)
    decreases mid - off
  {
    hide GoodRecord, RecLen, One;
    if off < mid {
      GoodFacts(buf, off, mid);
      GoodShorter(buf, off, mid, end);
      Joined(buf, off + RecLen(buf, off), mid, end);
      assert One(buf, off, end) + (Live(buf, off + RecLen(buf, off), mid) + Live(buf, mid, end))
          == One(buf, off, end) + Live(buf, off + RecLen(buf, off), mid) + Live(buf, mid, end);
    } else {
      assert [] + Live(buf, mid, end) == Live(buf, mid, end);
    }
  }

  /** The first record of a range, and the rest. */
  lemma FirstRecord(buf: seq<byte>, off: nat, end: nat)
    requires off < end && Tiled(buf, off, end)
    ensures GoodRecord(buf, off, end) && HEADER <= RecLen(buf, off) && off + RecLen(buf, off) <= end <= |buf|
    ensures Tiled(buf, off + RecLen(buf, off), end) && GoodRecord(buf, off, off + RecLen(buf, off))
    ensures Tiled(buf, off, off + RecLen(buf, off)) && Live(buf, off, off + RecLen(buf, off)) == One(buf, off, end)
    ensures Live(buf, off, end) == One(buf, off, end) + Live(buf, off + RecLen(buf, off), end)
  {
    var next := off + RecLen(buf, off);
    GoodShorter(buf, off, next, end) by { assert GoodRecord(buf, off, next); }
    assert One(buf, off, next) + [] == One(buf, off, next);
  }

  /** A single record that fills its range. */
  lemma WholeRecord(buf: seq<byte>, off: nat, end: nat)
    requires GoodRecord(buf, off, end) && off + RecLen(buf, off) == end
    ensures Tiled(buf, off, end) && Live(buf, off, end) == One(buf, off, end)
  {
    assert One(buf, off, end) + [] == One(buf, off, end);
  }

  // ---- searching ---------------------------------------------------------------------------------------------

  predicate Named(e: DirEntry, name: Name) {
    e.name == name
  }

  predicate Absent(es: seq<DirEntry>, name: Name) {
    forall i :: 0 <= i < |es| ==> !Named(es[i], name)
  }

  /** Where the first live record of that name is. */
  method Find(buf: seq<byte>, name: Name) returns (r: Option<nat>)
    requires |buf| >= TAIL && Tiled(buf, 0, |buf| - TAIL)
    ensures r.None? <==> Absent(Live(buf, 0, |buf| - TAIL), name)
    ensures r.Some? ==> FoundAt(buf, |buf| - TAIL, r.value, name)
  {
    hide Tiled, Live, GoodRecord, RecLen, EntryAt;
    var end := |buf| - TAIL;
    var off := 0;
    EmptyRange(buf, 0);
    while off < end
      invariant 0 <= off <= end && Tiled(buf, 0, off) && Tiled(buf, off, end) && Absent(Live(buf, 0, off), name)
      decreases end - off
    {
      FirstRecord(buf, off, end);
      Joined(buf, 0, off, end);
      LiveName(buf, off, end);
      var next := off + RecLen(buf, off);
      if GetLe32(buf, off) != 0 && buf[off + HEADER..off + HEADER + buf[off + 6]] == name {
        assert Live(buf, 0, end)[|Live(buf, 0, off)|] == EntryAt(buf, off);
        return Some(off);
      }
      Joined(buf, 0, off, next);
      off := next;
    }
    return None;
  }

  lemma EmptyRange(buf: seq<byte>, off: nat)
    ensures Tiled(buf, off, off) && Live(buf, off, off) == []
  {
  }

  lemma LiveName(buf: seq<byte>, off: nat, end: nat)
    requires GoodRecord(buf, off, end)
    ensures off + HEADER + buf[off + 6] <= |buf| || GetLe32(buf, off) == 0
    ensures GetLe32(buf, off) != 0 ==>
            One(buf, off, end) == [EntryAt(buf, off)]
                && EntryAt(buf, off).name == buf[off + HEADER..off + HEADER + buf[off + 6]]
    ensures GetLe32(buf, off) == 0 ==> One(buf, off, end) == []
  {
  }

  /** The record at `off` is live and named so, and no live record in front of it is. */
  ghost predicate FoundAt(buf: seq<byte>, end: nat, off: nat, name: Name) {
    && off < end && Tiled(buf, 0, off) && Tiled(buf, off, end) && GoodRecord(buf, off, end)
    && GetLe32(buf, off) != 0 && Named(EntryAt(buf, off), name) && Absent(Live(buf, 0, off), name)
  }

  // ---- inserting ----------------------------------------------------------------------------------------------

  /** Room a new record must find: its whole in-memory form, name length added once more, to four bytes. */
  function Required(nameLen: nat): nat {
    var len := RECORD + nameLen;
    len + if len % 4 != 0 then 4 - len % 4 else 0
  }

  /** Both lengths are the least multiple of four that is enough. */
  lemma RoundedUp(nameLen: nat)
    ensures Required(nameLen) % 4 == 0 && RECORD + nameLen <= Required(nameLen) < RECORD + nameLen + 4
    ensures UsedLen(nameLen) % 4 == 0 && HEADER + nameLen <= UsedLen(nameLen) < HEADER + nameLen + 4
  {
  }

  /** What is copied for a record: fixed part, name, the rest of the name field, one byte of padding. */
  function RecordBytes(ino: u32, rec: u16, name: Name, kind: byte, pad: byte): (r: seq<byte>)
    requires |name| <= 0xFF
    ensures |r| == RECORD
  {
    Le32(ino) + Le16(rec) + [|name|, kind] + name + Zeros(0xFF - |name|) + [pad]
  }

  lemma RecordFields(ino: u32, rec: u16, name: Name, kind: byte, pad: byte)
    requires |name| <= 0xFF
    ensures var e := RecordBytes(ino, rec, name, kind, pad);
            e[0..4] == Le32(ino) && e[4..6] == Le16(rec) && e[6] == |name| && e[7] == kind
                && e[HEADER..HEADER + |name|] == name
  {
    hide Le32, Le16;
  }

  /** A record just copied reads back. */
  lemma RecordReads(buf: seq<byte>, off: nat, end: nat, ino: u32, rec: u16, name: Name, kind: byte, pad: byte)
    requires |name| <= 0xFF && off + RECORD <= |buf| && off + rec <= end <= |buf| && UsedLen(|name|) <= rec && ino != 0
    requires buf[off..off + RECORD] == RecordBytes(ino, rec, name, kind, pad)
    ensures GoodRecord(buf, off, end) && RecLen(buf, off) == rec && One(buf, off, end) == [DirEntry(ino, name, kind)]
  {
    hide Le32, Le16, LeValue, RecordBytes;
    var e := RecordBytes(ino, rec, name, kind, pad);
    RecordFields(ino, rec, name, kind, pad);
    Sub(buf, off, e, 0, 4);
    Sub(buf, off, e, 4, 2);
    Sub(buf, off, e, HEADER, |name|);
    assert buf[off + 6] == buf[off..off + RECORD][6] && buf[off + 7] == buf[off..off + RECORD][7];
  }

  /** Changing the length of a record changes nothing else about it. */
  lemma Relength(buf: seq<byte>, off: nat, end: nat, len: u16, limit: nat)
    requires GoodRecord(buf, off, end) && off + len <= limit <= |buf| && HEADER <= len
    requires GetLe32(buf, off) != 0 ==> UsedLen(buf[off + 6]) <= len
    ensures var r := Splice(buf, off + 4, Le16(len));
            GoodRecord(r, off, limit) && RecLen(r, off) == len && One(r, off, limit) == One(buf, off, end)
  {
    hide LeValue, Le16;
    var r := Splice(buf, off + 4, Le16(len));
    assert r[off + 4..off + 6] == Le16(len);
    SliceFrame(r, buf, off, 4);
    if GetLe32(buf, off) != 0 {
      SliceFrame(r, buf, off + HEADER, buf[off + 6]);
    }
  }

  /** The record at `off`, cut to what it uses, with a new record in the rest. */
  function SplitRecord(buf: seq<byte>, off: nat, sz: u16, ino: u32, rec: u16, name: Name, kind: byte,
      pad: byte): (r: seq<byte>)
    requires |name| <= 0xFF && off + HEADER <= |buf| && off + sz + RECORD <= |buf|
    ensures |r| == |buf|
  {
    Splice(Splice(buf, off + 4, Le16(sz)), off + sz, RecordBytes(ino, rec, name, kind, pad))
  }

  lemma SplitFrame(buf: seq<byte>, off: nat, sz: u16, next: nat, ino: u32, rec: u16, name: Name, kind: byte, pad: byte)
    requires |name| <= 0xFF && HEADER <= sz && off + sz + RECORD <= next <= |buf|
    ensures var r, cut := SplitRecord(buf, off, sz, ino, rec, name, kind, pad), Splice(buf, off + 4, Le16(sz));
            && r[off..off + sz] == cut[off..off + sz]
                && r[off + sz..off + sz + RECORD] == RecordBytes(ino, rec, name, kind, pad)
            && forall k :: 0 <= k < |buf| && (k < off || k >= next) ==> r[k] == buf[k]
  {
    hide Le16, RecordBytes;
  }

  lemma SplitTiles(buf: seq<byte>, off: nat, end: nat, ino: u32, name: Name, kind: byte, pad: byte)
    requires end <= |buf| && Tiled(buf, 0, off) && Tiled(buf, off, end) && off < end && GoodRecord(buf, off, end)
    requires GetLe32(buf, off) != 0 && ino != 0 && |name| <= 0xFF
    requires Required(|name|) <= RecLen(buf, off) - UsedLen(buf[off + 6])
    ensures var sz := UsedLen(buf[off + 6]);
            var r := SplitRecord(buf, off, sz, ino, RecLen(buf, off) - sz, name, kind, pad);
            && r[end..] == buf[end..] && Tiled(r, 0, end)
            && Live(r, 0, end) == Live(buf, 0, off) + One(buf, off, end) + [DirEntry(ino, name, kind)]
                + Live(buf, off + RecLen(buf, off), end)
  {
    hide RecordBytes, LeValue, Le16, Tiled, Live, One, EntryAt, GetLe32, SplitRecord, GoodRecord;
    FirstRecord(buf, off, end);
    var rec: nat := RecLen(buf, off);
    var sz: nat := UsedLen(buf[off + 6]);
    var next: nat := off + rec;
    var r := SplitRecord(buf, off, sz, ino, rec - sz, name, kind, pad);
    SplitFrame(buf, off, sz, next, ino, rec - sz, name, kind, pad);
    Shortened(buf, r, off, sz, end);
    RecordReads(r, off + sz, next, ino, rec - sz, name, kind, pad);
    WholeRecord(r, off + sz, next);
    assert r[end..] == buf[end..];
    RangeSame(buf, r, 0, off) by { assert buf[0..off] == r[0..off]; }
    RangeSame(buf, r, next, end) by { assert buf[next..end] == r[next..end]; }
    Joined(r, off, off + sz, next);
    Joined(r, 0, off, next);
    Joined(r, 0, next, end);
    assert Live(buf, 0, off) + (One(buf, off, end) + [DirEntry(ino, name, kind)])
        == Live(buf, 0, off) + One(buf, off, end) + [DirEntry(ino, name, kind)];
  }

  /** The old record, cut to `sz` bytes. */
  lemma Shortened(buf: seq<byte>, r: seq<byte>, off: nat, sz: u16, end: nat)
    requires GoodRecord(buf, off, end) && |r| == |buf| && sz == UsedLen(buf[off + 6]) && off + sz <= |buf|
    requires r[off..off + sz] == Splice(buf, off + 4, Le16(sz))[off..off + sz]
    ensures Tiled(r, off, off + sz) && Live(r, off, off + sz) == One(buf, off, end)
  {
    hide LeValue, Le16, Tiled, Live, One, EntryAt, GetLe32;
    Relength(buf, off, end, sz, off + sz);
    FieldsSame(Splice(buf, off + 4, Le16(sz)), r, off, off + sz);
    WholeRecord(r, off, off + sz);
  }

  /** No live record has that much room behind it. */
  predicate Roomless(buf: seq<byte>, off: nat, end: nat, need: nat)
    requires Tiled(buf, off, end)
    decreases end - off
  {
    off == end || (!HasRoom(buf, off, need) && Roomless(buf, off + RecLen(buf, off), end, need))
  }

  predicate HasRoom(buf: seq<byte>, off: nat, need: nat)
    requires off + HEADER <= |buf|
  {
    GetLe32(buf, off) != 0 && RecLen(buf, off) - UsedLen(buf[off + 6]) >= need
  }

  /** The record at `off` is live and has room, and no live record in front of it has. */
  ghost predicate FirstRoom(buf: seq<byte>, end: nat, off: nat, need: nat) {
    && off < end <= |buf| && Tiled(buf, 0, off) && Roomless(buf, 0, off, need) && Tiled(buf, off, end)
    && GoodRecord(buf, off, end) && HasRoom(buf, off, need) && off + HEADER + buf[off + 6] <= |buf|
    && Tiled(buf, off + RecLen(buf, off), end)
  }

  /** `now` holds one live entry more, behind the first record that has room for it. */
  ghost predicate PutBehind(buf: seq<byte>, now: seq<byte>, end: nat, off: nat, e: DirEntry, need: nat)
    requires Tiled(now, 0, end)
  {
    && FirstRoom(buf, end, off, need)
    && Live(now, 0, end) == Live(buf, 0, off) + [EntryAt(buf, off), e] + Live(buf, off + RecLen(buf, off), end)
  }

  ghost predicate PutFirst(buf: seq<byte>, now: seq<byte>, end: nat, e: DirEntry, need: nat)
    requires Tiled(now, 0, end)
  {
    exists off: nat :: PutBehind(buf, now, end, off, e, need)
  }

  lemma {:induction false} RoomlessNext(buf: seq<byte>, from: nat, off: nat, next: nat, need: nat)
    requires next <= |buf| && Tiled(buf, from, off) && off < next && Tiled(buf, off, next)
    requires GoodRecord(buf, off, next) && next == off + RecLen(buf, off)
    requires Roomless(buf, from, off, need) && !HasRoom(buf, off, need)
    ensures Tiled(buf, from, next) && Roomless(buf, from, next, need)
    decreases off - from
  {
    hide GetLe32;
    Joined(buf, from, off, next);
    if from < off {
      RoomlessNext(buf, from + RecLen(buf, from), off, next, need);
    }
  }

  /** One entry more, somewhere; the others in order. */
  ghost predicate OneMore(was: seq<DirEntry>, now: seq<DirEntry>, e: DirEntry) {
    exists i :: 0 <= i <= |was| && now == was[..i] + [e] + was[i..]
  }

  /** Split the first live record that has room enough. */
  method TryInsert(buf: seq<byte>, name: Name, ino: u32, kind: byte, pad: byte) returns (r: Option<seq<byte>>)
    requires TAIL <= |buf| <= 0x1_0000 && Tiled(buf, 0, |buf| - TAIL) && |name| <= 0xFF && ino != 0
    ensures r.None? <==> Roomless(buf, 0, |buf| - TAIL, Required(|name|))
    ensures r.Some? ==>
            |r.value| == |buf| && r.value[|buf| - TAIL..] == buf[|buf| - TAIL..] && Tiled(r.value, 0, |buf| - TAIL)
    ensures r.Some? ==> OneMore(Live(buf, 0, |buf| - TAIL), Live(r.value, 0, |buf| - TAIL), DirEntry(ino, name, kind))
    ensures r.Some? ==>
              PutFirst(buf, r.value, |buf| - TAIL, DirEntry(ino, name, kind), Required(|name|))
  {
    hide Tiled, Live, GoodRecord, RecLen, EntryAt, SplitRecord, One, GetLe32;
    var end := |buf| - TAIL;
    var off := 0;
    var need := Required(|name|);
    EmptyRange(buf, 0);
    while off < end
      invariant 0 <= off <= end && Tiled(buf, 0, off) && Tiled(buf, off, end)
      invariant Roomless(buf, 0, end, need) <==> Roomless(buf, off, end, need)
      invariant Roomless(buf, 0, off, need)
      decreases end - off
    {
      FirstRecord(buf, off, end);
      var next := off + RecLen(buf, off);
      if HasRoom(buf, off, need) {
        var sz := UsedLen(buf[off + 6]);
        SplitTiles(buf, off, end, ino, name, kind, pad);
        Joined(buf, 0, off, end);
        var a, b := Live(buf, 0, off) + One(buf, off, end), Live(buf, next, end);
        assert Live(buf, 0, end) == a + b;
        assert (a + b)[..|a|] == a && (a + b)[|a|..] == b;
        LiveName(buf, off, end);
        var out := SplitRecord(buf, off, sz, ino, RecLen(buf, off) - sz, name, kind, pad);
        assert PutBehind(buf, out, end, off, DirEntry(ino, name, kind), need);
        return Some(out);
      }
      RoomlessNext(buf, 0, off, next, need);
      Joined(buf, 0, off, next);
      off := next;
    }
    return None;
  }

  /** The first record of a fresh block fills it. */
  lemma NewBlock(buf: seq<byte>, name: Name, ino: u32, kind: byte, pad: byte)
    requires TAIL + RECORD <= |buf| <= 0x1_0000 && |name| <= 0xFF && ino != 0
    ensures var end := |buf| - TAIL;
            var r := Splice(buf, 0, RecordBytes(ino, end, name, kind, pad));
            Tiled(r, 0, end) && Live(r, 0, end) == [DirEntry(ino, name, kind)]
  {
    hide RecordBytes;
    var end := |buf| - TAIL;
    var r := Splice(buf, 0, RecordBytes(ino, end, name, kind, pad));
    assert r[0..RECORD] == RecordBytes(ino, end, name, kind, pad);
    RecordReads(r, 0, end, ino, end, name, kind, pad);
    WholeRecord(r, 0, end);
  }

  // ---- removing -------------------------------------------------------------------------------------------------

  /** A record whose inode number is cleared is no longer live. */
  lemma Cleared(buf: seq<byte>, off: nat, end: nat)
    requires GoodRecord(buf, off, end)
    ensures var r := PutLe32(buf, off, 0);
            GoodRecord(r, off, end) && RecLen(r, off) == RecLen(buf, off) && One(r, off, end) == []
  {
    hide LeValue;
    SliceFrame(PutLe32(buf, off, 0), buf, off + 4, 2);
  }

  /** The record at `pos` cleared, and its length given to the one at `prev`. */
  function MergeRecord(buf: seq<byte>, prev: nat, pos: nat, len: u16): (r: seq<byte>)
    requires prev + HEADER <= |buf| && pos + HEADER <= |buf|
    ensures |r| == |buf|
  {
    Splice(PutLe32(buf, pos, 0), prev + 4, Le16(len))
  }

  lemma MergeFrame(buf: seq<byte>, prev: nat, pos: nat, len: u16)
    requires prev + HEADER <= pos && pos + HEADER <= |buf|
    ensures var r, gone := MergeRecord(buf, prev, pos, len), PutLe32(buf, pos, 0);
            && |gone| == |buf| && gone[prev..pos] == buf[prev..pos] && r == Splice(gone, prev + 4, Le16(len))
            && forall k :: 0 <= k < |buf| && (k < prev || k >= pos + 4) ==> r[k] == buf[k]
  {
    hide LeValue, Le16, Le32;
  }

  /** The record in front of `pos` takes over the record at `pos`. */
  lemma Merged(buf: seq<byte>, prev: nat, pos: nat, next: nat, end: nat)
    requires end <= |buf| && Tiled(buf, 0, prev) && prev < pos < end && Tiled(buf, next, end)
    requires GoodRecord(buf, prev, pos) && prev + RecLen(buf, prev) == pos && pos + HEADER <= next <= end
    requires next - prev < 0x1_0000
    ensures var r := MergeRecord(buf, prev, pos, next - prev);
            && r[end..] == buf[end..] && Tiled(r, 0, end)
            && Live(r, 0, end) == Live(buf, 0, prev) + One(buf, prev, pos) + Live(buf, next, end)
  {
    hide LeValue, Le16, Tiled, Live, One, EntryAt, GetLe32, PutLe32, MergeRecord;
    var r, gone := MergeRecord(buf, prev, pos, next - prev), PutLe32(buf, pos, 0);
    MergeFrame(buf, prev, pos, next - prev);
    FieldsSame(buf, gone, prev, pos);
    Longer(gone, prev, pos, next);
    WholeRecord(r, prev, next);
    assert r[end..] == buf[end..];
    RangeSame(buf, r, 0, prev) by { assert buf[0..prev] == r[0..prev]; }
    RangeSame(buf, r, next, end) by { assert buf[next..end] == r[next..end]; }
    Joined(r, 0, prev, next);
    Joined(r, 0, next, end);
  }

  lemma Longer(buf: seq<byte>, off: nat, end: nat, limit: nat)
    requires GoodRecord(buf, off, end) && off + RecLen(buf, off) == end <= limit <= |buf| && limit - off < 0x1_0000
    ensures var r := Splice(buf, off + 4, Le16(limit - off));
            GoodRecord(r, off, limit) && RecLen(r, off) == limit - off && One(r, off, limit) == One(buf, off, end)
  {
    Relength(buf, off, end, limit - off, limit);
  }

  /** Clear the entry of that name, and merge its record into the one in front of it in the block. */
  method Remove(buf: seq<byte>, name: Name) returns (r: Result<seq<byte>>)
    requires TAIL <= |buf| <= 0x1_0000 && Tiled(buf, 0, |buf| - TAIL)
    ensures r.Ok? <==> !Absent(Live(buf, 0, |buf| - TAIL), name)
    ensures r.Err? ==> r.errno == ENOENT
    ensures r.Ok? ==>
            |r.value| == |buf| && r.value[|buf| - TAIL..] == buf[|buf| - TAIL..] && Tiled(r.value, 0, |buf| - TAIL)
    ensures r.Ok? ==>
            FirstGone(Live(buf, 0, |buf| - TAIL), Live(r.value, 0, |buf| - TAIL), name)
  {
    hide Tiled, Live, GoodRecord, RecLen, EntryAt, One, GetLe32, Absent;
    var end := |buf| - TAIL;
    var found := Find(buf, name);
    if found.None? {
      return Err(ENOENT);
    }
    var pos := found.value;
    FoundFacts(buf, end, pos, name);
    FirstRecord(buf, pos, end);
    Joined(buf, 0, pos, end);
    ghost var e := EntryAt(buf, pos);
    ghost var front, back := Live(buf, 0, pos), Live(buf, pos + RecLen(buf, pos), end);
    assert (front + back)[..|front|] == front && (front + back)[|front|..] == back;
    assert Live(buf, 0, end) == front + [e] + back;
    assert Live(buf, 0, end)[..|front|] == front && Live(buf, 0, end)[|front| + 1..] == back;
    var out := Unrecord(buf, pos, end);
    return Ok(out);
  }

  /** Drop the record at a position. */
  method Unrecord(buf: seq<byte>, pos: nat, end: nat) returns (r: seq<byte>)
    requires end <= |buf| && end < 0x1_0000 && pos < end && Tiled(buf, 0, pos) && Tiled(buf, pos, end)
    requires GoodRecord(buf, pos, end)
    ensures Tiled(buf, pos + RecLen(buf, pos), end)
    ensures |r| == |buf| && r[end..] == buf[end..] && Tiled(r, 0, end)
    ensures Live(r, 0, end) == Live(buf, 0, pos) + Live(buf, pos + RecLen(buf, pos), end)
  {
    hide Tiled, Live, GoodRecord, RecLen, EntryAt, One, GetLe32, Absent, MergeRecord, PutLe32;
    FirstRecord(buf, pos, end);
    ghost var next: nat := pos + RecLen(buf, pos);
    if pos == 0 {
      ClearedFirst(buf, end);
      EmptyRange(buf, 0);
      assert [] + Live(buf, next, end) == Live(buf, next, end);
      return PutLe32(buf, 0, 0);
    }
    var off := Predecessor(buf, pos);
    GoodFacts(buf, off, pos);
    Joined(buf, 0, off, pos);
    Merged(buf, off, pos, next, end);
    return MergeRecord(buf, off, pos, RecLen(buf, off) + RecLen(buf, pos));
  }

  /** Walk from the start of the block to the record that ends at `pos`. */
  method Predecessor(buf: seq<byte>, pos: nat) returns (off: nat)
    requires 0 < pos <= |buf| && Tiled(buf, 0, pos)
    ensures off < pos && Tiled(buf, 0, off) && GoodRecord(buf, off, pos) && off + RecLen(buf, off) == pos
    ensures Tiled(buf, off, pos) && Live(buf, off, pos) == One(buf, off, pos)
  {
    hide Tiled, Live, GoodRecord, RecLen, EntryAt, One, GetLe32, Absent;
    EmptyRange(buf, 0);
    off := 0;
    FirstRecord(buf, 0, pos);
    var len := RecLen(buf, 0);
    while off + len < pos
      invariant off < pos && off + len <= pos && Tiled(buf, 0, off) && Tiled(buf, off, pos)
      invariant GoodRecord(buf, off, pos) && off + HEADER <= pos && len == RecLen(buf, off)
      decreases pos - off
    {
      FirstRecord(buf, off, pos);
      Joined(buf, 0, off, off + len);
      off := off + len;
      FirstRecord(buf, off, pos);
      len := RecLen(buf, off);
    }
    FirstRecord(buf, off, pos);
  }

  lemma FoundFacts(buf: seq<byte>, end: nat, pos: nat, name: Name)
    requires FoundAt(buf, end, pos, name) && end <= |buf|
    ensures pos < end && Tiled(buf, 0, pos) && Tiled(buf, pos, end) && GoodRecord(buf, pos, end)
    ensures pos + HEADER + buf[pos + 6] <= |buf| && One(buf, pos, end) == [EntryAt(buf, pos)]
    ensures Named(EntryAt(buf, pos), name) && Absent(Live(buf, 0, pos), name)
  {
  }

  /** The first entry of that name is gone; the others are in order. */
  ghost predicate FirstGone(was: seq<DirEntry>, now: seq<DirEntry>, name: Name) {
    exists i :: 0 <= i < |was| && Named(was[i], name) && Absent(was[..i], name) && now == was[..i] + was[i + 1..]
  }

  lemma ClearedFirst(buf: seq<byte>, end: nat)
    requires end <= |buf| && 0 < end && Tiled(buf, 0, end)
    ensures GoodRecord(buf, 0, end)
    ensures var r := PutLe32(buf, 0, 0);
            r[end..] == buf[end..] && Tiled(r, 0, end) && Live(r, 0, end) == Live(buf, RecLen(buf, 0), end)
  {
    hide LeValue, Tiled, Live, One, GetLe32;
    FirstRecord(buf, 0, end);
    var r := PutLe32(buf, 0, 0);
    var next: nat := RecLen(buf, 0);
    Cleared(buf, 0, next);
    WholeRecord(r, 0, next);
    RangeSame(buf, r, next, end) by { assert buf[next..end] == r[next..end]; }
    Joined(r, 0, next, end);
  }

  // ---- retargeting -----------------------------------------------------------------------------------------------

  /** Point an entry at another inode; name and place stay. */
  method SetTarget(buf: seq<byte>, name: Name, ino: u32, kind: byte) returns (r: Result<seq<byte>>)
    requires TAIL <= |buf| <= 0x1_0000 && Tiled(buf, 0, |buf| - TAIL) && ino != 0
    ensures r.Ok? <==> !Absent(Live(buf, 0, |buf| - TAIL), name)
    ensures r.Err? ==> r.errno == ENOENT
    ensures r.Ok? ==>
            |r.value| == |buf| && r.value[|buf| - TAIL..] == buf[|buf| - TAIL..] && Tiled(r.value, 0, |buf| - TAIL)
    ensures r.Ok? ==> Retargeted(Live(buf, 0, |buf| - TAIL), Live(r.value, 0, |buf| - TAIL), DirEntry(ino, name, kind))
  {
    hide Tiled, Live, GoodRecord, RecLen, EntryAt, One, GetLe32, Absent;
    var end := |buf| - TAIL;
    var found := Find(buf, name);
    if found.None? {
      return Err(ENOENT);
    }
    var pos := found.value;
    FoundFacts(buf, end, pos, name);
    FirstRecord(buf, pos, end);
    Joined(buf, 0, pos, end);
    Aimed(buf, pos, end, ino, kind);
    ghost var front := Live(buf, 0, pos);
    assert Live(buf, 0, end)[|front|] == EntryAt(buf, pos) && Live(buf, 0, end)[..|front|] == front;
    return Ok(PutLe32(buf, pos, ino)[pos + 7 := kind]);
  }

  /** The first entry of that name has a new target and kind; nothing else changed. */
  ghost predicate Retargeted(was: seq<DirEntry>, now: seq<DirEntry>, e: DirEntry) {
    exists i :: 0 <= i < |was| && Named(was[i], e.name) && Absent(was[..i], e.name) && now == was[i := e]
  }

  lemma Aimed(buf: seq<byte>, pos: nat, end: nat, ino: u32, kind: byte)
    requires end <= |buf| && Tiled(buf, 0, pos) && pos < end && Tiled(buf, pos, end) && GoodRecord(buf, pos, end)
    requires GetLe32(buf, pos) != 0 && ino != 0 && pos + HEADER + buf[pos + 6] <= |buf|
    ensures var r := PutLe32(buf, pos, ino)[pos + 7 := kind];
            && r[end..] == buf[end..] && Tiled(r, 0, end)
            && Live(r, 0, end) == Live(buf, 0, pos) + [DirEntry(ino, EntryAt(buf, pos).name, kind)]
                + Live(buf, pos + RecLen(buf, pos), end)
  {
    hide LeValue, Tiled, Live;
    FirstRecord(buf, pos, end);
    var r, next := PutLe32(buf, pos, ino)[pos + 7 := kind], pos + RecLen(buf, pos);
    SliceFrame(r, PutLe32(buf, pos, ino), pos, 4);
    SliceFrame(r, buf, pos + 4, 2);
    SliceFrame(r, buf, pos + HEADER, buf[pos + 6]);
    WholeRecord(r, pos, next);
    RangeSame(buf, r, 0, pos) by { assert buf[0..pos] == r[0..pos]; }
    RangeSame(buf, r, next, end) by { assert buf[next..end] == r[next..end]; }
    Joined(r, 0, pos, next);
    Joined(r, 0, next, end);
  }
}
