/** The jbd2 on-disk format: journal superblock, descriptor, revoke and commit blocks. */
module JournalCodec {
  import opened Bytes
  import opened Outcome

  /** CRC32C as an arbitrary function of a starting value and a buffer. */
  type Crc = (u32, seq<byte>) -> u32

  const CRC_INIT: u32 := 0xFFFF_FFFF
  const MAGIC: u32 := 0xC03B_3998
  const HEADER_LEN: nat := 12
  const UUID_LEN: nat := 16
  const TAIL_CSUM_LEN: nat := 4
  const SUPERBLOCK_LEN: nat := 1024

  const DESCRIPTOR_BLOCK: u32 := 1
  const COMMIT_BLOCK: u32 := 2
  const REVOKE_BLOCK: u32 := 5

  // Journal feature bits: 64BIT 0x02, CSUM_V2 0x08, CSUM_V3 0x10.
  predicate Feature64(incompat: u32) { Bit1(incompat) }

  predicate FeatureCsumV2(incompat: u32) { Bit3(incompat) }

  predicate FeatureCsumV3(incompat: u32) { Bit4(incompat) }

  predicate FeatureCsum(incompat: u32) { FeatureCsumV2(incompat) || FeatureCsumV3(incompat) }

  // Tag flags: ESCAPE 1, SAME_UUID 2, LAST_TAG 8.
  predicate Escaped(flags: nat) { Bit0(flags) }

  predicate SameUuid(flags: nat) { Bit1(flags) }

  predicate LastTag(flags: nat) { Bit3(flags) }

  // ---- headers -------------------------------------------------------------

  /** Magic, block type and sequence number: the 12 bytes every log block header has. */
  function PutHeader(buf: seq<byte>, blocktype: u32, sequence: u32): (r: seq<byte>)
    requires |buf| >= HEADER_LEN
    ensures |r| == |buf|
    ensures GetBe32(r, 0) == MAGIC && GetBe32(r, 4) == blocktype && GetBe32(r, 8) == sequence
    ensures forall i :: HEADER_LEN <= i < |buf| ==> r[i] == buf[i]
  {
    var a := PutBe32(buf, 0, MAGIC);
    var b := PutBe32(a, 4, blocktype);
    var c := PutBe32(b, 8, sequence);
    SameField(a, c, 0);
    SameField(b, c, 4);
    c
  }

  /** A big-endian field of a buffer depends only on its own four bytes. */
  lemma SameField(a: seq<byte>, b: seq<byte>, off: nat)
    requires off + 4 <= |a| && off + 4 <= |b|
    requires forall k :: off <= k < off + 4 ==> a[k] == b[k]
    ensures a[off..off + 4] == b[off..off + 4]
    ensures GetBe32(a, off) == GetBe32(b, off)
  {
  }

  /** The header fields of a block survive any edit behind them. */
  lemma HeaderFrame(a: seq<byte>, b: seq<byte>)
    requires |a| >= HEADER_LEN && |b| >= HEADER_LEN
    requires forall i :: 0 <= i < HEADER_LEN ==> a[i] == b[i]
    ensures GetBe32(a, 0) == GetBe32(b, 0) && GetBe32(a, 4) == GetBe32(b, 4) && GetBe32(a, 8) == GetBe32(b, 8)
  {
    SameField(a, b, 0);
    SameField(a, b, 4);
    SameField(a, b, 8);
  }

  // ---- journal superblock --------------------------------------------------

  datatype JournalSuperblock = JournalSuperblock(
    blocktype: u32, blocksize: u32, maxlen: u32, first: u32, sequence: u32, start: u32,
    featureCompat: u32, featureIncompat: u32, featureRoCompat: u32, uuid: seq<byte>, checksumType: byte)

  function ParseJournalSuperblock(buf: seq<byte>): (r: Result<JournalSuperblock>)
  {
    if |buf| < SUPERBLOCK_LEN then Err(EINVAL)
    else if GetBe32(buf, 0) != MAGIC then Err(EINVAL)
    else
      Ok(JournalSuperblock(
           GetBe32(buf, 4), GetBe32(buf, 12), GetBe32(buf, 16), GetBe32(buf, 20), GetBe32(buf, 24), GetBe32(buf, 28),
           GetBe32(buf, 36), GetBe32(buf, 40), GetBe32(buf, 44), buf[48..64], buf[80]))
  }

  /** Overwrite `s_sequence` and `s_start` only. */
  function PatchHead(buf: seq<byte>, sequence: u32, start: u32): (r: seq<byte>)
    requires |buf| >= SUPERBLOCK_LEN
    ensures |r| == |buf|
  {
    PutBe32(PutBe32(buf, 24, sequence), 28, start)
  }

  /** Recompute `s_checksum` over the first 1024 bytes with the field itself zeroed. */
  function FinalizeSuperblockCsum(crc: Crc, buf: seq<byte>): (r: seq<byte>)
    requires |buf| >= SUPERBLOCK_LEN
    ensures |r| == |buf|
    ensures forall i :: 0 <= i < |buf| && !(252 <= i < 256) ==> r[i] == buf[i]
  {
    var z := PutBe32(buf, 252, 0);
    PutBe32(z, 252, crc(CRC_INIT, z[..SUPERBLOCK_LEN]))
  }

  /** The journal superblock update shared by commit and recovery. */
  function UpdateSuperblock(crc: Crc, buf: seq<byte>, sequence: u32, start: u32, hasCsum: bool): (r: seq<byte>)
    requires |buf| >= SUPERBLOCK_LEN
    ensures |r| == |buf|
  {
    var p := PatchHead(buf, sequence, start);
    if hasCsum then FinalizeSuperblockCsum(crc, p) else p
  }

  /** Updating the superblock changes the two log-position fields it parses to, and nothing else. */
  lemma UpdateSuperblockParses(crc: Crc, buf: seq<byte>, sequence: u32, start: u32, hasCsum: bool)
    requires ParseJournalSuperblock(buf).Ok?
    ensures ParseJournalSuperblock(UpdateSuperblock(crc, buf, sequence, start, hasCsum))
         == Ok(ParseJournalSuperblock(buf).value.(sequence := sequence, start := start))
  {
    var q := PutBe32(buf, 24, sequence);
    var p := PatchHead(buf, sequence, start);
    var r := UpdateSuperblock(crc, buf, sequence, start, hasCsum);
    assert forall i :: 0 <= i < |buf| && !(252 <= i < 256) ==> r[i] == p[i];
    SameField(q, r, 24);
    SameField(p, r, 28);
    OtherFields(buf, r);
  }

  lemma OtherFields(a: seq<byte>, b: seq<byte>)
    requires |a| == |b| >= SUPERBLOCK_LEN
    requires forall i :: 0 <= i < 24 || 32 <= i < 252 ==> a[i] == b[i]
    ensures GetBe32(a, 0) == GetBe32(b, 0) && GetBe32(a, 4) == GetBe32(b, 4)
    ensures GetBe32(a, 12) == GetBe32(b, 12) && GetBe32(a, 16) == GetBe32(b, 16) && GetBe32(a, 20) == GetBe32(b, 20)
    ensures GetBe32(a, 36) == GetBe32(b, 36) && GetBe32(a, 40) == GetBe32(b, 40) && GetBe32(a, 44) == GetBe32(b, 44)
    ensures a[48..64] == b[48..64] && a[80] == b[80]
  {
    SameField(a, b, 0);
    SameField(a, b, 4);
    SameField(a, b, 12);
    SameField(a, b, 16);
    SameField(a, b, 20);
    SameField(a, b, 36);
    SameField(a, b, 40);
    SameField(a, b, 44);
  }

  // ---- block tags ----------------------------------------------------------

  datatype TagFormat = V1 | V2 | V3

  function FormatOf(featureIncompat: u32): TagFormat {
    if FeatureCsumV3(featureIncompat) then V3
    else if FeatureCsumV2(featureIncompat) then V2
    else V1
  }

  datatype BlockTag = BlockTag(blocknr: u64, flags: u16, checksum: u32)

  function TagLen(fmt: TagFormat, has64: bool): (n: nat)
    ensures 8 <= n <= 16
  {
    if fmt == V3 then 16 else if has64 then 12 else 8
  }

  function EmittedLen(fmt: TagFormat, has64: bool, sameUuid: bool): nat {
    TagLen(fmt, has64) + if sameUuid then 0 else UUID_LEN
  }

  /** The tag checksum as the two narrow layouts store it. */
  function Csum16(fmt: TagFormat, checksum: u32): u16 {
    if fmt == V1 then 0 else checksum % 0x1_0000
  }

  function EmitTag(tag: BlockTag, fmt: TagFormat, has64: bool, sameUuid: bool): (r: seq<byte>)
    ensures |r| == EmittedLen(fmt, has64, sameUuid)
  {
    var lo := tag.blocknr % 0x1_0000_0000;
    var hi := tag.blocknr / 0x1_0000_0000;
    var uuid := if sameUuid then [] else Zeros(UUID_LEN);
    match fmt
    case V3 => Be32(lo) + Be32(tag.flags) + Be32(hi) + Be32(tag.checksum) + uuid
    case _ =>
      Be32(lo) + Be16(Csum16(fmt, tag.checksum)) + Be16(tag.flags) + (if has64 then Be32(hi) else []) + uuid
  }

  /** Decode the tag at `off`; also the bytes consumed, with the UUID that follows unless SAME_UUID is set. */
  function ParseTag(buf: seq<byte>, off: nat, fmt: TagFormat, has64: bool): (r: Result<(BlockTag, nat)>)
    requires off <= |buf|
    ensures r.Ok? ==> 8 <= r.value.1 <= |buf| - off
  {
    var len := TagLen(fmt, has64);
    if |buf| - off < len then Err(EINVAL)
    else
      var tag :=
        if fmt == V3 then
          BlockTag(GetBe32(buf, off + 8) as int * 0x1_0000_0000 + GetBe32(buf, off),
                   GetBe32(buf, off + 4) % 0x1_0000,
                   GetBe32(buf, off + 12))
        else
          var hi: u32 := if has64 then GetBe32(buf, off + 8) else 0;
          BlockTag(hi as int * 0x1_0000_0000 + GetBe32(buf, off),
                   GetBe16(buf, off + 6),
                   if fmt == V1 then 0 else GetBe16(buf, off + 4));
      if SameUuid(tag.flags) then Ok((tag, len))
      else if |buf| - off < len + UUID_LEN then Err(EINVAL)
      else Ok((tag, len + UUID_LEN))
  }

  /** What a tag becomes once written in format `fmt`: the fields the layout has no room for are cut. */
  function Stored(tag: BlockTag, fmt: TagFormat, has64: bool): BlockTag {
    BlockTag(
      if fmt == V3 || has64 then tag.blocknr else tag.blocknr % 0x1_0000_0000,
      tag.flags,
      if fmt == V3 then tag.checksum else Csum16(fmt, tag.checksum))
  }

  lemma TagRoundTrip(buf: seq<byte>, off: nat, tag: BlockTag, fmt: TagFormat, has64: bool)
    requires var same := SameUuid(tag.flags);
             && off + EmittedLen(fmt, has64, same) <= |buf|
             && buf[off..off + EmittedLen(fmt, has64, same)] == EmitTag(tag, fmt, has64, same)
    ensures ParseTag(buf, off, fmt, has64)
         == Ok((Stored(tag, fmt, has64), EmittedLen(fmt, has64, SameUuid(tag.flags))))
  {
    if fmt == V3 {
      WideTagRoundTrip(buf, off, tag, has64);
    } else {
      NarrowTagRoundTrip(buf, off, tag, fmt, has64);
    }
  }

  lemma WideTagRoundTrip(buf: seq<byte>, off: nat, tag: BlockTag, has64: bool)
    requires off + EmittedLen(V3, has64, SameUuid(tag.flags)) <= |buf|
    requires buf[off..off + EmittedLen(V3, has64, SameUuid(tag.flags))] == EmitTag(tag, V3, has64, SameUuid(tag.flags))
    ensures ParseTag(buf, off, V3, has64) == Ok((tag, EmittedLen(V3, has64, SameUuid(tag.flags))))
  {
    hide Be32, BeValue, Pow256;
    var e := EmitTag(tag, V3, has64, SameUuid(tag.flags));
    WideFields(tag, has64, SameUuid(tag.flags));
    Sub(buf, off, e, 0, 4);
    Sub(buf, off, e, 4, 4);
    Sub(buf, off, e, 8, 4);
    Sub(buf, off, e, 12, 4);
  }

  lemma WideFields(tag: BlockTag, has64: bool, same: bool)
    ensures var e := EmitTag(tag, V3, has64, same);
            && e[0..4] == Be32(tag.blocknr % 0x1_0000_0000) && e[4..8] == Be32(tag.flags)
            && e[8..12] == Be32(tag.blocknr / 0x1_0000_0000) && e[12..16] == Be32(tag.checksum)
  {
    hide Be32;
  }

  lemma NarrowTagRoundTrip(buf: seq<byte>, off: nat, tag: BlockTag, fmt: TagFormat, has64: bool)
    requires fmt != V3
    requires off + EmittedLen(fmt, has64, SameUuid(tag.flags)) <= |buf|
    requires buf[off..off + EmittedLen(fmt, has64, SameUuid(tag.flags))]
             == EmitTag(tag, fmt, has64, SameUuid(tag.flags))
    ensures ParseTag(buf, off, fmt, has64)
         == Ok((Stored(tag, fmt, has64), EmittedLen(fmt, has64, SameUuid(tag.flags))))
  {
    hide Be16, Be32, BeValue, Pow256;
    var e := EmitTag(tag, fmt, has64, SameUuid(tag.flags));
    NarrowFields(tag, fmt, has64, SameUuid(tag.flags));
    Sub(buf, off, e, 0, 4);
    Sub(buf, off, e, 4, 2);
    Sub(buf, off, e, 6, 2);
    if has64 {
      Sub(buf, off, e, 8, 4);
    }
  }

  lemma NarrowFields(tag: BlockTag, fmt: TagFormat, has64: bool, same: bool)
    requires fmt != V3
    ensures var e := EmitTag(tag, fmt, has64, same);
            && e[0..4] == Be32(tag.blocknr % 0x1_0000_0000)
            && e[4..6] == Be16(Csum16(fmt, tag.checksum)) && e[6..8] == Be16(tag.flags)
            && (has64 ==> e[8..12] == Be32(tag.blocknr / 0x1_0000_0000))
  {
    hide Be16, Be32;
  }

  // ---- descriptor blocks ---------------------------------------------------

  /** How many tags one descriptor block holds, with the first tag's UUID and the tail checksum counted. */
  function TagCapacity(blockSize: nat, fmt: TagFormat, has64: bool, hasCsum: bool): nat {
    var overhead := HEADER_LEN + UUID_LEN + if hasCsum then TAIL_CSUM_LEN else 0;
    var room := if blockSize < overhead then 0 else blockSize - overhead;
    if fmt == V3 then room / 16 else if has64 then room / 12 else room / 8
  }

  /** The flags tag `i` of `n` is written with: SAME_UUID on all but the first, LAST_TAG on the last. */
  function PlacedFlags(flags: u16, i: nat, n: nat): (r: u16)
    ensures SameUuid(r) <==> i > 0
    ensures LastTag(r) <==> i + 1 == n
    ensures Escaped(r) <==> Escaped(flags)
  {
    WithBit3(WithBit1(flags, i > 0), i + 1 == n)
  }

  function Placed(tag: BlockTag, i: nat, n: nat): BlockTag {
    tag.(flags := PlacedFlags(tag.flags, i, n))
  }

  /** The bytes of tags `i..`. */
  function EmitTags(tags: seq<BlockTag>, i: nat, fmt: TagFormat, has64: bool): (r: seq<byte>)
    requires i <= |tags|
    decreases |tags| - i
  {
    if i == |tags| then []
    else
      EmitTag(Placed(tags[i], i, |tags|), fmt, has64, i > 0) + EmitTags(tags, i + 1, fmt, has64)
  }

  lemma {:induction false} EmittedTagsLen(tags: seq<BlockTag>, i: nat, fmt: TagFormat, has64: bool)
    requires i <= |tags|
    ensures |EmitTags(tags, i, fmt, has64)|
         == (|tags| - i) * TagLen(fmt, has64) + if i == 0 && tags != [] then UUID_LEN else 0
    decreases |tags| - i
  {
    hide EmitTag, PlacedFlags;
    if i < |tags| {
      EmittedTagsLen(tags, i + 1, fmt, has64);
      OneMore(|tags| - i - 1, TagLen(fmt, has64));
    }
  }

  lemma OneMore(k: nat, len: nat)
    ensures (k + 1) * len == k * len + len
  {
  }

  lemma TagsFit(tags: seq<BlockTag>, blockSize: nat, fmt: TagFormat, has64: bool, hasCsum: bool)
    requires 0 < |tags| <= TagCapacity(blockSize, fmt, has64, hasCsum)
    ensures HEADER_LEN + |EmitTags(tags, 0, fmt, has64)| + (if hasCsum then TAIL_CSUM_LEN else 0) <= blockSize
  {
    hide EmitTags;
    EmittedTagsLen(tags, 0, fmt, has64);
    var n := |tags|;
    assert fmt == V3 ==> n * TagLen(fmt, has64) == 16 * n;
    assert fmt != V3 && has64 ==> n * TagLen(fmt, has64) == 12 * n;
    assert fmt != V3 && !has64 ==> n * TagLen(fmt, has64) == 8 * n;
  }

  /** The tail checksum of a descriptor or revoke block. */
  function FinalizeTail(crc: Crc, seed: u32, buf: seq<byte>): (r: seq<byte>)
    requires |buf| >= 4
    ensures |r| == |buf|
    ensures forall i :: 0 <= i < |buf| - 4 ==> r[i] == buf[i]
  {
    var z := PutBe32(buf, |buf| - 4, 0);
    PutBe32(z, |buf| - 4, crc(seed, z))
  }

  /** The descriptor block of a transaction. */
  function DescriptorBlock(crc: Crc, seed: u32, sequence: u32, blockSize: nat, fmt: TagFormat, has64: bool,
                           hasCsum: bool, tags: seq<BlockTag>): (r: seq<byte>)
    requires 0 < |tags| <= TagCapacity(blockSize, fmt, has64, hasCsum)
    ensures |r| == blockSize
  {
    TagsFit(tags, blockSize, fmt, has64, hasCsum);
    var body := Splice(PutHeader(Zeros(blockSize), DESCRIPTOR_BLOCK, sequence), HEADER_LEN,
        EmitTags(tags, 0, fmt, has64));
    if hasCsum then FinalizeTail(crc, seed, body) else body
  }

  lemma NextTag(tags: seq<BlockTag>, i: nat, fmt: TagFormat, has64: bool, done: seq<byte>)
    requires i < |tags|
    ensures done + EmitTags(tags, i, fmt, has64)
         == done + EmitTag(Placed(tags[i], i, |tags|), fmt, has64, i > 0) + EmitTags(tags, i + 1, fmt, has64)
  {
    hide EmitTag;
  }

  lemma NoMoreTags(tags: seq<BlockTag>, fmt: TagFormat, has64: bool, done: seq<byte>)
    ensures done + EmitTags(tags, |tags|, fmt, has64) == done
  {
  }

  /** Fill a fresh block with the header, then one tag after the other, then the tail checksum. */
  method AssembleDescriptor(crc: Crc, seed: u32, sequence: u32, blockSize: nat, fmt: TagFormat, has64: bool,
                            hasCsum: bool, tags: seq<BlockTag>) returns (block: seq<byte>)
    requires 0 < |tags| <= TagCapacity(blockSize, fmt, has64, hasCsum)
    ensures block == DescriptorBlock(crc, seed, sequence, blockSize, fmt, has64, hasCsum, tags)
  {
    hide EmitTag, EmitTags, PutHeader, FinalizeTail, Splice, PlacedFlags;
    TagsFit(tags, blockSize, fmt, has64, hasCsum);
    var empty := PutHeader(Zeros(blockSize), DESCRIPTOR_BLOCK, sequence);
    block := empty;
    var off := HEADER_LEN;
    ghost var done: seq<byte> := [];
    assert Splice(empty, HEADER_LEN, done) == empty;
    for i := 0 to |tags|
      invariant off == HEADER_LEN + |done|
      invariant EmitTags(tags, 0, fmt, has64) == done + EmitTags(tags, i, fmt, has64)
      invariant block == Splice(empty, HEADER_LEN, done)
    {
      var bytes := EmitTag(Placed(tags[i], i, |tags|), fmt, has64, i > 0);
      NextTag(tags, i, fmt, has64, done);
      SpliceTwice(empty, HEADER_LEN, done, bytes);
      block := Splice(block, off, bytes);
      off := off + |bytes|;
      done := done + bytes;
    }
    NoMoreTags(tags, fmt, has64, done);
    if hasCsum {
      block := FinalizeTail(crc, seed, block);
    }
  }

  /** Read tags from `off` up to and including the first with LAST_TAG. */
  function ParseTags(buf: seq<byte>, off: nat, fmt: TagFormat, has64: bool): (r: Result<seq<BlockTag>>)
    requires off <= |buf|
    decreases |buf| - off
  {
    var (tag, consumed) :- ParseTag(buf, off, fmt, has64);
    if LastTag(tag.flags) then Ok([tag]) else Prepend([tag], ParseTags(buf, off + consumed, fmt, has64))
  }

  function Prepend(tags: seq<BlockTag>, r: Result<seq<BlockTag>>): Result<seq<BlockTag>> {
    match r
    case Ok(rest) => Ok(tags + rest)
    case Err(e) => Err(e)
  }

  lemma PrependMore(a: seq<BlockTag>, b: seq<BlockTag>, r: Result<seq<BlockTag>>)
    ensures Prepend(a, Prepend(b, r)) == Prepend(a + b, r)
    ensures Prepend([], r) == r
  {
    if r.Ok? {
      assert a + (b + r.value) == a + b + r.value;
      assert [] + r.value == r.value;
    }
  }

  function ParseDescriptor(buf: seq<byte>, fmt: TagFormat, has64: bool): (r: Result<seq<BlockTag>>)
  {
    if |buf| < HEADER_LEN then Err(EINVAL)
    else if GetBe32(buf, 0) != MAGIC then Err(EINVAL)
    else if GetBe32(buf, 4) != DESCRIPTOR_BLOCK then Err(EINVAL)
    else ParseTags(buf, HEADER_LEN, fmt, has64)
  }

  /** The parsing loop: collects tags in `tags` while `off` moves on. */
  method ParseDescriptorBlock(buf: seq<byte>, fmt: TagFormat, has64: bool) returns (r: Result<seq<BlockTag>>)
    ensures r == ParseDescriptor(buf, fmt, has64)
  {
    if |buf| < HEADER_LEN || GetBe32(buf, 0) != MAGIC || GetBe32(buf, 4) != DESCRIPTOR_BLOCK {
      return Err(EINVAL);
    }
    hide ParseTag, BeValue;
    var tags: seq<BlockTag> := [];
    var off := HEADER_LEN;
    PrependMore([], [], ParseTags(buf, HEADER_LEN, fmt, has64));
    while true
      invariant off <= |buf|
      invariant ParseTags(buf, HEADER_LEN, fmt, has64)
             == Prepend(tags, ParseTags(buf, off, fmt, has64))
      decreases |buf| - off
    {
      var parsed := ParseTag(buf, off, fmt, has64);
      if parsed.Err? {
        return Err(parsed.errno);
      }
      var (tag, consumed) := parsed.value;
      PrependMore(tags, [tag], if LastTag(tag.flags) then Ok([]) else ParseTags(buf, off + consumed, fmt, has64));
      tags := tags + [tag];
      if LastTag(tag.flags) {
        return Ok(tags);
      }
      off := off + consumed;
    }
  }

  /** The tags a reader of the descriptor block gets back. */
  function StoredTags(tags: seq<BlockTag>, fmt: TagFormat, has64: bool): (r: seq<BlockTag>)
    ensures |r| == |tags|
    ensures forall i :: 0 <= i < |tags| ==> r[i] == Stored(Placed(tags[i], i, |tags|), fmt, has64)
  {
    seq(|tags|, i requires 0 <= i < |tags| => Stored(Placed(tags[i], i, |tags|), fmt, has64))
  }

  lemma {:induction false} ParseEmittedTags(buf: seq<byte>, off: nat, tags: seq<BlockTag>, i: nat, fmt: TagFormat,
      has64: bool)
    requires i < |tags|
    requires off + |EmitTags(tags, i, fmt, has64)| <= |buf|
    requires buf[off..off + |EmitTags(tags, i, fmt, has64)|] == EmitTags(tags, i, fmt, has64)
    ensures ParseTags(buf, off, fmt, has64) == Ok(StoredTags(tags, fmt, has64)[i..])
    decreases |tags| - i
  {
    hide EmitTag, ParseTag, PlacedFlags;
    var tag := Placed(tags[i], i, |tags|);
    var e := EmitTag(tag, fmt, has64, i > 0);
    var rest := EmitTags(tags, i + 1, fmt, has64);
    var all := EmitTags(tags, i, fmt, has64);
    assert all == e + rest;
    Sub(buf, off, all, 0, |e|);
    assert all[..|e|] == e;
    TagRoundTrip(buf, off, tag, fmt, has64);
    var stored := StoredTags(tags, fmt, has64);
    assert stored[i..] == [stored[i]] + stored[i + 1..];
    if i + 1 < |tags| {
      Sub(buf, off, all, |e|, |rest|);
      assert all[|e|..] == rest;
      ParseEmittedTags(buf, off + |e|, tags, i + 1, fmt, has64);
    } else {
      assert stored[i..] == [stored[i]];
    }
  }

  /** Assembling never overruns the block, and the parser returns the tags with normalised flags. */
  lemma DescriptorRoundTrip(crc: Crc, seed: u32, sequence: u32, blockSize: nat, fmt: TagFormat, has64: bool,
                            hasCsum: bool, tags: seq<BlockTag>)
    requires 0 < |tags| <= TagCapacity(blockSize, fmt, has64, hasCsum)
    ensures var b := DescriptorBlock(crc, seed, sequence, blockSize, fmt, has64, hasCsum, tags);
            && |b| >= HEADER_LEN
            && GetBe32(b, 0) == MAGIC && GetBe32(b, 4) == DESCRIPTOR_BLOCK && GetBe32(b, 8) == sequence
            && (hasCsum ==> TailCsumOk(crc, seed, b))
            && ParseDescriptor(b, fmt, has64) == Ok(StoredTags(tags, fmt, has64))
  {
    hide EmitTags, PutHeader, FinalizeTail, StoredTags, ParseTags, BeValue;
    TagsFit(tags, blockSize, fmt, has64, hasCsum);
    var b := DescriptorBlock(crc, seed, sequence, blockSize, fmt, has64, hasCsum, tags);
    var e := EmitTags(tags, 0, fmt, has64);
    if hasCsum {
      FinalizedTailVerifies(crc, seed, Splice(PutHeader(Zeros(blockSize), DESCRIPTOR_BLOCK, sequence), HEADER_LEN, e));
    }
    HeaderFrame(PutHeader(Zeros(blockSize), DESCRIPTOR_BLOCK, sequence), b);
    assert b[HEADER_LEN..HEADER_LEN + |e|] == e;
    ParseEmittedTags(b, HEADER_LEN, tags, 0, fmt, has64);
    assert StoredTags(tags, fmt, has64)[0..] == StoredTags(tags, fmt, has64);
  }

  /** The tags come back unchanged but for the two placement flags exactly when every field fits the format. */
  lemma StoredExactly(tag: BlockTag, fmt: TagFormat, has64: bool)
    ensures Stored(tag, fmt, has64) == tag
       <==> && (fmt == V3 || has64 || tag.blocknr < 0x1_0000_0000)
            && (fmt == V1 ==> tag.checksum == 0)
            && (fmt == V2 ==> tag.checksum < 0x1_0000)
  {
    assert tag.blocknr % 0x1_0000_0000 == tag.blocknr <==> tag.blocknr < 0x1_0000_0000;
  }

  // ---- tail checksums ------------------------------------------------------

  predicate TailCsumOk(crc: Crc, seed: u32, buf: seq<byte>) {
    |buf| >= 4 && crc(seed, PutBe32(buf, |buf| - 4, 0)) == GetBe32(buf, |buf| - 4)
  }

  lemma FinalizedTailVerifies(crc: Crc, seed: u32, buf: seq<byte>)
    requires |buf| >= 4
    ensures TailCsumOk(crc, seed, FinalizeTail(crc, seed, buf))
  {
    hide Be32;
    var n := |buf| - 4;
    var z := PutBe32(buf, n, 0);
    var r := FinalizeTail(crc, seed, buf);
    SameBytes(PutBe32(r, n, 0), z, n);
  }

  lemma SameBytes(a: seq<byte>, b: seq<byte>, off: nat)
    requires |a| == |b| && off + 4 <= |a|
    requires forall k :: 0 <= k < |a| && !(off <= k < off + 4) ==> a[k] == b[k]
    requires a[off..off + 4] == b[off..off + 4]
    ensures a == b
  {
    forall k | 0 <= k < |a|
      ensures a[k] == b[k]
    {
      if off <= k < off + 4 {
        assert a[k] == a[off..off + 4][k - off];
        assert b[k] == b[off..off + 4][k - off];
      }
    }
  }

  // ---- commit blocks -------------------------------------------------------

  function CommitBlock(crc: Crc, seed: u32, sequence: u32, blockSize: nat, hasCsum: bool): (r: seq<byte>)
    requires blockSize >= SUPERBLOCK_LEN
    ensures |r| == blockSize
  {
    var buf := PutHeader(Zeros(blockSize), COMMIT_BLOCK, sequence);
    if hasCsum then FinalizeCommit(crc, seed, buf) else buf
  }

  /** Checksum type and size 4, then the checksum at byte 16 with itself zeroed. */
  function FinalizeCommit(crc: Crc, seed: u32, buf: seq<byte>): (r: seq<byte>)
    requires |buf| >= 20
    ensures |r| == |buf|
    ensures forall i :: 0 <= i < HEADER_LEN ==> r[i] == buf[i]
  {
    var z := PutBe32(buf[12 := 4][13 := 4], 16, 0);
    PutBe32(z, 16, crc(seed, z))
  }

  predicate CommitCsumOk(crc: Crc, seed: u32, buf: seq<byte>) {
    |buf| >= 20 && crc(seed, PutBe32(buf, 16, 0)) == GetBe32(buf, 16)
  }

  /** A commit block carries the sequence it was built with and passes its own checksum. */
  lemma CommitBlockValid(crc: Crc, seed: u32, sequence: u32, blockSize: nat, hasCsum: bool)
    requires blockSize >= SUPERBLOCK_LEN
    ensures var b := CommitBlock(crc, seed, sequence, blockSize, hasCsum);
            && GetBe32(b, 0) == MAGIC && GetBe32(b, 4) == COMMIT_BLOCK && GetBe32(b, 8) == sequence
            && (hasCsum ==> CommitCsumOk(crc, seed, b))
  {
    hide Be32, PutHeader;
    var buf := PutHeader(Zeros(blockSize), COMMIT_BLOCK, sequence);
    if hasCsum {
      HeaderFrame(buf, CommitBlock(crc, seed, sequence, blockSize, hasCsum));
      var z := PutBe32(buf[12 := 4][13 := 4], 16, 0);
      SameBytes(PutBe32(PutBe32(z, 16, crc(seed, z)), 16, 0), z, 16);
    }
  }

  // ---- revoke blocks -------------------------------------------------------

  const REVOKE_HEADER_LEN: nat := 16

  function RevokeEntryLen(has64: bool): nat {
    if has64 then 8 else 4
  }

  function EmitRevokeEntry(block: u64, has64: bool): (r: seq<byte>)
    ensures |r| == RevokeEntryLen(has64)
  {
    if has64 then Be64(block) else Be32(block % 0x1_0000_0000)
  }

  function EmitRevokes(blocks: seq<u64>, has64: bool): (r: seq<byte>)
  {
    if blocks == [] then [] else EmitRevokeEntry(blocks[0], has64) + EmitRevokes(blocks[1..], has64)
  }

  lemma {:induction false} EmittedRevokesLen(blocks: seq<u64>, has64: bool)
    ensures |EmitRevokes(blocks, has64)| == if has64 then 8 * |blocks| else 4 * |blocks|
  {
    if blocks != [] {
      EmittedRevokesLen(blocks[1..], has64);
    }
  }

  /** Room for the revoked block numbers of one transaction in one revoke block. */
  predicate RevokesFit(n: nat, blockSize: nat, has64: bool, hasCsum: bool) {
    REVOKE_HEADER_LEN + (if has64 then 8 * n else 4 * n) + (if hasCsum then TAIL_CSUM_LEN else 0) <= blockSize
  }

  function RevokeBody(sequence: u32, blocks: seq<u64>, blockSize: nat, has64: bool): (r: seq<byte>)
    requires blockSize < 0x1_0000_0000
    requires RevokesFit(|blocks|, blockSize, has64, false)
    ensures |r| == blockSize
  {
    EmittedRevokesLen(blocks, has64);
    var entries := EmitRevokes(blocks, has64);
    PutBe32(Splice(PutHeader(Zeros(blockSize), REVOKE_BLOCK, sequence), REVOKE_HEADER_LEN, entries),
            12, REVOKE_HEADER_LEN + |entries|)
  }

  /** The revoke block of a transaction. */
  function RevokeBlock(crc: Crc, seed: u32, sequence: u32, blocks: seq<u64>, blockSize: nat, has64: bool, hasCsum: bool)
    : (r: seq<byte>)
    requires blockSize < 0x1_0000_0000
    requires RevokesFit(|blocks|, blockSize, has64, false)
    ensures |r| == blockSize
  {
    var buf := RevokeBody(sequence, blocks, blockSize, has64);
    if hasCsum then FinalizeTail(crc, seed, buf) else buf
  }

  datatype ParsedRevoke = ParsedRevoke(sequence: u32, blocks: seq<u64>)

  function GetRevokeEntry(buf: seq<byte>, off: nat, has64: bool): u64
    requires off + RevokeEntryLen(has64) <= |buf|
  {
    if has64 then GetBe64(buf, off) else GetBe32(buf, off)
  }

  /** Whole entries from `off` up to byte `end`. */
  function ParseRevokes(buf: seq<byte>, off: nat, end: nat, has64: bool): (r: seq<u64>)
    requires end <= |buf|
    decreases end - off
  {
    if off + RevokeEntryLen(has64) > end then []
    else [GetRevokeEntry(buf, off, has64)] + ParseRevokes(buf, off + RevokeEntryLen(has64), end, has64)
  }

  function ParseRevokeBlock(buf: seq<byte>, has64: bool): (r: Result<ParsedRevoke>)
  {
    if |buf| < REVOKE_HEADER_LEN then Err(EINVAL)
    else if GetBe32(buf, 0) != MAGIC then Err(EINVAL)
    else if GetBe32(buf, 4) != REVOKE_BLOCK then Err(EINVAL)
    else if GetBe32(buf, 12) > |buf| then Err(EINVAL)
    else Ok(ParsedRevoke(GetBe32(buf, 8), ParseRevokes(buf, REVOKE_HEADER_LEN, GetBe32(buf, 12), has64)))
  }

  /** The parsing loop of a revoke block. */
  method ReadRevokeBlock(buf: seq<byte>, has64: bool) returns (r: Result<ParsedRevoke>)
    ensures r == ParseRevokeBlock(buf, has64)
  {
    if |buf| < REVOKE_HEADER_LEN || GetBe32(buf, 0) != MAGIC || GetBe32(buf, 4) != REVOKE_BLOCK {
      return Err(EINVAL);
    }
    hide BeValue, GetRevokeEntry;
    var count := GetBe32(buf, 12);
    if count > |buf| {
      return Err(EINVAL);
    }
    var blocks: seq<u64> := [];
    var off := REVOKE_HEADER_LEN;
    while off + RevokeEntryLen(has64) <= count
      invariant ParseRevokes(buf, REVOKE_HEADER_LEN, count, has64) == blocks + ParseRevokes(buf, off, count, has64)
    {
      blocks := blocks + [GetRevokeEntry(buf, off, has64)];
      off := off + RevokeEntryLen(has64);
    }
    assert ParseRevokes(buf, off, count, has64) == [];
    assert blocks + [] == blocks;
    return Ok(ParsedRevoke(GetBe32(buf, 8), blocks));
  }

  /** What the revoked numbers become when the journal stores them in 32 bits. */
  function StoredRevokes(blocks: seq<u64>, has64: bool): (r: seq<u64>)
    ensures |r| == |blocks|
    ensures forall i :: 0 <= i < |blocks| ==> r[i] == if has64 then blocks[i] else blocks[i] % 0x1_0000_0000
  {
    seq(|blocks|, i requires 0 <= i < |blocks| => if has64 then blocks[i] else blocks[i] % 0x1_0000_0000)
  }

  lemma {:induction false} ParseEmittedRevokes(buf: seq<byte>, off: nat, blocks: seq<u64>, has64: bool)
    requires off + |EmitRevokes(blocks, has64)| <= |buf|
    requires buf[off..off + |EmitRevokes(blocks, has64)|] == EmitRevokes(blocks, has64)
    ensures ParseRevokes(buf, off, off + |EmitRevokes(blocks, has64)|, has64) == StoredRevokes(blocks, has64)
    decreases |blocks|
  {
    hide Be32, Be64, BeValue, Pow256;
    if blocks != [] {
      var all, e, rest := EmitRevokes(blocks, has64), EmitRevokeEntry(blocks[0], has64),
          EmitRevokes(blocks[1..], has64);
      Sub(buf, off, all, 0, |e|);
      assert all[..|e|] == e;
      Sub(buf, off, all, |e|, |rest|);
      assert all[|e|..] == rest;
      ParseEmittedRevokes(buf, off + |e|, blocks[1..], has64);
      var s, t := StoredRevokes(blocks, has64), StoredRevokes(blocks[1..], has64);
      assert s == [s[0]] + t;
    }
  }

  /** A revoke block reads back as the sequence and the block numbers it was built from. */
  lemma RevokeRoundTrip(crc: Crc, seed: u32, sequence: u32, blocks: seq<u64>, blockSize: nat, has64: bool,
      hasCsum: bool)
    requires blockSize < 0x1_0000_0000
    requires RevokesFit(|blocks|, blockSize, has64, hasCsum)
    ensures var b := RevokeBlock(crc, seed, sequence, blocks, blockSize, has64, hasCsum);
            && GetBe32(b, 0) == MAGIC && GetBe32(b, 4) == REVOKE_BLOCK && GetBe32(b, 8) == sequence
            && (hasCsum ==> TailCsumOk(crc, seed, b))
            && ParseRevokeBlock(b, has64) == Ok(ParsedRevoke(sequence, StoredRevokes(blocks, has64)))
  {
    hide Be32, BeValue, PutHeader, EmitRevokes, FinalizeTail, Splice, PutBe32;
    EmittedRevokesLen(blocks, has64);
    var entries := EmitRevokes(blocks, has64);
    var head := PutHeader(Zeros(blockSize), REVOKE_BLOCK, sequence);
    var spliced := Splice(head, REVOKE_HEADER_LEN, entries);
    var body := RevokeBody(sequence, blocks, blockSize, has64);
    var b := RevokeBlock(crc, seed, sequence, blocks, blockSize, has64, hasCsum);
    if hasCsum {
      FinalizedTailVerifies(crc, seed, body);
    }
    HeaderFrame(head, b);
    SameField(body, b, 12);
    assert forall k :: REVOKE_HEADER_LEN <= k < REVOKE_HEADER_LEN + |entries| ==> b[k] == spliced[k];
    assert b[REVOKE_HEADER_LEN..REVOKE_HEADER_LEN + |entries|] == entries;
    ParseEmittedRevokes(b, REVOKE_HEADER_LEN, blocks, has64);
  }

  // ---- data blocks in the log ----------------------------------------------

  predicate StartsWithMagic(data: seq<byte>) {
    |data| >= 4 && data[0..4] == Be32(MAGIC)
  }

  /** The copy of a block that goes to the log: a leading magic is blanked. */
  function EscapeData(data: seq<byte>): (r: seq<byte>)
    ensures |r| == |data|
  {
    if StartsWithMagic(data) then Splice(data, 0, Zeros(4)) else data
  }

  function UnescapeData(data: seq<byte>): (r: seq<byte>)
    requires |data| >= 4
    ensures |r| == |data|
  {
    Splice(data, 0, Be32(MAGIC))
  }

  /** A logged copy never looks like a log header, and the ESCAPE flag is enough to get the original back. */
  lemma EscapeRoundTrip(data: seq<byte>)
    requires |data| >= 4
    ensures GetBe32(EscapeData(data), 0) != MAGIC
    ensures (if StartsWithMagic(data) then UnescapeData(EscapeData(data)) else EscapeData(data)) == data
  {
    var e := EscapeData(data);
    if StartsWithMagic(data) {
      SameBytes(UnescapeData(e), data, 0);
      assert e[0..4] == Zeros(4);
      ZeroIsNotMagic();
    } else if GetBe32(e, 0) == MAGIC {
      BeInjective(e[0..4], Be32(MAGIC));
    }
  }

  lemma ZeroIsNotMagic()
    ensures BeValue(Zeros(4)) != MAGIC
  {
    var z := Zeros(4);
    assert z[..3][..2][..1][..0] == [];
    assert BeValue(z[..1]) == 0 by { assert z[..1][..0] == []; }
    assert BeValue(z[..2]) == 0 by { assert z[..2][..1] == z[..1]; }
    assert BeValue(z[..3]) == 0 by { assert z[..3][..2] == z[..2]; }
  }

  // ---- the RECOVER flag of the ext4 superblock -----------------------------

  const SB_INCOMPAT_OFF: nat := 0x60
  const SB_CSUM_OFF: nat := 0x3fc

  /** Set or clear RECOVER (0x4) in the ext4 superblock at `sbOff` and refresh its checksum. */
  function PatchRecover(crc: Crc, block: seq<byte>, sbOff: nat, on: bool): (r: seq<byte>)
    requires sbOff + 1024 <= |block|
    ensures |r| == |block|
  {
    var p := PutLe32(block, sbOff + SB_INCOMPAT_OFF, WithBit2(GetLe32(block, sbOff + SB_INCOMPAT_OFF), on));
    PutLe32(p, sbOff + SB_CSUM_OFF, crc(CRC_INIT, p[sbOff..sbOff + SB_CSUM_OFF]))
  }

  /** The last patch decides: patching is independent of the flag's earlier state. */
  lemma PatchRecoverTwice(crc: Crc, block: seq<byte>, sbOff: nat, a: bool, b: bool)
    requires sbOff + 1024 <= |block|
    ensures PatchRecover(crc, PatchRecover(crc, block, sbOff, a), sbOff, b) == PatchRecover(crc, block, sbOff, b)
  {
    hide Le32, LeValue, Pow256;
    var fo, co := sbOff + SB_INCOMPAT_OFF, sbOff + SB_CSUM_OFF;
    var f := GetLe32(block, fo);
    var p1 := PutLe32(block, fo, WithBit2(f, a));
    var once := PatchRecover(crc, block, sbOff, a);
    assert once[fo..fo + 4] == p1[fo..fo + 4];
    WithBit2Twice(f, a, b);
    var p2 := PutLe32(once, fo, WithBit2(f, b));
    var q := PutLe32(block, fo, WithBit2(f, b));
    SliceFrame(p2, q, 0, co) by {
      forall k | 0 <= k < co
        ensures p2[k] == q[k]
      {
        if fo <= k < fo + 4 {
          assert p2[k] == p2[fo..fo + 4][k - fo];
          assert q[k] == q[fo..fo + 4][k - fo];
        }
      }
    }
    Sub(p2, 0, p2[0..co], sbOff, SB_CSUM_OFF);
    Sub(q, 0, q[0..co], sbOff, SB_CSUM_OFF);
    SameBytes(PutLe32(p2, co, crc(CRC_INIT, p2[sbOff..co])), PutLe32(q, co, crc(CRC_INIT, q[sbOff..co])), co);
  }

  lemma WithBit2Twice(f: nat, a: bool, b: bool)
    ensures WithBit2(WithBit2(f, a), b) == WithBit2(f, b)
  {
  }
}
