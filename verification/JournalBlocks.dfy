/** The journal's own blocks byte by byte: what their checksums cover, and how many tags fit. */
module JournalBlocks {
  import opened Bytes
  import opened Outcome
  import opened JournalCodec

  /** The four bytes at `at` hold, most significant first, the checksum of the block with zeros in their place. */
  predicate SelfSummed(crc: Crc, seed: u32, buf: seq<byte>, at: nat) {
    at + 4 <= |buf| && buf[at..at + 4] == Be32(crc(seed, buf[..at] + Zeros(4) + buf[at + 4..]))
  }

  lemma ZeroWord()
    ensures Be32(0) == Zeros(4)
  {
    ZeroBytes(4);
    BeInjective(Be32(0), Zeros(4));
  }

  lemma {:induction false} ZeroBytes(n: nat)
    ensures BeValue(Zeros(n)) == 0
  {
    if n > 0 {
      assert Zeros(n)[..n - 1] == Zeros(n - 1);
      ZeroBytes(n - 1);
    }
  }

  lemma Zeroed(buf: seq<byte>, at: nat)
    requires at + 4 <= |buf|
    ensures PutBe32(buf, at, 0) == buf[..at] + Zeros(4) + buf[at + 4..]
  {
    hide Be32;
    ZeroWord();
  }

  lemma StoredWord(buf: seq<byte>, at: nat, v: u32)
    requires at + 4 <= |buf|
    ensures GetBe32(buf, at) == v <==> buf[at..at + 4] == Be32(v)
  {
    if GetBe32(buf, at) == v {
      BeInjective(buf[at..at + 4], Be32(v));
    }
  }

  /** What passes as a commit block's checksum, and as that of a descriptor or revoke block. */
  lemma ChecksumMeaning(crc: Crc, seed: u32, buf: seq<byte>)
    ensures CommitCsumOk(crc, seed, buf) <==> |buf| >= 20 && SelfSummed(crc, seed, buf, 16)
    ensures TailCsumOk(crc, seed, buf) <==> |buf| >= 4 && SelfSummed(crc, seed, buf, |buf| - 4)
  {
    hide Be32, PutBe32, GetBe32;
    if |buf| >= 20 {
      Zeroed(buf, 16);
      StoredWord(buf, 16, crc(seed, PutBe32(buf, 16, 0)));
    }
    if |buf| >= 4 {
      var at := |buf| - 4;
      Zeroed(buf, at);
      StoredWord(buf, at, crc(seed, PutBe32(buf, at, 0)));
    }
  }

  /** Putting a checksum of the block over itself into place. */
  lemma SumInPlace(crc: Crc, seed: u32, buf: seq<byte>, at: nat)
    requires at + 4 <= |buf|
    ensures var z := PutBe32(buf, at, 0);
            SelfSummed(crc, seed, PutBe32(z, at, crc(seed, z)), at)
  {
    hide Be32;
    var z := PutBe32(buf, at, 0);
    var r := PutBe32(z, at, crc(seed, z));
    Zeroed(buf, at);
    assert r[..at] == buf[..at] && r[at + 4..] == buf[at + 4..];
  }

  // ---- the journal superblock -------------------------------------------------------------------------------------

  /** A fresh block with these fields, each at its place. */
  function EmitSuperblock(sb: JournalSuperblock): (r: seq<byte>)
    requires |sb.uuid| == UUID_LEN
    ensures |r| >= SUPERBLOCK_LEN
  {
    var b0 := Zeros(if sb.blocksize > SUPERBLOCK_LEN then sb.blocksize else SUPERBLOCK_LEN);
    var b1 := PutBe32(PutBe32(PutBe32(b0, 0, MAGIC), 4, sb.blocktype), 12, sb.blocksize);
    var b2 := PutBe32(PutBe32(PutBe32(b1, 16, sb.maxlen), 20, sb.first), 24, sb.sequence);
    var b3 := PutBe32(PutBe32(PutBe32(b2, 28, sb.start), 36, sb.featureCompat), 40, sb.featureIncompat);
    Splice(PutBe32(b3, 44, sb.featureRoCompat), 48, sb.uuid)[80 := sb.checksumType]
  }

  /** A word put into a buffer is still there after later edits elsewhere. */
  lemma WordStays(a: seq<byte>, b: seq<byte>, off: nat, v: u32)
    requires off + 4 <= |a| == |b| && GetBe32(a, off) == v && forall k :: off <= k < off + 4 ==> a[k] == b[k]
    ensures GetBe32(b, off) == v
  {
    SameField(a, b, off);
  }

  /** What is emitted parses back. */
  lemma SuperblockRoundTrip(sb: JournalSuperblock)
    requires |sb.uuid| == UUID_LEN
    ensures ParseJournalSuperblock(EmitSuperblock(sb)) == Ok(sb)
  {
    hide Be32, GetBe32;
    var b0 := Zeros(if sb.blocksize > SUPERBLOCK_LEN then sb.blocksize else SUPERBLOCK_LEN);
    var c0 := PutBe32(b0, 0, MAGIC);
    var c1 := PutBe32(c0, 4, sb.blocktype);
    var c2 := PutBe32(c1, 12, sb.blocksize);
    var c3 := PutBe32(c2, 16, sb.maxlen);
    var c4 := PutBe32(c3, 20, sb.first);
    var c5 := PutBe32(c4, 24, sb.sequence);
    var c6 := PutBe32(c5, 28, sb.start);
    var c7 := PutBe32(c6, 36, sb.featureCompat);
    var c8 := PutBe32(c7, 40, sb.featureIncompat);
    var c9 := PutBe32(c8, 44, sb.featureRoCompat);
    var r := EmitSuperblock(sb);
    assert r == Splice(c9, 48, sb.uuid)[80 := sb.checksumType];
    WordStays(c0, r, 0, MAGIC);
    WordStays(c1, r, 4, sb.blocktype);
    WordStays(c2, r, 12, sb.blocksize);
    WordStays(c3, r, 16, sb.maxlen);
    WordStays(c4, r, 20, sb.first);
    WordStays(c5, r, 24, sb.sequence);
    WordStays(c6, r, 28, sb.start);
    WordStays(c7, r, 36, sb.featureCompat);
    WordStays(c8, r, 40, sb.featureIncompat);
    WordStays(c9, r, 44, sb.featureRoCompat);
    assert r[48..64] == sb.uuid;
  }

  /** The incompatible features, as masks of the feature word, and the tag layout they choose. */
  lemma FeatureMasks(f: u32)
    ensures Feature64(f) <==> f / 0x2 % 2 == 1
    ensures FormatOf(f) == if f / 0x10 % 2 == 1 then V3 else if f / 0x8 % 2 == 1 then V2 else V1
    ensures FeatureCsum(f) <==> FormatOf(f) != V1
  {
    assert f / 2 / 2 / 2 == f / 8 && f / 2 / 2 / 2 / 2 == f / 16;
  }

  /** The head of the log as given, on a journal with checksums a fitting one, and no other byte changed. */
  predicate HeadMoved(crc: Crc, was: seq<byte>, now: seq<byte>, sequence: u32, start: u32, hasCsum: bool) {
    && |now| == |was| >= SUPERBLOCK_LEN
    && now[24..28] == Be32(sequence) && now[28..32] == Be32(start)
    && (hasCsum ==> SelfSummed(crc, CRC_INIT, now[..SUPERBLOCK_LEN], 252))
    && (forall k :: 0 <= k < |was| && !(24 <= k < 32) && !(hasCsum && 252 <= k < 256) ==> now[k] == was[k])
  }

  lemma HeadMovedOnce(crc: Crc, was: seq<byte>, a: seq<byte>, b: seq<byte>, sequence: u32, start: u32, hasCsum: bool)
    requires HeadMoved(crc, was, a, sequence, start, hasCsum) && HeadMoved(crc, was, b, sequence, start, hasCsum)
    ensures a == b
  {
    hide Be32;
    forall k | 0 <= k < |a| && !(hasCsum && 252 <= k < 256)
      ensures a[k] == b[k]
    {
      if 24 <= k < 28 {
        assert a[k] == a[24..28][k - 24] && b[k] == b[24..28][k - 24];
      } else if 28 <= k < 32 {
        assert a[k] == a[28..32][k - 28] && b[k] == b[28..32][k - 28];
      }
    }
    if hasCsum {
      var p, q := a[..SUPERBLOCK_LEN], b[..SUPERBLOCK_LEN];
      assert p[..252] == q[..252] && p[256..] == q[256..];
      assert a[252..256] == p[252..256] && b[252..256] == q[252..256];
      SameBytes(a, b, 252);
    } else {
      assert a == b;
    }
  }

  lemma UpdateMovesHead(crc: Crc, was: seq<byte>, sequence: u32, start: u32, hasCsum: bool)
    requires |was| >= SUPERBLOCK_LEN
    ensures HeadMoved(crc, was, UpdateSuperblock(crc, was, sequence, start, hasCsum), sequence, start, hasCsum)
  {
    hide Be32, GetBe32;
    var q := PutBe32(was, 24, sequence);
    var p := PatchHead(was, sequence, start);
    var r := UpdateSuperblock(crc, was, sequence, start, hasCsum);
    assert r[24..28] == q[24..28] && r[28..32] == p[28..32];
    if hasCsum {
      var z := PutBe32(p, 252, 0);
      var h := p[..SUPERBLOCK_LEN];
      assert z[..SUPERBLOCK_LEN] == PutBe32(h, 252, 0);
      SumInPlace(crc, CRC_INIT, h, 252);
      assert r[..SUPERBLOCK_LEN] == PutBe32(PutBe32(h, 252, 0), 252, crc(CRC_INIT, PutBe32(h, 252, 0)));
    }
  }

  /** The update of the journal superblock is exactly this. */
  lemma UpdateSuperblockExactly(crc: Crc, was: seq<byte>, now: seq<byte>, sequence: u32, start: u32, hasCsum: bool)
    requires |was| >= SUPERBLOCK_LEN
    ensures now == UpdateSuperblock(crc, was, sequence, start, hasCsum)
       <==> HeadMoved(crc, was, now, sequence, start, hasCsum)
  {
    hide HeadMoved, UpdateSuperblock;
    UpdateMovesHead(crc, was, sequence, start, hasCsum);
    if HeadMoved(crc, was, now, sequence, start, hasCsum) {
      HeadMovedOnce(crc, was, now, UpdateSuperblock(crc, was, sequence, start, hasCsum), sequence, start, hasCsum);
    }
  }

  // ---- commit blocks and descriptors ---------------------------------------------------------------------------

  /** Header, on a journal with checksums their type, size and value, and zeros. */
  lemma CommitBlockBytes(crc: Crc, seed: u32, sequence: u32, blockSize: nat, hasCsum: bool)
    requires blockSize >= SUPERBLOCK_LEN
    ensures var b := CommitBlock(crc, seed, sequence, blockSize, hasCsum);
            && |b| == blockSize
            && b[0..4] == Be32(MAGIC) && b[4..8] == Be32(COMMIT_BLOCK) && b[8..12] == Be32(sequence)
            && b[12] == b[13] == (if hasCsum then 4 else 0)
            && (hasCsum ==> SelfSummed(crc, seed, b, 16))
            && (forall k :: 14 <= k < blockSize && !(hasCsum && 16 <= k < 20) ==> b[k] == 0)
  {
    hide Be32, GetBe32, PutHeader;
    var buf := PutHeader(Zeros(blockSize), COMMIT_BLOCK, sequence);
    var b := CommitBlock(crc, seed, sequence, blockSize, hasCsum);
    HeaderFrame(buf, b);
    StoredWord(b, 0, MAGIC);
    StoredWord(b, 4, COMMIT_BLOCK);
    StoredWord(b, 8, sequence);
    if hasCsum {
      SumInPlace(crc, seed, buf[12 := 4][13 := 4], 16);
    }
  }

  /** The capacity is the largest count whose tags, with the header in front and the checksum behind, fit the block. */
  lemma CapacityExact(blockSize: nat, fmt: TagFormat, has64: bool, hasCsum: bool, tags: seq<BlockTag>)
    requires tags != []
    ensures |tags| <= TagCapacity(blockSize, fmt, has64, hasCsum)
       <==> HEADER_LEN + |EmitTags(tags, 0, fmt, has64)| + (if hasCsum then TAIL_CSUM_LEN else 0) <= blockSize
  {
    hide EmitTags;
    EmittedTagsLen(tags, 0, fmt, has64);
    var n := |tags|;
    assert fmt == V3 ==> n * TagLen(fmt, has64) == 16 * n;
    assert fmt != V3 && has64 ==> n * TagLen(fmt, has64) == 12 * n;
    assert fmt != V3 && !has64 ==> n * TagLen(fmt, has64) == 8 * n;
  }
}
