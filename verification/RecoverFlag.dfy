/** What marking the ext4 superblock means, byte by byte. */
module RecoverFlag {
  import opened Bytes
  import opened Outcome
  import opened JournalCodec

  /** RECOVER: bit 2, worth four, of the feature word, so of its first byte. */
  predicate RecoverSet(block: seq<byte>, sbOff: nat)
    requires sbOff + 1024 <= |block|
  {
    block[sbOff + SB_INCOMPAT_OFF] % 8 >= 4
  }

  /** The checksum field covers everything in front of it. */
  predicate SbCsumOk(crc: Crc, block: seq<byte>, sbOff: nat)
    requires sbOff + 1024 <= |block|
  {
    block[sbOff + SB_CSUM_OFF..sbOff + 1024] == Le32(crc(CRC_INIT, block[sbOff..sbOff + SB_CSUM_OFF]))
  }

  /** Two superblock blocks with the same bytes but for the RECOVER bit and the checksum field. */
  predicate SameButRecover(a: seq<byte>, b: seq<byte>, sbOff: nat) {
    var fo, co := sbOff + SB_INCOMPAT_OFF, sbOff + SB_CSUM_OFF;
    && |a| == |b| && sbOff + 1024 <= |a|
    && (forall k :: 0 <= k < |a| && k != fo && !(co <= k < co + 4) ==> a[k] == b[k])
    && a[fo] % 4 == b[fo] % 4 && a[fo] / 8 == b[fo] / 8
  }

  /** `now` is `was` with RECOVER as `on` says, and a checksum that fits. */
  predicate Marked(crc: Crc, was: seq<byte>, now: seq<byte>, sbOff: nat, on: bool) {
    SameButRecover(was, now, sbOff) && RecoverSet(now, sbOff) == on && SbCsumOk(crc, now, sbOff)
  }

  // ---- one bit of a word --------------------------------------------------------------------------------------

  /** A number in eighths, and in bytes. */
  lemma Eighths(q: nat, r: byte)
    ensures var f := q * 0x100 + r; f / 8 == q * 32 + r / 8 && f % 8 == r % 8
  {
  }

  /** A number in halves. */
  lemma Halves(q: nat, c: nat, b: nat, a: nat)
    requires a < 2 && b < 2 && c < 2
    ensures var f := 8 * q + 4 * c + 2 * b + a;
            f % 2 == a && f / 2 % 2 == b && f / 2 / 2 % 2 == c && f / 2 / 2 / 2 == q && f / 8 == q
                && f % 8 == 4 * c + 2 * b + a
  {
    var f := 8 * q + 4 * c + 2 * b + a;
    assert f / 2 == 4 * q + 2 * c + b;
    assert f / 2 / 2 == 2 * q + c;
  }

  lemma InHalves(f: nat)
    ensures f == 8 * (f / 2 / 2 / 2) + 4 * (f / 2 / 2 % 2) + 2 * (f / 2 % 2) + f % 2
  {
  }

  lemma WithBit2Eighths(f: nat, on: bool)
    ensures var g := WithBit2(f, on); g / 8 == f / 8 && g % 8 % 4 == f % 8 % 4 && (g % 8 >= 4 <==> on)
  {
    hide WithBit2;
    var g := WithBit2(f, on);
    InHalves(f);
    InHalves(g);
    Halves(f / 2 / 2 / 2, f / 2 / 2 % 2, f / 2 % 2, f % 2);
    Halves(g / 2 / 2 / 2, g / 2 / 2 % 2, g / 2 % 2, g % 2);
  }

  lemma QuarterOf(x: nat)
    ensures x % 8 % 4 == x % 4
  {
  }

  lemma WithBit2Byte(f: nat, on: bool)
    ensures WithBit2(f, on) / 0x100 == f / 0x100
    ensures var x, y := WithBit2(f, on) % 0x100, f % 0x100;
            x % 4 == y % 4 && x / 8 == y / 8 && (x % 8 >= 4 <==> on)
  {
    hide WithBit2;
    var g := WithBit2(f, on);
    WithBit2Eighths(f, on);
    Eighths(f / 0x100, f % 0x100);
    Eighths(g / 0x100, g % 0x100);
    QuarterOf(f % 0x100);
    QuarterOf(g % 0x100);
  }

  /** A word in memory: its low byte, and the bytes of the rest. */
  lemma WordBytes(v: u32)
    ensures Le32(v) == [v % 0x100] + LeBytes(v / 0x100, 3)
  {
  }

  lemma ValueBytes(w: seq<byte>)
    requires |w| == 4
    ensures LeValue(w) % 0x100 == w[0] && LeBytes(LeValue(w) / 0x100, 3) == w[1..]
  {
    LeBytesOf(w[1..]);
    FirstByte(w);
    hide LeValue, LeBytes;
    ByteSplit(LeValue(w[1..]), w[0]);
  }

  lemma FirstByte(w: seq<byte>)
    requires |w| == 4
    ensures LeValue(w) == LeValue(w[1..]) * 0x100 + w[0]
  {
  }

  lemma ByteSplit(q: nat, r: byte)
    ensures (q * 0x100 + r) / 0x100 == q && (q * 0x100 + r) % 0x100 == r
  {
  }

  /** Setting a bit of a word in a buffer changes nothing but that bit of its first byte. */
  lemma BitOfWord(buf: seq<byte>, off: nat, on: bool)
    requires off + 4 <= |buf|
    ensures var r := PutLe32(buf, off, WithBit2(GetLe32(buf, off), on));
            && |r| == |buf| && (forall k :: 0 <= k < |buf| && k != off ==> r[k] == buf[k])
            && r[off] % 4 == buf[off] % 4 && r[off] / 8 == buf[off] / 8 && (r[off] % 8 >= 4 <==> on)
  {
    hide WithBit2, Le32, LeBytes, LeValue;
    var w, f := buf[off..off + 4], GetLe32(buf, off);
    var g := WithBit2(f, on);
    var r := PutLe32(buf, off, g);
    WithBit2Byte(f, on);
    ValueBytes(w);
    WordBytes(g);
    assert r[off..off + 4] == [g % 0x100] + w[1..];
    forall k | 0 <= k < |buf| && k != off
      ensures r[k] == buf[k]
    {
      WordTail(buf, r, off, g % 0x100, k);
    }
    assert r[off] == r[off..off + 4][0];
  }

  lemma WordTail(buf: seq<byte>, r: seq<byte>, off: nat, x: byte, k: nat)
    requires off + 4 <= |buf| == |r| && k < |buf| && k != off
    requires r[off..off + 4] == [x] + buf[off..off + 4][1..]
    requires !(off <= k < off + 4) ==> r[k] == buf[k]
    ensures r[k] == buf[k]
  {
    if off < k < off + 4 {
      assert r[k] == r[off..off + 4][k - off] == buf[off..off + 4][1..][k - off - 1];
    }
  }

  // ---- the patch ------------------------------------------------------------------------------------------------

  lemma PatchMarked(crc: Crc, was: seq<byte>, sbOff: nat, on: bool)
    requires sbOff + 1024 <= |was|
    ensures Marked(crc, was, PatchRecover(crc, was, sbOff, on), sbOff, on)
  {
    hide WithBit2, GetLe32, Le32;
    var fo, co := sbOff + SB_INCOMPAT_OFF, sbOff + SB_CSUM_OFF;
    BitOfWord(was, fo, on);
    var p := PutLe32(was, fo, WithBit2(GetLe32(was, fo), on));
    var r := PatchRecover(crc, was, sbOff, on);
    assert r[co..co + 4] == Le32(crc(CRC_INIT, p[sbOff..co]));
    assert r[sbOff..co] == p[sbOff..co];
  }

  /** There is no other way to mark a block. */
  lemma MarkedOnce(crc: Crc, was: seq<byte>, a: seq<byte>, b: seq<byte>, sbOff: nat, on: bool)
    requires Marked(crc, was, a, sbOff, on) && Marked(crc, was, b, sbOff, on)
    ensures a == b
  {
    hide Le32;
    var fo, co := sbOff + SB_INCOMPAT_OFF, sbOff + SB_CSUM_OFF;
    SameBit(was[fo], a[fo], b[fo]);
    SliceFrame(a, b, sbOff, SB_CSUM_OFF);
    FieldAlike(a, b, co);
  }

  lemma SameBit(was: byte, x: byte, y: byte)
    requires x % 4 == was % 4 == y % 4 && x / 8 == was / 8 == y / 8 && (x % 8 >= 4 <==> y % 8 >= 4)
    ensures x == y
  {
    QuarterOf(x);
    QuarterOf(y);
    assert x % 8 == y % 8;
  }

  lemma FieldAlike(a: seq<byte>, b: seq<byte>, co: nat)
    requires |a| == |b| && co + 4 <= |a| && a[co..co + 4] == b[co..co + 4]
    requires forall k :: 0 <= k < |a| && !(co <= k < co + 4) ==> a[k] == b[k]
    ensures a == b
  {
    forall k | 0 <= k < |a|
      ensures a[k] == b[k]
    {
      if co <= k < co + 4 {
        assert a[k] == a[co..co + 4][k - co] && b[k] == b[co..co + 4][k - co];
      }
    }
  }

  /** Patching the flag is exactly this: the flag as asked, a fitting checksum, and nothing else changed. */
  lemma PatchRecoverExactly(crc: Crc, was: seq<byte>, now: seq<byte>, sbOff: nat, on: bool)
    requires sbOff + 1024 <= |was|
    ensures now == PatchRecover(crc, was, sbOff, on) <==> Marked(crc, was, now, sbOff, on)
  {
    hide Marked, PatchRecover;
    PatchMarked(crc, was, sbOff, on);
    if Marked(crc, was, now, sbOff, on) {
      MarkedOnce(crc, was, PatchRecover(crc, was, sbOff, on), now, sbOff, on);
    }
  }

  /** Equal after clearing RECOVER means equal but for the flag and the checksum. */
  lemma ClearedAlike(crc: Crc, a: seq<byte>, b: seq<byte>, sbOff: nat)
    requires sbOff + 1024 <= |a| && sbOff + 1024 <= |b|
    ensures PatchRecover(crc, a, sbOff, false) == PatchRecover(crc, b, sbOff, false) <==> SameButRecover(a, b, sbOff)
  {
    hide PatchRecover, RecoverSet, SbCsumOk;
    PatchMarked(crc, a, sbOff, false);
    PatchMarked(crc, b, sbOff, false);
    if SameButRecover(a, b, sbOff) {
      PatchRecoverExactly(crc, a, PatchRecover(crc, b, sbOff, false), sbOff, false);
    }
  }
}
