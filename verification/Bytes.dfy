/** Bytes, machine-width integers and in-place edits of byte buffers. */
module Bytes {

  type byte = x: int | 0 <= x < 0x100
  type u16 = x: int | 0 <= x < 0x1_0000
  type u32 = x: int | 0 <= x < 0x1_0000_0000
  type u64 = x: int | 0 <= x < 0x1_0000_0000_0000_0000

  /** `buf[off..off + |data|].copy_from_slice(data)`. */
  function Splice(buf: seq<byte>, off: nat, data: seq<byte>): (r: seq<byte>)
    requires off + |data| <= |buf|
    ensures |r| == |buf|
    ensures forall i :: off <= i < off + |data| ==> r[i] == data[i - off]
    ensures forall i :: 0 <= i < |buf| && !(off <= i < off + |data|) ==> r[i] == buf[i]
  {
    buf[..off] + data + buf[off + |data|..]
  }

  /** Two adjacent copies are one copy of the concatenation. */
  lemma SpliceTwice(buf: seq<byte>, off: nat, a: seq<byte>, b: seq<byte>)
    requires off + |a| + |b| <= |buf|
    ensures Splice(Splice(buf, off, a), off + |a|, b) == Splice(buf, off, a + b)
  {
  }

  function Zeros(n: nat): (r: seq<byte>)
    ensures |r| == n
    ensures forall i :: 0 <= i < n ==> r[i] == 0
  {
    seq(n, i => 0)
  }

  // ---- big-endian and little-endian integers -------------------------------

  function Pow256(n: nat): (p: nat)
    ensures p > 0
  {
    if n == 0 then 1 else 0x100 * Pow256(n - 1)
  }

  lemma Widths()
    ensures Pow256(2) == 0x1_0000
    ensures Pow256(4) == 0x1_0000_0000
    ensures Pow256(8) == 0x1_0000_0000_0000_0000
  {
    assert Pow256(2) == 0x100 * Pow256(1) && Pow256(1) == 0x100 * Pow256(0);
    assert Pow256(4) == 0x100 * Pow256(3) && Pow256(3) == 0x100 * Pow256(2);
    assert Pow256(6) == 0x100 * Pow256(5) && Pow256(5) == 0x100 * Pow256(4);
    assert Pow256(8) == 0x100 * Pow256(7) && Pow256(7) == 0x100 * Pow256(6);
  }

  /** The `n` low bytes of `v`, most significant first. */
  function BeBytes(v: nat, n: nat): (r: seq<byte>)
    ensures |r| == n
  {
    if n == 0 then [] else BeBytes(v / 0x100, n - 1) + [v % 0x100]
  }

  function BeValue(s: seq<byte>): (v: nat)
    ensures v < Pow256(|s|)
  {
    if s == [] then 0 else BeValue(s[..|s| - 1]) * 0x100 + s[|s| - 1]
  }

  /** The `n` low bytes of `v`, least significant first. */
  function LeBytes(v: nat, n: nat): (r: seq<byte>)
    ensures |r| == n
  {
    if n == 0 then [] else [v % 0x100] + LeBytes(v / 0x100, n - 1)
  }

  function LeValue(s: seq<byte>): (v: nat)
    ensures v < Pow256(|s|)
  {
    if s == [] then 0 else LeValue(s[1..]) * 0x100 + s[0]
  }

  lemma {:induction false} BeRoundTrip(v: nat, n: nat)
    requires v < Pow256(n)
    ensures BeValue(BeBytes(v, n)) == v
  {
    if n > 0 {
      BeRoundTrip(v / 0x100, n - 1);
      assert BeBytes(v, n)[..n - 1] == BeBytes(v / 0x100, n - 1);
    }
  }

  lemma {:induction false} BeInjective(a: seq<byte>, b: seq<byte>)
    requires |a| == |b| && BeValue(a) == BeValue(b)
    ensures a == b
  {
    if a != [] {
      var n := |a| - 1;
      assert a[n] == b[n] && BeValue(a[..n]) == BeValue(b[..n]);
      BeInjective(a[..n], b[..n]);
      assert a == a[..n] + [a[n]] && b == b[..n] + [b[n]];
    }
  }

  lemma {:induction false} LeRoundTrip(v: nat, n: nat)
    requires v < Pow256(n)
    ensures LeValue(LeBytes(v, n)) == v
  {
    if n > 0 {
      LeRoundTrip(v / 0x100, n - 1);
      assert LeBytes(v, n)[1..] == LeBytes(v / 0x100, n - 1);
    }
  }

  lemma {:induction false} LeBytesOf(s: seq<byte>)
    ensures LeBytes(LeValue(s), |s|) == s
  {
    if s != [] {
      LeBytesOf(s[1..]);
      assert s == [s[0]] + s[1..];
    }
  }

  /** The order of the bytes of a word: the first is the least significant, or the most significant. */
  lemma ByteOrder(a: byte, b: byte, c: byte, d: byte)
    ensures LeValue([a, b, c, d]) == a + 0x100 * b + 0x1_0000 * c + 0x100_0000 * d
    ensures BeValue([a, b, c, d]) == 0x100_0000 * a + 0x1_0000 * b + 0x100 * c + d
  {
    assert [a, b, c, d][1..] == [b, c, d] && [b, c, d][1..] == [c, d] && [c, d][1..] == [d] && [d][1..] == [];
    assert [a, b, c, d][..3] == [a, b, c] && [a, b, c][..2] == [a, b] && [a, b][..1] == [a] && [a][..0] == [];
    assert LeValue([d]) == d && LeValue([c, d]) == c + 0x100 * d;
    assert BeValue([a]) == a && BeValue([a, b]) == 0x100 * a + b;
  }

  function Be16(v: u16): (r: seq<byte>)
    ensures |r| == 2 && BeValue(r) == v
  {
    Widths();
    BeRoundTrip(v, 2);
    BeBytes(v, 2)
  }

  function Be32(v: u32): (r: seq<byte>)
    ensures |r| == 4 && BeValue(r) == v
  {
    Widths();
    BeRoundTrip(v, 4);
    BeBytes(v, 4)
  }

  function Be64(v: u64): (r: seq<byte>)
    ensures |r| == 8 && BeValue(r) == v
  {
    Widths();
    BeRoundTrip(v, 8);
    BeBytes(v, 8)
  }

  function Le16(v: u16): (r: seq<byte>)
    ensures |r| == 2 && LeValue(r) == v
  {
    Widths();
    LeRoundTrip(v, 2);
    LeBytes(v, 2)
  }

  function GetLe16(buf: seq<byte>, off: nat): (v: u16)
    requires off + 2 <= |buf|
  {
    Widths();
    LeValue(buf[off..off + 2])
  }

  function Le32(v: u32): (r: seq<byte>)
    ensures |r| == 4 && LeValue(r) == v
  {
    Widths();
    LeRoundTrip(v, 4);
    LeBytes(v, 4)
  }

  function GetBe16(buf: seq<byte>, off: nat): (v: u16)
    requires off + 2 <= |buf|
  {
    Widths();
    BeValue(buf[off..off + 2])
  }

  function GetBe32(buf: seq<byte>, off: nat): (v: u32)
    requires off + 4 <= |buf|
  {
    Widths();
    BeValue(buf[off..off + 4])
  }

  function GetBe64(buf: seq<byte>, off: nat): (v: u64)
    requires off + 8 <= |buf|
  {
    Widths();
    BeValue(buf[off..off + 8])
  }

  function GetLe32(buf: seq<byte>, off: nat): (v: u32)
    requires off + 4 <= |buf|
  {
    Widths();
    LeValue(buf[off..off + 4])
  }

  function PutBe32(buf: seq<byte>, off: nat, v: u32): (r: seq<byte>)
    requires off + 4 <= |buf|
    ensures |r| == |buf| && r[off..off + 4] == Be32(v) && GetBe32(r, off) == v
    ensures forall i :: 0 <= i < |buf| && !(off <= i < off + 4) ==> r[i] == buf[i]
  {
    var r := Splice(buf, off, Be32(v));
    assert r[off..off + 4] == Be32(v);
    r
  }

  function PutLe32(buf: seq<byte>, off: nat, v: u32): (r: seq<byte>)
    requires off + 4 <= |buf|
    ensures |r| == |buf| && r[off..off + 4] == Le32(v) && GetLe32(r, off) == v
    ensures forall i :: 0 <= i < |buf| && !(off <= i < off + 4) ==> r[i] == buf[i]
  {
    var r := Splice(buf, off, Le32(v));
    assert r[off..off + 4] == Le32(v);
    r
  }

  /** A slice depends only on its own elements. */
  lemma SliceFrame<T>(a: seq<T>, b: seq<T>, i: nat, n: nat)
    requires i + n <= |a| && i + n <= |b|
    requires forall k :: i <= k < i + n ==> a[k] == b[k]
    ensures a[i..i + n] == b[i..i + n]
  {
  }

  /** A slice of a slice. */
  lemma Sub<T>(buf: seq<T>, off: nat, e: seq<T>, i: nat, n: nat)
    requires off + |e| <= |buf| && buf[off..off + |e|] == e && i + n <= |e|
    ensures buf[off + i..off + i + n] == e[i..i + n]
  {
    forall k | i <= k < i + n
      ensures e[k] == buf[off + k]
    {
      assert e[k] == buf[off..off + |e|][k];
    }
  }

  // ---- blocks of a fixed size ------------------------------------------------

  lemma Multiples(a: nat, b: nat, bs: nat)
    requires a <= b
    ensures a * bs <= b * bs
  {
  }

  /** Byte `k` lies in block `b` exactly when it is between the block's bounds. */
  lemma BlockOf(k: nat, b: nat, bs: nat)
    requires bs > 0
    ensures k / bs == b <==> b * bs <= k < b * bs + bs
    ensures k / bs == b ==> k % bs == k - b * bs
  {
    var q := k / bs;
    assert k == q * bs + k % bs;
    if q < b {
      Multiples(q + 1, b, bs);
      assert (q + 1) * bs == q * bs + bs;
    } else if b < q {
      Multiples(b + 1, q, bs);
      assert (b + 1) * bs == b * bs + bs;
    }
  }

  // ---- single bits of a flag word ------------------------------------------

  predicate Bit0(f: nat) { f % 2 == 1 }

  predicate Bit1(f: nat) { Bit0(f / 2) }

  predicate Bit2(f: nat) { Bit1(f / 2) }

  predicate Bit3(f: nat) { Bit2(f / 2) }

  predicate Bit4(f: nat) { Bit3(f / 2) }

  /** `f` with bit 0 equal to `on`. */
  function WithBit0(f: nat, on: bool): (r: nat)
    ensures Bit0(r) == on && r / 2 == f / 2
  {
    f / 2 * 2 + if on then 1 else 0
  }

  /** `f` with bit 1 equal to `on`. */
  function WithBit1(f: nat, on: bool): (r: nat)
    ensures Bit1(r) == on && r % 2 == f % 2 && r / 2 / 2 == f / 2 / 2
  {
    f % 2 + 2 * WithBit0(f / 2, on)
  }

  /** `f` with bit 2 equal to `on`. */
  function WithBit2(f: nat, on: bool): (r: nat)
    ensures Bit2(r) == on && r % 2 == f % 2 && r / 2 % 2 == f / 2 % 2 && r / 2 / 2 / 2 == f / 2 / 2 / 2
    ensures f < 0x1_0000_0000 ==> r < 0x1_0000_0000
  {
    f % 2 + 2 * WithBit1(f / 2, on)
  }

  /** `f` with bit 3 equal to `on`. */
  function WithBit3(f: nat, on: bool): (r: nat)
    ensures Bit3(r) == on && r % 2 == f % 2 && r / 2 % 2 == f / 2 % 2
    ensures r / 2 / 2 / 2 / 2 == f / 2 / 2 / 2 / 2
  {
    f % 2 + 2 * WithBit2(f / 2, on)
  }
}

/** Outcomes shared by the whole model. */
module Outcome {
  datatype Errno = EINVAL | EIO | ENOSPC | ENOENT | ENOTSUP | EEXIST | ENODATA | EISDIR | ENOTDIR | ENOTEMPTY | EFBIG

  datatype Option<+T> = None | Some(value: T)

  datatype Result<+T> = Ok(value: T) | Err(errno: Errno) {
    predicate IsFailure() {
      Err?
    }

    function PropagateFailure<U>(): Result<U>
      requires Err?
    {
      Err(errno)
    }

    function Extract(): T
      requires Ok?
    {
      value
    }
  }
}
