/** The extended attributes of one file: in the inode body, or in a block of their own. */
module XattrStore {
  import opened Bytes
  import opened Outcome
  import opened XattrLayout
  import opened XattrSerialize
  import opened XattrNames

  const MAGIC: u32 := 0xEA02_0000
  const BLOCK_HDR: nat := 32

  // ---- attributes as a partial map from names to values -------------------------------------------------

  predicate Named(a: Attr, index: byte, name: Name) {
    a.index == index && a.name == name
  }

  /** The value under the first entry with this name. */
  function ValueIn(attrs: seq<Attr>, index: byte, name: Name): Option<seq<byte>> {
    if attrs == [] then None
    else
      var rest, last := attrs[..|attrs| - 1], attrs[|attrs| - 1];
      if ValueIn(rest, index, name).Some? then ValueIn(rest, index, name)
      else if Named(last, index, name) then Some(last.value)
      else None
  }

  function Without(attrs: seq<Attr>, index: byte, name: Name): seq<Attr> {
    if attrs == [] then []
    else
      var rest, last := attrs[..|attrs| - 1], attrs[|attrs| - 1];
      Without(rest, index, name) + if Named(last, index, name) then [] else [last]
  }

  lemma {:induction false} ValueInPrefix(attrs: seq<Attr>, index: byte, name: Name, i: nat)
    requires i <= |attrs| && ValueIn(attrs[..i], index, name).Some?
    ensures ValueIn(attrs, index, name) == ValueIn(attrs[..i], index, name)
    decreases |attrs|
  {
    if i == |attrs| {
      assert attrs[..i] == attrs;
    } else {
      assert attrs[..|attrs| - 1][..i] == attrs[..i];
      ValueInPrefix(attrs[..|attrs| - 1], index, name, i);
    }
  }

  lemma {:induction false} InsertKeepsFirst(attrs: seq<Attr>, x: Attr, index: byte, name: Name)
    ensures ValueIn(InsertSorted(attrs, x), index, name) == ValueIn(attrs + [x], index, name)
  {
    hide NameLe;
    assert (attrs + [x])[..|attrs|] == attrs;
    if !(attrs == [] || AttrLe(attrs[|attrs| - 1], x)) {
      var rest, last := attrs[..|attrs| - 1], attrs[|attrs| - 1];
      InsertKeepsFirst(rest, x, index, name);
      assert (rest + [x])[..|rest|] == rest;
      NameTotal(x.name, x.name);
      assert !(Named(x, index, name) && Named(last, index, name));
    }
  }

  /** The sort is stable, so it keeps what a first-match search answers. */
  lemma {:induction false} SortKeepsFirst(attrs: seq<Attr>, index: byte, name: Name)
    ensures ValueIn(SortAttrs(attrs), index, name) == ValueIn(attrs, index, name)
  {
    if attrs != [] {
      var rest, last := attrs[..|attrs| - 1], attrs[|attrs| - 1];
      SortKeepsFirst(rest, index, name);
      InsertKeepsFirst(SortAttrs(rest), last, index, name);
      assert (SortAttrs(rest) + [last])[..|SortAttrs(rest)|] == SortAttrs(rest);
    }
  }

  lemma {:induction false} WithoutValues(attrs: seq<Attr>, index: byte, name: Name, k: byte, n: Name)
    ensures ValueIn(Without(attrs, index, name), k, n) == if k == index && n == name then None else ValueIn(attrs, k, n)
  {
    if attrs != [] {
      var rest, last := attrs[..|attrs| - 1], attrs[|attrs| - 1];
      WithoutValues(rest, index, name, k, n);
      var kept := Without(rest, index, name);
      assert (kept + [last])[..|kept|] == kept && kept + [] == kept;
    }
  }

  lemma {:induction false} WithoutShorter(attrs: seq<Attr>, index: byte, name: Name)
    ensures |Without(attrs, index, name)| <= |attrs|
    ensures |Without(attrs, index, name)| == |attrs| <==> ValueIn(attrs, index, name) == None
  {
    if attrs != [] {
      WithoutShorter(attrs[..|attrs| - 1], index, name);
    }
  }

  predicate AllStorable(attrs: seq<Attr>) {
    forall i: nat :: i < |attrs| ==> Storable(attrs[i])
  }

  /** A name longer than its length byte can say is never read back. */
  lemma {:induction false} LongNameAbsent(attrs: seq<Attr>, index: byte, name: Name)
    requires AllStorable(attrs)
    ensures |name| > 0xFF ==> ValueIn(attrs, index, name) == None
  {
    if attrs != [] {
      assert AllStorable(attrs[..|attrs| - 1]);
      LongNameAbsent(attrs[..|attrs| - 1], index, name);
    }
  }

  lemma {:induction false} WithoutStorable(attrs: seq<Attr>, index: byte, name: Name)
    requires AllStorable(attrs)
    ensures AllStorable(Without(attrs, index, name))
  {
    if attrs != [] {
      assert AllStorable(attrs[..|attrs| - 1]);
      WithoutStorable(attrs[..|attrs| - 1], index, name);
    }
  }

  lemma SortStorable(attrs: seq<Attr>)
    requires AllStorable(attrs)
    ensures AllStorable(SortAttrs(attrs))
  {
    hide SortAttrs;
    SortFacts(attrs);
    forall i: nat | i < |SortAttrs(attrs)|
      ensures Storable(SortAttrs(attrs)[i])
    {
      assert SortAttrs(attrs)[i] in multiset(attrs);
      var k :| 0 <= k < |attrs| && attrs[k] == SortAttrs(attrs)[i];
    }
  }

  lemma {:induction false} ParsedStorable(buf: seq<byte>, pos: nat)
    ensures AllStorable(ParseEntries(buf, pos))
    decreases |buf| - pos
  {
    hide EntryLen, EntryAt, Storable;
    if EntryAt(buf, pos).Some? {
      var a := EntryAt(buf, pos).value;
      EntryLenPositive(|a.name|);
      EntryStorable(buf, pos);
      ParsedStorable(buf, pos + EntryLen(|a.name|));
    }
  }

  lemma EntryStorable(buf: seq<byte>, pos: nat)
    ensures EntryAt(buf, pos).Some? ==> Storable(EntryAt(buf, pos).value) && pos < |buf|
  {
    hide LeValue;
  }

  // ---- the two places ------------------------------------------------------------------------------------

  /** Attributes of the spare bytes behind the inode's fixed fields. */
  function BodyAttrs(body: seq<byte>): seq<Attr> {
    if |body| >= 4 && GetLe32(body, 0) == MAGIC then ParseEntries(body[4..], 0) else []
  }

  function BlockAttrs(block: Option<seq<byte>>): seq<Attr> {
    if block.Some? && |block.value| >= BLOCK_HDR
        && GetLe32(block.value, 0) == MAGIC then ParseEntries(block.value, BLOCK_HDR) else []
  }

  function Attrs(body: seq<byte>, block: Option<seq<byte>>): seq<Attr> {
    BodyAttrs(body) + BlockAttrs(block)
  }

  lemma AttrsStorable(body: seq<byte>, block: Option<seq<byte>>)
    ensures AllStorable(Attrs(body, block))
  {
    hide Storable, GetLe32;
    if |body| >= 4 {
      ParsedStorable(body[4..], 0);
    }
    if block.Some? {
      ParsedStorable(block.value, BLOCK_HDR);
    }
  }

  /** A body cleared for good measure; one without room for any attribute is left as it is. */
  function Blank(body: seq<byte>): (r: seq<byte>)
    ensures |r| == |body|
  {
    if |body| > 4 then Zeros(|body|) else body
  }

  lemma BlankIsEmpty(body: seq<byte>)
    ensures BodyAttrs(Blank(body)) == []
  {
    if |body| > 4 {
      LeZero(Zeros(|body|)[0..4]);
    } else if |body| == 4 {
      assert EntryAt(body[4..], 0) == None;
    }
  }

  lemma LeZero(s: seq<byte>)
    requires forall i :: 0 <= i < |s| ==> s[i] == 0
    ensures LeValue(s) == 0
  {
  }

  /** Magic number, one reference, one block, and zeros. */
  function Header(): (r: seq<byte>)
    ensures |r| == BLOCK_HDR && GetLe32(r, 0) == MAGIC
  {
    var r := Le32(MAGIC) + Le32(1) + Le32(1) + Zeros(20);
    assert r[0..4] == Le32(MAGIC);
    r
  }

  /** A block with its header and, in place of the zeros it was computed over, its checksum. */
  predicate Sealed(b: seq<byte>, csum: seq<byte> -> u32) {
    && |b| >= BLOCK_HDR
    && b[0..16] == Le32(MAGIC) + Le32(1) + Le32(1) + Zeros(4) && b[20..BLOCK_HDR] == Zeros(12)
    && b[16..20] == Le32(csum(b[..16] + Zeros(4) + b[20..]))
  }

  lemma SealedNow(filled: seq<byte>, csum: seq<byte> -> u32)
    requires |filled| >= BLOCK_HDR && filled[..BLOCK_HDR] == Header()
    ensures Sealed(PutLe32(filled, 16, csum(filled)), csum)
  {
    hide Le32;
    var b := PutLe32(filled, 16, csum(filled));
    var h := Header();
    assert h == Le32(MAGIC) + Le32(1) + Le32(1) + Zeros(4) + Zeros(4) + Zeros(12);
    assert filled[16..20] == filled[..BLOCK_HDR][16..20] == h[16..20] == Zeros(4);
    assert b[..16] == filled[..BLOCK_HDR][..16] == h[..16] && b[20..] == filled[20..];
    assert b[20..BLOCK_HDR] == filled[..BLOCK_HDR][20..] == h[20..];
    assert b[..16] + Zeros(4) + b[20..] == filled;
  }

  /** A serialised region parses back to the sorted attributes. */
  lemma RegionParses(buf: seq<byte>, attrs: seq<Attr>, start: nat, hash: EntryHash)
    requires Serialized(buf, SortAttrs(attrs), start, hash) && AllStorable(attrs)
    ensures ParseEntries(buf, start) == SortAttrs(attrs)
  {
    hide SortAttrs, Serialized, Storable;
    SortStorable(attrs);
    ParseSerialized(buf, SortAttrs(attrs), start, 0, hash);
    OffStart(SortAttrs(attrs), start);
    assert SortAttrs(attrs)[0..] == SortAttrs(attrs);
  }

  lemma OffStart(attrs: seq<Attr>, start: nat)
    ensures EntryOff(attrs, start, 0) == start
  {
  }

  /** Changing bytes in front of the array leaves it in place. */
  lemma HeaderFree(a: seq<byte>, b: seq<byte>, attrs: seq<Attr>, start: nat, hash: EntryHash)
    requires Serialized(a, attrs, start, hash) && SameOutside(a, b, 0, start)
    ensures Serialized(b, attrs, start, hash)
  {
    hide EntriesLen, ValuesLen, EntryBytes, RoundUp4;
    forall i: nat | i < |attrs|
      ensures InPlace(b, attrs, start, i, hash)
    {
      assert InPlace(a, attrs, start, i, hash);
      var x, off, voff := attrs[i], EntryOff(attrs, start, i), ValueOff(attrs, |a|, i);
      NoOverlap(a, attrs, start, i, i, hash);
      SliceFrame(a, b, off, ENTRY_FIXED + |x.name|);
      SliceFrame(a, b, voff, |x.value|);
    }
  }

  // ---- the store --------------------------------------------------------------------------------------------

  predicate FitsBody(attrs: seq<Attr>, bodyLen: nat) {
    bodyLen > 4 && Fits(SortAttrs(attrs), 0, bodyLen - 4)
  }

  predicate FitsBlock(attrs: seq<Attr>, blockSize: nat) {
    Fits(SortAttrs(attrs), BLOCK_HDR, blockSize)
  }

  /** When a store succeeds: in the body if no block is in use, else in a block, old or new. */
  predicate HasRoom(attrs: seq<Attr>, bodyLen: nat, hasBlock: bool, blockSize: nat, free: bool) {
    || attrs == []
    || (!hasBlock && FitsBody(attrs, bodyLen))
    || (FitsBlock(attrs, blockSize) && (hasBlock || free))
  }

  /** The inode body holds no entry hashes. */
  function NoHash(a: Attr): u32 {
    0
  }

  class XattrFile {
    var body: seq<byte>
    var block: Option<seq<byte>>
    const blockSize: nat
    const hash: EntryHash
    const csum: seq<byte> -> u32
    const text: Name -> bool

    ghost predicate Valid()
      reads this
    {
      && BLOCK_HDR <= blockSize <= 0x1_0000 && |body| <= 0x1_0000
      && (block.Some? ==> |block.value| == blockSize)
    }

    /** A file without attributes, with `room` spare bytes in its inode. */
    constructor (room: nat, blockSize: nat, hash: EntryHash, csum: seq<byte> -> u32, text: Name -> bool)
      requires BLOCK_HDR <= blockSize <= 0x1_0000 && room <= 0x1_0000
      ensures Valid() && Contents() == [] && block == None && |body| == room && this.blockSize == blockSize
    {
      body, block := Zeros(room), None;
      this.blockSize, this.hash, this.csum, this.text := blockSize, hash, csum, text;
      BlankIsEmpty(Zeros(room));
      assert Blank(Zeros(room)) == Zeros(room);
    }

    function Contents(): seq<Attr>
      reads this
    {
      Attrs(body, block)
    }

    /** The file's attributes as a partial map. */
    function Value(index: byte, name: Name): Option<seq<byte>>
      reads this
    {
      ValueIn(Contents(), index, name)
    }

    method Collect() returns (out: seq<Attr>)
      requires Valid()
      ensures out == Contents()
    {
      out := [];
      if |body| >= 4 && GetLe32(body, 0) == MAGIC {
        out := ReadEntries(body[4..], 0);
      }
      if block.Some? && GetLe32(block.value, 0) == MAGIC {
        var more := ReadEntries(block.value, BLOCK_HDR);
        out := out + more;
      }
    }

    /** The first attribute of that name. */
    method Get(full: Name) returns (r: Result<seq<byte>>)
      requires Valid()
      ensures SplitName(full) == None ==> r == Err(ENODATA)
      ensures SplitName(full).Some? ==>
                var s := SplitName(full).value;
                r == match Value(s.index, s.rest) case Some(v) => Ok(v) case None => Err(ENODATA)
    {
      hide SplitName;
      var split := SplitName(full);
      if split == None {
        return Err(ENODATA);
      }
      var index, name := split.value.index, split.value.rest;
      var attrs := Collect();
      for i := 0 to |attrs|
        invariant ValueIn(attrs[..i], index, name) == None
      {
        assert attrs[..i + 1][..i] == attrs[..i];
        if attrs[i].index == index && attrs[i].name == name {
          ValueInPrefix(attrs, index, name, i + 1);
          return Ok(attrs[i].value);
        }
      }
      assert attrs[..|attrs|] == attrs;
      return Err(ENODATA);
    }

    /** Is there an entry of that name, and which ones have another. */
    method Sift(attrs: seq<Attr>, index: byte, name: Name) returns (found: bool, others: seq<Attr>)
      ensures found == ValueIn(attrs, index, name).Some?
      ensures others == Without(attrs, index, name)
    {
      found, others := false, [];
      for i := 0 to |attrs|
        invariant found == ValueIn(attrs[..i], index, name).Some? && others == Without(attrs[..i], index, name)
      {
        assert attrs[..i + 1][..i] == attrs[..i];
        if Named(attrs[i], index, name) {
          found := true;
        } else {
          others := others + [attrs[i]];
        }
      }
      assert attrs[..|attrs|] == attrs;
    }

    /** Choose the place for the whole set and write it. */
    method Store(attrs: seq<Attr>, free: bool) returns (r: Result<()>)
      requires Valid()
      modifies this`body, this`block
      ensures Valid() && |body| == |old(body)|
      ensures r.Ok? <==> HasRoom(attrs, |old(body)|, old(block).Some?, blockSize, free)
      ensures r.Ok? && AllStorable(attrs) ==> Contents() == SortAttrs(attrs)
      ensures r.Ok? ==> (block == None <==> attrs == [] || (old(block) == None && FitsBody(attrs, |old(body)|)))
      ensures r.Ok? && block.Some? ==> Sealed(block.value, csum)
      ensures r.Err? ==>
              r.errno == ENOSPC && body == Blank(old(body)) && block == old(block)
                  && Contents() == BlockAttrs(old(block))
                  && (Contents() == old(Contents()) <==> BodyAttrs(old(body)) == [])
    {
      hide SortAttrs, Storable, Blank, ParseEntries, Serialized, Fits, GetLe32, Sealed;
      BlankIsEmpty(body);
      if attrs == [] {
        body, block := Blank(body), None;
        assert SortAttrs([]) == [] by { SameLength([]); }
        return Ok(());
      }
      if block == None && |body| > 4 {
        var region := Serialize(Zeros(|body| - 4), attrs, 0, NoHash);
        if region.Some? {
          body := Le32(MAGIC) + region.value;
          BodyWritten(region.value, attrs);
          return Ok(());
        }
      }
      body := Blank(body);
      r := WriteBlock(attrs, free);
    }

    /** Serialise into the block, taking a fresh one if the file has none. */
    method WriteBlock(attrs: seq<Attr>, free: bool) returns (r: Result<()>)
      requires Valid() && attrs != []
      modifies this`block
      ensures Valid()
      ensures r.Ok? <==> FitsBlock(attrs, blockSize) && (old(block).Some? || free)
      ensures r.Ok? ==> block.Some? && Sealed(block.value, csum)
      ensures r.Ok? && AllStorable(attrs) ==> BlockAttrs(block) == SortAttrs(attrs)
      ensures r.Err? ==> r.errno == ENOSPC && block == old(block)
    {
      hide SortAttrs, Storable, Serialized, ParseEntries, GetLe32, Fits;
      var start := Header() + Zeros(blockSize - BLOCK_HDR);
      var filled := Serialize(start, attrs, BLOCK_HDR, hash);
      if filled == None || (block == None && !free) {
        return Err(ENOSPC);
      }
      block := Some(PutLe32(filled.value, 16, csum(filled.value)));
      assert filled.value[..BLOCK_HDR] == Header();
      SealedNow(filled.value, csum);
      BlockWritten(filled.value, block.value, attrs, hash);
      return Ok(());
    }

    /** Create or replace one attribute. */
    method Set(full: Name, value: seq<byte>, create: bool, replace: bool, free: bool) returns (r: Result<()>)
      requires Valid()
      modifies this`body, this`block
      ensures Valid() && |body| == |old(body)|
      ensures SplitName(full) == None ==> r == Err(ENOTSUP) && Contents() == old(Contents())
      ensures SplitName(full).Some? ==>
                var s := SplitName(full).value;
                var kept := Without(old(Contents()), s.index, s.rest) + [Attr(s.index, s.rest, value)];
                var present := old(Value(s.index, s.rest)).Some?;
                if create && present then r == Err(EEXIST) && Contents() == old(Contents())
                else if replace && !present then r == Err(ENODATA) && Contents() == old(Contents())
                else if !HasRoom(kept, |old(body)|, old(block).Some?, blockSize, free) then
                  r == Err(ENOSPC) && body == Blank(old(body)) && block == old(block)
                      && Contents() == BlockAttrs(old(block))
                      && (Contents() == old(Contents()) <==> BodyAttrs(old(body)) == [])
                else
                  && r.Ok?
                  && (block == None <==> old(block) == None && FitsBody(kept, |old(body)|))
                  && (block.Some? ==> Sealed(block.value, csum))
                  && (|s.rest| <= 0xFF <==>
                        forall k, n :: Value(k, n) == (if k == s.index
                            && n == s.rest then Some(value) else old(Value(k, n))))
    {
      hide SplitName, Attrs, SortAttrs, HasRoom, Without, Blank, AllStorable, Sealed;
      var split := SplitName(full);
      if split == None {
        return Err(ENOTSUP);
      }
      var index, name := split.value.index, split.value.rest;
      var attrs := Collect();
      var present, others := Sift(attrs, index, name);
      if create && present {
        return Err(EEXIST);
      }
      if replace && !present {
        return Err(ENODATA);
      }
      AttrsStorable(body, block);
      r := Store(others + [Attr(index, name, value)], free);
      SplitIndex(full);
      UpdatedStorable(attrs, index, name, value);
      AttrsStorable(body, block);
      LongNameAbsent(Attrs(body, block), index, name);
      if r.Ok? && |name| <= 0xFF {
        forall k, n
          ensures Value(k, n) == if k == index && n == name then Some(value) else old(Value(k, n))
        {
          UpdatedValues(attrs, index, name, value, k, n);
        }
      }
    }

    /** Drop one attribute. */
    method Remove(full: Name, free: bool) returns (r: Result<()>)
      requires Valid()
      modifies this`body, this`block
      ensures Valid() && |body| == |old(body)|
      ensures SplitName(full) == None ==> r == Err(ENODATA) && Contents() == old(Contents())
      ensures SplitName(full).Some? ==>
                var s := SplitName(full).value;
                var kept := Without(old(Contents()), s.index, s.rest);
                if old(Value(s.index, s.rest)) == None then r == Err(ENODATA) && Contents() == old(Contents())
                else if !HasRoom(kept, |old(body)|, old(block).Some?, blockSize, free) then
                  r == Err(ENOSPC) && body == Blank(old(body)) && block == old(block)
                      && Contents() == BlockAttrs(old(block))
                      && (Contents() == old(Contents()) <==> BodyAttrs(old(body)) == [])
                else
                  && r.Ok?
                  && (block == None <==> kept == [] || (old(block) == None && FitsBody(kept, |old(body)|)))
                  && (block.Some? ==> Sealed(block.value, csum))
                  && forall k, n :: Value(k, n) == if k == s.index && n == s.rest then None else old(Value(k, n))
    {
      hide SplitName, Attrs, SortAttrs, HasRoom, Without, Blank, AllStorable, Sealed;
      var split := SplitName(full);
      if split == None {
        return Err(ENODATA);
      }
      var index, name := split.value.index, split.value.rest;
      var attrs := Collect();
      var present, others := Sift(attrs, index, name);
      WithoutShorter(attrs, index, name);
      if |others| == |attrs| {
        return Err(ENODATA);
      }
      AttrsStorable(body, block);
      WithoutStorable(attrs, index, name);
      r := Store(others, free);
      if r.Ok? {
        forall k, n
          ensures Value(k, n) == if k == index && n == name then None else old(Value(k, n))
        {
          SortKeepsFirst(others, k, n);
          WithoutValues(attrs, index, name, k, n);
        }
      }
    }

    /** All full names, in storage order. */
    method List() returns (names: seq<Name>)
      requires Valid()
      ensures names == NamesOf(Contents(), text)
    {
      hide JoinName;
      var attrs := Collect();
      names := [];
      for i := 0 to |attrs|
        invariant names == NamesOf(attrs[..i], text)
      {
        assert attrs[..i + 1][..i] == attrs[..i];
        var full := JoinName(attrs[i].index, attrs[i].name, text);
        if full.Some? {
          names := names + [full.value];
        }
      }
      assert attrs[..|attrs|] == attrs;
    }
  }

  // ---- two failures, on files of their own -------------------------------------------------------------------

  lemma OneFits(a: Attr, start: nat, len: nat)
    requires start + EntryLen(|a.name|) + 4 <= len - ValuePad(a)
    ensures SortAttrs([a]) == [a] && Fits([a], start, len)
  {
    hide EntryLen, ValuePad;
    assert [a][..0] == [];
    OffStep([a], start, len, 0);
  }

  /** A value no shorter than body and block finds no room. */
  lemma TooLarge(attrs: seq<Attr>, k: nat, bodyLen: nat, hasBlock: bool, blockSize: nat, free: bool)
    requires k < |attrs| && |attrs[k].value| >= bodyLen && |attrs[k].value| >= blockSize
    ensures !HasRoom(attrs, bodyLen, hasBlock, blockSize, free)
  {
    hide EntryOff, ValueEnd, ValuePad, SortAttrs;
    var sorted := SortAttrs(attrs);
    SortFacts(attrs);
    assert attrs[k] in multiset(sorted);
    var i :| 0 <= i < |sorted| && sorted[i] == attrs[k];
    PaddedLengths(attrs[k]);
    NoRoom(sorted, i, 0, bodyLen);
    NoRoom(sorted, i, BLOCK_HDR, blockSize);
    if bodyLen > 4 {
      NoRoom(sorted, i, 0, bodyLen - 4);
    }
  }

  lemma NoRoom(attrs: seq<Attr>, i: nat, start: nat, len: nat)
    requires i < |attrs| && |attrs[i].value| >= len
    ensures !Fits(attrs, start, len)
  {
    hide EntryLen, ValuePad, EntriesLen, ValuesLen;
    OffStep(attrs, start, len, i);
    OffMonotone(attrs, start, len, 0, i);
    PaddedLengths(attrs[i]);
    assert !FitsAt(attrs, start, len, i);
  }

  lemma UserName(rest: Name)
    ensures SplitName(Ascii(USER) + rest) == Some(Split(1, rest))
  {
    Recut(1, rest);
  }

  /** A name beyond 255 bytes can be set with success, and is then not found. */
  method LongNameIsLost(rest: Name, hash: EntryHash, csum: seq<byte> -> u32, text: Name -> bool)
    returns (r: Result<()>, v: Result<seq<byte>>)
    requires 0xFF < |rest| <= 900
    ensures r.Ok? && v == Err(ENODATA)
  {
    hide SplitName, Ascii, Attrs, SortAttrs, Fits, ParseEntries, Sealed;
    var file := new XattrFile(0, 1024, hash, csum, text);
    var x := Attr(1, rest, []);
    UserName(rest);
    OneFits(x, BLOCK_HDR, 1024);
    assert Without([], 1, rest) + [x] == [x];
    r := file.Set(Ascii(USER) + rest, [], false, false, true);
    AttrsStorable(file.body, file.block);
    LongNameAbsent(file.Contents(), 1, rest);
    v := file.Get(Ascii(USER) + rest);
  }

  /** Setting a value that does not fit takes an attribute of another name away. */
  method NoSpaceDropsOthers(value: seq<byte>, hash: EntryHash, csum: seq<byte> -> u32, text: Name -> bool)
    returns (first: Result<()>, before: Result<seq<byte>>, second: Result<()>, after: Result<seq<byte>>)
    requires |value| >= 1024
    ensures first.Ok? && before == Ok([7]) && second == Err(ENOSPC) && after == Err(ENODATA)
  {
    hide SplitName, Ascii, Attrs, SortAttrs, Fits, ParseEntries, Sealed;
    var file := new XattrFile(128, 1024, hash, csum, text);
    var a, b := [97], [98];
    var x := Attr(1, a, [7]);
    UserName(a);
    UserName(b);
    OneFits(x, 0, 124);
    assert Without([], 1, a) + [x] == [x];
    first := file.Set(Ascii(USER) + a, [7], false, false, true);
    before := file.Get(Ascii(USER) + a);
    var kept := Without(file.Contents(), 1, b);
    TooLarge(kept + [Attr(1, b, value)], |kept|, 128, false, 1024, true);
    second := file.Set(Ascii(USER) + b, value, false, false, true);
    assert file.Contents() == [];
    after := file.Get(Ascii(USER) + a);
  }

  function NamesOf(attrs: seq<Attr>, text: Name -> bool): seq<Name> {
    if attrs == [] then []
    else
      var last := attrs[|attrs| - 1];
      match JoinName(last.index, last.name, text)
      case Some(full) => NamesOf(attrs[..|attrs| - 1], text) + [full]
      case None => NamesOf(attrs[..|attrs| - 1], text)
  }

  /** The names are those of the entries one by one: in storage order, each as often as it is stored. */
  lemma {:induction false} NamesInOrder(a: seq<Attr>, b: seq<Attr>, text: Name -> bool)
    ensures NamesOf(a + b, text) == NamesOf(a, text) + NamesOf(b, text)
    ensures |b| == 1 ==>
              NamesOf(b, text) == match JoinName(b[0].index, b[0].name, text) case Some(full) => [full] case None => []
    decreases |b|
  {
    hide JoinName;
    if b == [] {
      assert a + b == a;
    } else {
      var n := |b| - 1;
      assert (a + b)[..|a + b| - 1] == a + b[..n];
      NamesInOrder(a, b[..n], text);
    }
  }

  /** Some entry is stored under parts that no full name splits into, but joins to this one. */
  predicate Misnamed(attrs: seq<Attr>, full: Name, text: Name -> bool) {
    exists i :: 0 <= i < |attrs| && JoinsWrongly(attrs[i], full, text)
  }

  predicate JoinsWrongly(a: Attr, full: Name, text: Name -> bool) {
    !Proper(a.index, a.name) && JoinName(a.index, a.name, text) == Some(full)
  }

  /** A name is listed exactly when a search for it finds something, or an improperly stored entry joins to it. */
  lemma {:induction false} ListedIffFound(attrs: seq<Attr>, full: Name, text: Name -> bool)
    requires SplitName(full).Some? && text(SplitName(full).value.rest)
    ensures full in NamesOf(attrs, text) <==>
            ValueIn(attrs, SplitName(full).value.index, SplitName(full).value.rest).Some? || Misnamed(attrs, full, text)
  {
    hide JoinName, SplitName, Proper, JoinsWrongly;
    if attrs != [] {
      var rest, last := attrs[..|attrs| - 1], attrs[|attrs| - 1];
      ListedIffFound(rest, full, text);
      OneListed(last, full, text);
      assert Misnamed(attrs, full, text) <==> Misnamed(rest, full, text) || JoinsWrongly(last, full, text) by {
        MisnamedLast(attrs, full, text);
      }
    }
  }

  lemma MisnamedLast(attrs: seq<Attr>, full: Name, text: Name -> bool)
    requires attrs != []
    ensures Misnamed(attrs, full, text) <==>
            Misnamed(attrs[..|attrs| - 1], full, text) || JoinsWrongly(attrs[|attrs| - 1], full, text)
  {
    hide JoinsWrongly;
    var rest := attrs[..|attrs| - 1];
    if Misnamed(attrs, full, text) {
      var i :| 0 <= i < |attrs| && JoinsWrongly(attrs[i], full, text);
      assert i < |rest| ==> rest[i] == attrs[i];
    }
    if Misnamed(rest, full, text) {
      var i :| 0 <= i < |rest| && JoinsWrongly(rest[i], full, text);
      assert attrs[i] == rest[i];
    }
  }

  lemma OneListed(a: Attr, full: Name, text: Name -> bool)
    requires SplitName(full).Some? && text(SplitName(full).value.rest)
    ensures JoinName(a.index, a.name, text) == Some(full) <==>
            Named(a, SplitName(full).value.index, SplitName(full).value.rest) || JoinsWrongly(a, full, text)
  {
    hide SplitName, Ascii;
    SplitThenJoin(full, text);
    if Proper(a.index, a.name) && text(a.name) {
      JoinThenSplit(a.index, a.name, text);
    }
  }

  /**
   Such an entry: an access list stored with a name of its own is listed, but asking for the listed name finds
   nothing.
   */
  lemma ListedNotFound(text: Name -> bool)
    requires text(Ascii("x")) && text(Ascii(ACL_ACCESS) + Ascii("x"))
    ensures var attrs, full := [Attr(2, Ascii("x"), [])], Ascii(SYSTEM) + Ascii(ACL_ACCESS) + Ascii("x");
            && full in NamesOf(attrs, text) && SplitName(full).Some?
            && ValueIn(attrs, SplitName(full).value.index, SplitName(full).value.rest) == None
  {
    var attrs, full := [Attr(2, Ascii("x"), [])], Ascii(SYSTEM) + Ascii(ACL_ACCESS) + Ascii("x");
    var rest := Ascii(ACL_ACCESS) + Ascii("x");
    assert full == Prefix(7).value + rest;
    assert |Ascii("x")| == 1 && |rest| == 17 && |Ascii(ACL_DEFAULT)| == 17;
    assert rest[10] != Ascii(ACL_DEFAULT)[10];
    Recut(7, rest);
    assert NamesOf(attrs, text) == NamesOf([], text) + [full];
  }

  lemma SplitIndex(full: Name)
    ensures SplitName(full).Some? ==> SplitName(full).value.index != 0
  {
  }

  lemma UpdatedStorable(attrs: seq<Attr>, index: byte, name: Name, value: seq<byte>)
    requires AllStorable(attrs) && index != 0
    ensures |name| <= 0xFF ==> AllStorable(Without(attrs, index, name) + [Attr(index, name, value)])
  {
    hide Without;
    WithoutStorable(attrs, index, name);
  }

  lemma UpdatedValues(attrs: seq<Attr>, index: byte, name: Name, value: seq<byte>, k: byte, n: Name)
    ensures ValueIn(SortAttrs(Without(attrs, index, name) + [Attr(index, name, value)]), k, n)
         == if k == index && n == name then Some(value) else ValueIn(attrs, k, n)
  {
    hide SortAttrs, Without;
    var kept := Without(attrs, index, name);
    SortKeepsFirst(kept + [Attr(index, name, value)], k, n);
    WithoutValues(attrs, index, name, k, n);
    assert (kept + [Attr(index, name, value)])[..|kept|] == kept;
  }

  lemma BodyWritten(region: seq<byte>, attrs: seq<Attr>)
    requires Serialized(region, SortAttrs(attrs), 0, NoHash)
    ensures AllStorable(attrs) ==> Attrs(Le32(MAGIC) + region, None) == SortAttrs(attrs)
  {
    hide SortAttrs, Serialized, AllStorable, ParseEntries, Le32;
    var body := Le32(MAGIC) + region;
    assert body[0..4] == Le32(MAGIC) && body[4..] == region;
    if AllStorable(attrs) {
      RegionParses(region, attrs, 0, NoHash);
    }
  }

  lemma BlockWritten(filled: seq<byte>, block: seq<byte>, attrs: seq<Attr>, hash: EntryHash)
    requires Serialized(filled, SortAttrs(attrs), BLOCK_HDR, hash) && |filled| >= BLOCK_HDR
    requires filled[..BLOCK_HDR] == Header() && SameOutside(filled, block, 16, 20)
    ensures AllStorable(attrs) ==> BlockAttrs(Some(block)) == SortAttrs(attrs)
  {
    hide SortAttrs, Serialized, AllStorable, ParseEntries, Header, LeValue;
    assert filled[0..4] == filled[..BLOCK_HDR][0..4];
    SliceFrame(filled, block, 0, 4);
    HeaderFree(filled, block, SortAttrs(attrs), BLOCK_HDR, hash);
    if AllStorable(attrs) {
      RegionParses(block, attrs, BLOCK_HDR, hash);
    }
  }
}
