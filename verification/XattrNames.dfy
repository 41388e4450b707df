/** Attribute names: a namespace prefix kept as a number, and the rest. */
module XattrNames {
  import opened Bytes
  import opened Outcome
  import opened XattrLayout

  /** The bytes of an ASCII literal. */
  function Ascii(s: string): (r: Name)
    ensures |r| == |s|
  {
    seq(|s|, i requires 0 <= i < |s| => s[i] as int % 0x100)
  }

  const USER := "user."
  const TRUSTED := "trusted."
  const SECURITY := "security."
  const SYSTEM := "system."
  const ACL_ACCESS := "posix_acl_access"
  const ACL_DEFAULT := "posix_acl_default"

  datatype Split = Split(index: byte, rest: Name)

  predicate HasPrefix(full: Name, p: string) {
    Ascii(p) <= full
  }

  /** Whole-name attributes first, then the prefixes in turn. */
  function SplitName(full: Name): Option<Split> {
    if full == Ascii(SYSTEM) + Ascii(ACL_ACCESS) then Some(Split(2, []))
    else if full == Ascii(SYSTEM) + Ascii(ACL_DEFAULT) then Some(Split(3, []))
    else if HasPrefix(full, USER) then Some(Split(1, full[|USER|..]))
    else if HasPrefix(full, TRUSTED) then Some(Split(4, full[|TRUSTED|..]))
    else if HasPrefix(full, SECURITY) then Some(Split(6, full[|SECURITY|..]))
    else if HasPrefix(full, SYSTEM) then Some(Split(7, full[|SYSTEM|..]))
    else None
  }

  function Prefix(index: byte): Option<Name> {
    match index
    case 1 => Some(Ascii(USER))
    case 2 => Some(Ascii(SYSTEM) + Ascii(ACL_ACCESS))
    case 3 => Some(Ascii(SYSTEM) + Ascii(ACL_DEFAULT))
    case 4 => Some(Ascii(TRUSTED))
    case 6 => Some(Ascii(SECURITY))
    case 7 => Some(Ascii(SYSTEM))
    case _ => None
  }

  /** The full name of a stored one, unless its namespace is unknown or its bytes are not text. */
  function JoinName(index: byte, rest: Name, text: Name -> bool): Option<Name> {
    match Prefix(index)
    case None => None
    case Some(p) => if text(rest) then Some(p + rest) else None
  }

  /** A stored name that no full name splits into is one the splitter would have put elsewhere. */
  predicate Proper(index: byte, rest: Name) {
    && Prefix(index).Some?
    && (index == 2 || index == 3 ==> rest == [])
    && (index == 7 ==> rest != Ascii(ACL_ACCESS) && rest != Ascii(ACL_DEFAULT))
  }

  lemma PrefixClash(a: Name, x: Name, b: Name, y: Name, i: nat)
    requires i < |a| && i < |b| && a[i] != b[i]
    ensures a + x != b + y && !(a <= b + y)
  {
    assert (a + x)[i] == a[i] && (b + y)[i] == b[i];
  }

  /** No namespace prefix starts another. */
  lemma PrefixesApart(i: byte, j: byte, rest: Name)
    requires i in {1, 4, 6, 7} && j in {1, 4, 6, 7} && i != j
    ensures !(Prefix(i).value <= Prefix(j).value + rest)
  {
    var k := if {i, j} == {6, 7} then 1 else 0;
    PrefixClash(Prefix(i).value, [], Prefix(j).value, rest, k);
  }

  /** Splitting a full name and joining it again gives the name back; the parts are always proper. */
  lemma SplitThenJoin(full: Name, text: Name -> bool)
    requires SplitName(full).Some?
    ensures var s := SplitName(full).value;
            && JoinName(s.index, s.rest, text) == (if text(s.rest) then Some(full) else None)
            && Proper(s.index, s.rest)
  {
    var s := SplitName(full).value;
    var p := Prefix(s.index).value;
    assert full == p + s.rest;
  }

  /** Joining stored parts gives a full name that splits into them exactly when they are proper. */
  lemma JoinThenSplit(index: byte, rest: Name, text: Name -> bool)
    requires text(rest) && Prefix(index).Some?
    ensures SplitName(JoinName(index, rest, text).value) == Some(Split(index, rest)) <==> Proper(index, rest)
  {
    var full := JoinName(index, rest, text).value;
    if Proper(index, rest) {
      if index == 2 || index == 3 {
        assert full == Prefix(index).value;
        Differ();
      } else {
        Recut(index, rest);
      }
    } else if SplitName(full) == Some(Split(index, rest)) {
      SplitThenJoin(full, text);
    }
  }

  lemma Differ()
    ensures Ascii(SYSTEM) + Ascii(ACL_ACCESS) != Ascii(SYSTEM) + Ascii(ACL_DEFAULT)
  {
    var a, b := Ascii(SYSTEM) + Ascii(ACL_ACCESS), Ascii(SYSTEM) + Ascii(ACL_DEFAULT);
    assert |ACL_ACCESS| == 16 && |ACL_DEFAULT| == 17;
    assert |a| != |b|;
  }

  lemma Recut(index: byte, rest: Name)
    requires index in {1, 4, 6, 7} && Proper(index, rest)
    ensures SplitName(Prefix(index).value + rest) == Some(Split(index, rest))
  {
    hide Ascii;
    var p := Prefix(index).value;
    var full := p + rest;
    assert p <= full && full[|p|..] == rest;
    if index != 1 { PrefixesApart(1, index, rest); }
    if index != 4 { PrefixesApart(4, index, rest); }
    if index != 6 { PrefixesApart(6, index, rest); }
    SystemOnly(index, rest, Ascii(ACL_ACCESS));
    SystemOnly(index, rest, Ascii(ACL_DEFAULT));
  }

  /** Only a name in the system namespace equals one of the whole-name attributes. */
  lemma SystemOnly(index: byte, rest: Name, acl: Name)
    requires index in {1, 4, 6, 7} && (index == 7 ==> rest != acl)
    ensures Prefix(index).value + rest != Ascii(SYSTEM) + acl
  {
    hide Ascii;
    var p := Prefix(index).value;
    if index != 7 {
      PrefixesApart(7, index, rest);
      assert Ascii(SYSTEM) <= Ascii(SYSTEM) + acl;
    } else {
      assert rest == (p + rest)[|p|..] && acl == (p + acl)[|p|..];
    }
  }
}
