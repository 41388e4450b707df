/** Leaves of an indexed directory: entries, their order by hash, and where a full leaf is split. */
module HashLeaves {
  import opened Bytes
  import opened Outcome

  type Name = seq<byte>

  /** The directory hash, as an arbitrary function of the name. */
  type Hash = Name -> u32

  datatype Item = Item(name: Name, inode: u32, kind: byte)

  /** The scan of one block: the first live entry with the name. */
  function FirstNamed(items: seq<Item>, n: Name): (r: Option<Item>)
  {
    if items == [] then None
    else if items[0].name == n then Some(items[0])
    else FirstNamed(items[1..], n)
  }

  lemma {:induction false} FirstConcat(a: seq<Item>, b: seq<Item>, n: Name)
    ensures FirstNamed(a + b, n) == if FirstNamed(a, n).Some? then FirstNamed(a, n) else FirstNamed(b, n)
    decreases |a|
  {
    if a == [] {
      assert a + b == b;
    } else {
      FirstConcat(a[1..], b, n);
      assert (a + b)[1..] == a[1..] + b;
    }
  }

  lemma {:induction false} NotNamed(items: seq<Item>, n: Name)
    requires forall i :: 0 <= i < |items| ==> items[i].name != n
    ensures FirstNamed(items, n) == None
  {
    if items != [] {
      NotNamed(items[1..], n);
    }
  }

  lemma {:induction false} NamedIsThere(items: seq<Item>, n: Name)
    requires FirstNamed(items, n).Some?
    ensures FirstNamed(items, n).value in items && FirstNamed(items, n).value.name == n
  {
    if items[0].name != n {
      NamedIsThere(items[1..], n);
    }
  }

  lemma FirstOne(x: Item, n: Name)
    ensures FirstNamed([x], n) == if x.name == n then Some(x) else None
  {
    assert [x][1..] == [];
  }

  // ---- sorting by hash -----------------------------------------------------------------------------

  predicate InHashOrder(hash: Hash, items: seq<Item>) {
    forall i, j :: 0 <= i < j < |items| ==> hash(items[i].name) <= hash(items[j].name)
  }

  function InsertStable(hash: Hash, items: seq<Item>, x: Item): (r: seq<Item>)
  {
    if items == [] || hash(items[|items| - 1].name) <= hash(x.name) then items + [x]
    else InsertStable(hash, items[..|items| - 1], x) + [items[|items| - 1]]
  }

  /** A stable sort by hash. */
  function SortByHash(hash: Hash, items: seq<Item>): (r: seq<Item>)
  {
    if items == [] then [] else InsertStable(hash, SortByHash(hash, items[..|items| - 1]), items[|items| - 1])
  }

  lemma {:induction false} InsertStableMembers(hash: Hash, items: seq<Item>, x: Item)
    ensures multiset(InsertStable(hash, items, x)) == multiset(items) + multiset{x}
  {
    if !(items == [] || hash(items[|items| - 1].name) <= hash(x.name)) {
      var rest, last := items[..|items| - 1], items[|items| - 1];
      InsertStableMembers(hash, rest, x);
      assert items == rest + [last];
    }
  }

  /** The highest hash of the list bounds the result. */
  lemma InsertStableBound(hash: Hash, items: seq<Item>, x: Item, h: u32, i: nat)
    requires i < |InsertStable(hash, items, x)| && hash(x.name) <= h
    requires forall k :: 0 <= k < |items| ==> hash(items[k].name) <= h
    ensures hash(InsertStable(hash, items, x)[i].name) <= h
  {
    InsertStableMembers(hash, items, x);
    var y := InsertStable(hash, items, x)[i];
    assert y in multiset(InsertStable(hash, items, x));
    if y in multiset(items) {
      var k :| 0 <= k < |items| && items[k] == y;
    }
  }

  lemma {:induction false} InsertStableOrder(hash: Hash, items: seq<Item>, x: Item)
    requires InHashOrder(hash, items)
    ensures InHashOrder(hash, InsertStable(hash, items, x))
  {
    if !(items == [] || hash(items[|items| - 1].name) <= hash(x.name)) {
      var rest, last := items[..|items| - 1], items[|items| - 1];
      InsertStableOrder(hash, rest, x);
      var r := InsertStable(hash, rest, x);
      forall i: nat | i < |r|
        ensures hash(r[i].name) <= hash(last.name)
      {
        InsertStableBound(hash, rest, x, hash(last.name), i);
      }
    }
  }

  lemma {:induction false} SortFacts(hash: Hash, items: seq<Item>)
    ensures multiset(SortByHash(hash, items)) == multiset(items) && InHashOrder(hash, SortByHash(hash, items))
    ensures |SortByHash(hash, items)| == |items|
  {
    if items != [] {
      var rest, last := items[..|items| - 1], items[|items| - 1];
      SortFacts(hash, rest);
      InsertStableMembers(hash, SortByHash(hash, rest), last);
      InsertStableOrder(hash, SortByHash(hash, rest), last);
      assert items == rest + [last];
    }
    assert |multiset(SortByHash(hash, items))| == |multiset(items)|;
  }

  lemma {:induction false} InsertStableFirst(hash: Hash, items: seq<Item>, x: Item, n: Name)
    ensures FirstNamed(InsertStable(hash, items, x), n) == FirstNamed(items + [x], n)
  {
    hide FirstNamed;
    if !(items == [] || hash(items[|items| - 1].name) <= hash(x.name)) {
      var rest, last := items[..|items| - 1], items[|items| - 1];
      InsertStableFirst(hash, rest, x, n);
      assert items == rest + [last];
      FirstConcat(InsertStable(hash, rest, x), [last], n);
      FirstConcat(rest, [x], n);
      FirstConcat(items, [x], n);
      FirstConcat(rest, [last], n);
      FirstOne(x, n);
      FirstOne(last, n);
    }
  }

  /** Sorting by hash does not change which entry a scan finds: equal names have equal hashes and keep their order. */
  lemma {:induction false} SortFirst(hash: Hash, items: seq<Item>, n: Name)
    ensures FirstNamed(SortByHash(hash, items), n) == FirstNamed(items, n)
  {
    if items != [] {
      var rest, last := items[..|items| - 1], items[|items| - 1];
      SortFirst(hash, rest, n);
      InsertStableFirst(hash, SortByHash(hash, rest), last, n);
      FirstConcat(SortByHash(hash, rest), [last], n);
      FirstConcat(rest, [last], n);
      assert items == rest + [last];
    }
  }

  // ---- the split point -------------------------------------------------------------------------------

  predicate Ascending(hs: seq<u32>) {
    forall i, j :: 0 <= i < j < |hs| ==> hs[i] <= hs[j]
  }

  predicate Boundary(hs: seq<u32>, m: int) {
    0 < m < |hs| && hs[m - 1] < hs[m]
  }

  /** The boundary at or after the middle, else the last one before it; none when all hashes are equal. */
  method SplitPoint(hs: seq<u32>) returns (r: Option<nat>)
    requires |hs| >= 2 && Ascending(hs)
    ensures r.Some? ==> Boundary(hs, r.value)
    ensures r.None? <==> hs[0] == hs[|hs| - 1]
    ensures r.Some? && r.value >= |hs| / 2 ==> forall k :: |hs| / 2 <= k < r.value ==> !Boundary(hs, k)
    ensures r.Some? && r.value < |hs| / 2 ==> forall k :: r.value < k < |hs| ==> !Boundary(hs, k)
  {
    var n := |hs|;
    var mid := n / 2;
    while mid < n && hs[mid] == hs[mid - 1]
      invariant n / 2 <= mid <= n
      invariant forall k :: n / 2 <= k < mid ==> hs[k] == hs[n / 2 - 1]
    {
      mid := mid + 1;
    }
    if mid >= n {
      mid := n / 2;
      while mid > 0 && hs[mid] == hs[mid - 1]
        invariant 0 <= mid <= n / 2
        invariant forall k :: mid <= k < n ==> hs[k] == hs[n - 1]
      {
        mid := mid - 1;
      }
    }
    if mid == 0 || mid >= n {
      return None;
    }
    return Some(mid);
  }

  /** Cutting a sorted leaf at a boundary: the scan for a name goes on in the half its hash says. */
  lemma SplitFirst(hash: Hash, items: seq<Item>, mid: nat, n: Name)
    requires InHashOrder(hash, items) && 0 < mid < |items|
    requires hash(items[mid - 1].name) < hash(items[mid].name)
    ensures FirstNamed(items, n) == FirstNamed(if hash(n) < hash(items[mid].name) then items[..mid]
            else items[mid..], n)
  {
    hide FirstNamed;
    var a, b := items[..mid], items[mid..];
    assert items == a + b;
    FirstConcat(a, b, n);
    if hash(n) < hash(items[mid].name) {
      forall i | 0 <= i < |b|
        ensures b[i].name != n
      {
        assert b[i] == items[mid + i];
      }
      NotNamed(b, n);
    } else {
      forall i | 0 <= i < |a|
        ensures a[i].name != n
      {
        assert a[i] == items[i];
      }
      NotNamed(a, n);
    }
  }

  // ---- inserting into a leaf ---------------------------------------------------------------------------

  /** The entry put somewhere among the live ones: which gap has room depends on the record lengths. */
  function PutItem(items: seq<Item>, p: nat, x: Item): (r: seq<Item>)
  {
    if p <= |items| then items[..p] + [x] + items[p..] else items + [x]
  }

  lemma PutItemFirst(items: seq<Item>, p: nat, x: Item, n: Name)
    requires FirstNamed(items, x.name) == None
    ensures FirstNamed(PutItem(items, p, x), n) == if n == x.name then Some(x) else FirstNamed(items, n)
  {
    hide FirstNamed;
    var k := if p <= |items| then p else |items|;
    var a, b := items[..k], items[k..];
    assert items == a + b && PutItem(items, p, x) == a + [x] + b;
    FirstConcat(a, b, n);
    FirstConcat(a, [x], n);
    FirstConcat(a + [x], b, n);
    FirstOne(x, n);
  }

  lemma PutItemMembers(items: seq<Item>, p: nat, x: Item)
    ensures multiset(PutItem(items, p, x)) == multiset(items) + multiset{x}
    ensures forall y :: y in PutItem(items, p, x) <==> y in items || y == x
  {
    var k := if p <= |items| then p else |items|;
    assert items == items[..k] + items[k..];
    assert PutItem(items, p, x) == items[..k] + [x] + items[k..];
  }
}
