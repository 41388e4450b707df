/** Ordered index records: searching a node's slots and keeping them sorted. */
module Records {
  import opened Bytes

  /** One 12-byte record of a node: an extent, or an index entry, whose `ptr` is the child's block. */
  datatype Entry = Entry(first: u32, count: u16, ptr: nat)

  predicate SortedKeys(es: seq<Entry>) {
    forall i, j :: 0 <= i < j < |es| ==> es[i].first < es[j].first
  }

  // ---- searching -----------------------------------------------------------------------------------

  /** The last slot whose key is at most `l`, or slot 0. */
  function FindSlot(es: seq<Entry>, l: nat): (p: nat)
    requires es != []
    ensures p < |es|
  {
    if |es| == 1 || es[|es| - 1].first <= l then |es| - 1 else FindSlot(es[..|es| - 1], l)
  }

  lemma {:induction false} FindSlotFacts(es: seq<Entry>, l: nat)
    requires es != []
    ensures FindSlot(es, l) > 0 ==> es[FindSlot(es, l)].first <= l
    ensures forall q :: FindSlot(es, l) < q < |es| ==> es[q].first > l
  {
    if !(|es| == 1 || es[|es| - 1].first <= l) {
      FindSlotFacts(es[..|es| - 1], l);
    }
  }

  /** The two facts pin the slot down. */
  lemma FindSlotUnique(es: seq<Entry>, l: nat, p: nat)
    requires SortedKeys(es) && p < |es|
    requires p > 0 ==> es[p].first <= l
    requires p + 1 < |es| ==> es[p + 1].first > l
    ensures FindSlot(es, l) == p
  {
    FindSlotFacts(es, l);
  }

  /** The binary search of a node. */
  method BinarySearch(es: seq<Entry>, l: nat) returns (p: nat)
    requires es != [] && SortedKeys(es)
    ensures p == FindSlot(es, l)
  {
    var lo, hi := 1, |es| - 1;
    while lo <= hi
      invariant 1 <= lo <= |es| && 0 <= hi < |es| && lo <= hi + 1
      invariant lo > 1 ==> es[lo - 1].first <= l
      invariant hi + 1 < |es| ==> es[hi + 1].first > l
      decreases hi + 1 - lo
    {
      var m := lo + (hi - lo) / 2;
      if l < es[m].first {
        hi := m - 1;
      } else {
        lo := m + 1;
      }
    }
    FindSlotUnique(es, l, lo - 1);
    return lo - 1;
  }

  /** The variant for index entries of node blocks, which starts at slot 0. */
  method BinarySearchFromZero(es: seq<Entry>, l: nat) returns (p: nat)
    requires es != [] && SortedKeys(es)
    ensures p == FindSlot(es, l)
  {
    var lo, hi := 0, |es| - 1;
    while lo <= hi
      invariant 0 <= lo <= |es| && 0 <= hi < |es| && lo <= hi + 1
      invariant lo > 0 ==> es[lo - 1].first <= l
      invariant hi + 1 < |es| ==> es[hi + 1].first > l
      decreases hi + 1 - lo
    {
      var m := lo + (hi - lo) / 2;
      if l < es[m].first {
        if m == 0 {
          break;
        }
        hi := m - 1;
      } else {
        lo := m + 1;
      }
    }
    FindSlotUnique(es, l, if lo == 0 then 0 else lo - 1);
    return if lo == 0 then 0 else lo - 1;
  }

  // ---- inserting ------------------------------------------------------------------------------------

  function InsertAt(es: seq<Entry>, i: nat, x: Entry): (r: seq<Entry>)
    requires i <= |es|
    ensures |r| == |es| + 1
  {
    es[..i] + [x] + es[i..]
  }

  /** The first position whose key is larger. */
  function SortedPos(es: seq<Entry>, key: nat): (p: nat)
    ensures p <= |es|
  {
    if es == [] || es[0].first > key then 0 else 1 + SortedPos(es[1..], key)
  }

  lemma {:induction false} SortedPosFacts(es: seq<Entry>, key: nat)
    ensures forall i :: 0 <= i < SortedPos(es, key) ==> es[i].first <= key
    ensures SortedPos(es, key) < |es| ==> es[SortedPos(es, key)].first > key
  {
    if es != [] && es[0].first <= key {
      SortedPosFacts(es[1..], key);
    }
  }

  lemma SortedPosUnique(es: seq<Entry>, key: nat, p: nat)
    requires SortedKeys(es) && p <= |es|
    requires p > 0 ==> es[p - 1].first <= key
    requires p < |es| ==> es[p].first > key
    ensures SortedPos(es, key) == p
  {
    SortedPosFacts(es, key);
  }

  function SortedInsert(es: seq<Entry>, x: Entry): (r: seq<Entry>)
    ensures |r| == |es| + 1
  {
    InsertAt(es, SortedPos(es, x.first), x)
  }

  /** No record has this key yet. */
  predicate NewKey(es: seq<Entry>, key: nat) {
    forall i :: 0 <= i < |es| ==> es[i].first != key
  }

  lemma SortedInsertSorted(es: seq<Entry>, x: Entry)
    requires SortedKeys(es) && NewKey(es, x.first)
    ensures SortedKeys(SortedInsert(es, x))
  {
    hide SortedPos;
    SortedPosFacts(es, x.first);
    var p, r := SortedPos(es, x.first), SortedInsert(es, x);
    forall i | 0 <= i < |r|
      ensures r[i] == if i < p then es[i] else if i == p then x else es[i - 1]
    {
    }
    forall i, j | 0 <= i < j < |r|
      ensures r[i].first < r[j].first
    {
      if i == p {
        assert es[p].first <= es[j - 1].first;
      }
    }
  }

  /** Where a search ends once `x` is put behind slot `p`. */
  lemma FindAfterInsert(es: seq<Entry>, p: nat, x: Entry, h: nat)
    requires p < |es| && SortedKeys(InsertAt(es, p + 1, x))
    ensures var f := FindSlot(es, h);
            FindSlot(InsertAt(es, p + 1, x), h) == if f < p then f else if f == p
                then (if h < x.first then p else p + 1) else f + 1
  {
    hide FindSlot;
    var r, f := InsertAt(es, p + 1, x), FindSlot(es, h);
    assert forall i :: 0 <= i < |r| ==> r[i] == if i <= p then es[i] else if i == p + 1 then x else es[i - 1];
    FindSlotFacts(es, h);
    var g := if f < p then f else if f == p then (if h < x.first then p else p + 1) else f + 1;
    assert r[p] == es[p] && r[p + 1] == x;
    if f > p {
      assert r[f + 1] == es[f] && r[p + 1].first < r[f + 1].first;
    }
    if g + 1 < |r| && g > p {
      assert r[g + 1] == es[g];
    }
    FindSlotUnique(r, h, g);
  }
}
