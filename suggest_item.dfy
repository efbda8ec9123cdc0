/**
 * A spelling suggestion: a dictionary term, its edit distance from the
 * input and its frequency count, with the order suggestion lists are
 * sorted by (distance ascending, then count descending, then term).
 */
module SuggestItems {
  import Helpers

  datatype SuggestItem = SuggestItem(term: string, distance: int, count: int)

  /**
   * std::string::compare, reduced to its sign: the lexicographic order on
   * character codes, a proper prefix before the longer string.
   */
  function TermCompare(a: string, b: string): (r: int)
    ensures r == 0 || r == 1 || r == -1
    ensures r == 0 <==> a == b
  {
    if a == [] then (if b == [] then 0 else -1)
    else if b == [] then 1
    else if a[0] < b[0] then -1
    else if a[0] > b[0] then 1
    else
      assert a == [a[0]] + a[1..] && b == [b[0]] + b[1..];
      TermCompare(a[1..], b[1..])
  }

  /** Swapping the operands of TermCompare negates it. */
  lemma {:induction false} TermCompareAntisymmetric(a: string, b: string)
    ensures TermCompare(a, b) == -TermCompare(b, a)
  {
    if a != [] && b != [] && a[0] == b[0] {
      TermCompareAntisymmetric(a[1..], b[1..]);
    }
  }

  /** TermCompare is a transitive order. */
  lemma {:induction false} TermCompareTransitive(a: string, b: string, c: string)
    requires TermCompare(a, b) < 0 && TermCompare(b, c) < 0
    ensures TermCompare(a, c) < 0
  {
    if a != [] && b != [] && c != [] && a[0] == b[0] && b[0] == c[0] {
      TermCompareTransitive(a[1..], b[1..], c[1..]);
    }
  }

  /** SuggestItem::Equals: all three fields agree. */
  predicate Equals(x: SuggestItem, y: SuggestItem): (r: bool)
    ensures r <==> x == y
  {
    x.term == y.term && x.distance == y.distance && x.count == y.count
  }

  /**
   * SuggestItem::CompareTo: negative when x goes before y, zero exactly
   * when the items are equal.
   */
  function CompareTo(x: SuggestItem, y: SuggestItem): (r: int)
    ensures r == 0 || r == 1 || r == -1
    ensures r == 0 <==> Equals(x, y)
  {
    var disCom := Helpers.CompareTo(x.distance, y.distance);
    if disCom != 0 then disCom
    else
      var cntCom := Helpers.CompareTo(y.count, x.count);
      if cntCom != 0 then cntCom
      else TermCompare(x.term, y.term)
  }

  /** The order is decided by distance first, then by count, highest first, then by term. */
  lemma CompareToKeys(x: SuggestItem, y: SuggestItem)
    ensures x.distance < y.distance ==> CompareTo(x, y) < 0
    ensures x.distance == y.distance && x.count > y.count ==> CompareTo(x, y) < 0
    ensures x.distance == y.distance && x.count == y.count ==> CompareTo(x, y) == TermCompare(x.term, y.term)
  {
  }

  /** Swapping the operands of CompareTo negates it. */
  lemma CompareToAntisymmetric(x: SuggestItem, y: SuggestItem)
    ensures CompareTo(x, y) == -CompareTo(y, x)
  {
    TermCompareAntisymmetric(x.term, y.term);
  }

  /** "Goes before or is equal" is transitive. */
  lemma CompareToTransitive(x: SuggestItem, y: SuggestItem, z: SuggestItem)
    requires CompareTo(x, y) <= 0 && CompareTo(y, z) <= 0
    ensures CompareTo(x, z) <= 0
  {
    if x != y && y != z && x.distance == y.distance == z.distance && x.count == y.count == z.count {
      TermCompareTransitive(x.term, y.term, z.term);
    }
  }

  /** The list is in SuggestItem order: no item goes after a later one. */
  ghost predicate Sorted(s: seq<SuggestItem>) {
    forall i, j :: 0 <= i < j < |s| ==> CompareTo(s[i], s[j]) <= 0
  }

  /** y goes before or equals every item of s. */
  ghost predicate Leads(y: SuggestItem, s: seq<SuggestItem>) {
    forall k :: 0 <= k < |s| ==> CompareTo(y, s[k]) <= 0
  }

  /** A sorted list stays sorted under a new head that leads it. */
  lemma ConsSorted(y: SuggestItem, t: seq<SuggestItem>)
    requires Sorted(t) && Leads(y, t)
    ensures Sorted([y] + t)
  {
  }

  /** The head of a sorted list leads its tail. */
  lemma HeadLeads(s: seq<SuggestItem>)
    requires Sorted(s) && s != []
    ensures Leads(s[0], s[1..]) && Sorted(s[1..])
  {
  }

  /** An item before the head of a sorted list leads the whole list. */
  lemma LeadsSorted(x: SuggestItem, s: seq<SuggestItem>)
    requires Sorted(s) && s != [] && CompareTo(x, s[0]) <= 0
    ensures Leads(x, s)
  {
    forall k | 0 <= k < |s| ensures CompareTo(x, s[k]) <= 0 {
      CompareToTransitive(x, s[0], s[k]);
    }
  }

  /** Leading is kept by a list with the same items as t plus one that is led. */
  lemma LeadsPermutation(y: SuggestItem, x: SuggestItem, t: seq<SuggestItem>, r: seq<SuggestItem>)
    requires Leads(y, t) && CompareTo(y, x) <= 0
    requires multiset(r) == multiset(t) + multiset{x}
    ensures Leads(y, r)
  {
    forall k | 0 <= k < |r| ensures CompareTo(y, r[k]) <= 0 {
      assert r[k] in multiset(r);
      if r[k] != x {
        assert r[k] in multiset(t);
        var m :| 0 <= m < |t| && t[m] == r[k];
      }
    }
  }

  /** x placed before the first item of s it goes before. */
  function Insert(x: SuggestItem, s: seq<SuggestItem>): (r: seq<SuggestItem>)
    requires Sorted(s)
    ensures Sorted(r) && multiset(r) == multiset(s) + multiset{x}
  {
    if s == [] then [x]
    else if CompareTo(x, s[0]) <= 0 then
      LeadsSorted(x, s);
      ConsSorted(x, s);
      [x] + s
    else
      HeadLeads(s);
      var t := Insert(x, s[1..]);
      CompareToAntisymmetric(x, s[0]);
      LeadsPermutation(s[0], x, s[1..], t);
      ConsSorted(s[0], t);
      assert s == [s[0]] + s[1..];
      [s[0]] + t
  }

  /** The suggestion list sorted with std::sort by CompareTo (insertion sort here). */
  function SortItems(s: seq<SuggestItem>): (r: seq<SuggestItem>)
    ensures Sorted(r) && multiset(r) == multiset(s)
  {
    if s == [] then []
    else
      assert s == [s[0]] + s[1..];
      Insert(s[0], SortItems(s[1..]))
  }

  /** Sorting keeps the items and their number. */
  lemma SortItemsMembers(s: seq<SuggestItem>)
    ensures |SortItems(s)| == |s|
    ensures forall x :: x in SortItems(s) <==> x in s
  {
    var r := SortItems(s);
    assert |r| == |multiset(r)| == |multiset(s)| == |s|;
    forall x
      ensures x in r <==> x in s
    {
      assert x in r <==> x in multiset(r);
      assert x in s <==> x in multiset(s);
    }
  }
}
