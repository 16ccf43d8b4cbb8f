/** Ordering of the queue by submission timestamp.  `SortByTs` is the stable sort that
    `list.sort(key=lambda x: x[2])` performs, defined as an insertion sort; `ListOf` is the
    conversion `list(set(...))`, whose order is not determined. */
module Ordering {
  import opened Types

  predicate Sorted(s: seq<Entry>)
  {
    forall i, j :: 0 <= i < j < |s| ==> s[i].ts <= s[j].ts
  }

  /** The place where a stable sort puts an element that comes after all of `s`:
      just past the last element whose timestamp is not greater than `t`. */
  function SplitPoint(s: seq<Entry>, t: Timestamp): (k: nat)
    ensures k <= |s|
    ensures forall i :: k <= i < |s| ==> t < s[i].ts
    ensures k > 0 ==> s[k - 1].ts <= t
  {
    if s == [] then 0
    else if s[|s| - 1].ts <= t then |s|
    else SplitPoint(s[..|s| - 1], t)
  }

  function Insert(s: seq<Entry>, e: Entry): (r: seq<Entry>)
    ensures |r| == |s| + 1
    ensures multiset(r) == multiset(s) + multiset{e}
  {
    var k := SplitPoint(s, e.ts);
    assert s == s[..k] + s[k..];
    s[..k] + [e] + s[k..]
  }

  /** Stable sort by timestamp. */
  function SortByTs(s: seq<Entry>): (r: seq<Entry>)
    ensures multiset(r) == multiset(s)
    ensures |r| == |s|
  {
    if s == [] then []
    else
      assert s == s[..|s| - 1] + [s[|s| - 1]];
      Insert(SortByTs(s[..|s| - 1]), s[|s| - 1])
  }

  lemma SpliceIndex(s: seq<Entry>, e: Entry, k: nat)
    requires k <= |s|
    ensures var r := s[..k] + [e] + s[k..];
            && |r| == |s| + 1
            && (forall i :: 0 <= i < k ==> r[i] == s[i])
            && r[k] == e
            && (forall i :: k < i <= |s| ==> r[i] == s[i - 1])
  {
    var left := s[..k] + [e];
    var r := left + s[k..];
    assert |left| == k + 1;
    forall i | k < i <= |s| ensures r[i] == s[i - 1] {
      assert r[i] == s[k..][i - (k + 1)];
    }
  }

  /** Where each element of `Insert(s, e)` comes from. */
  lemma InsertIndex(s: seq<Entry>, e: Entry)
    ensures var k := SplitPoint(s, e.ts);
            && (forall i :: 0 <= i < k ==> Insert(s, e)[i] == s[i])
            && Insert(s, e)[k] == e
            && (forall i :: k < i < |s| + 1 ==> Insert(s, e)[i] == s[i - 1])
  {
    var k := SplitPoint(s, e.ts);
    SpliceIndex(s, e, k);
    assert Insert(s, e) == s[..k] + [e] + s[k..];
  }

  lemma InsertKeepsSorted(s: seq<Entry>, e: Entry)
    requires Sorted(s)
    ensures Sorted(Insert(s, e))
  {
    var k := SplitPoint(s, e.ts);
    var r := Insert(s, e);
    InsertIndex(s, e);
    forall i | 0 <= i < k ensures s[i].ts <= e.ts {
      assert s[i].ts <= s[k - 1].ts;
    }
    forall i, j | 0 <= i < j < |r| ensures r[i].ts <= r[j].ts {
      var ti := if i < k then s[i].ts else if i == k then e.ts else s[i - 1].ts;
      var tj := if j < k then s[j].ts else if j == k then e.ts else s[j - 1].ts;
      assert r[i].ts == ti && r[j].ts == tj;
    }
  }

  /** The sort returns its input ordered non-decreasingly by timestamp. */
  lemma {:induction false} SortByTsSorted(s: seq<Entry>)
    ensures Sorted(SortByTs(s))
  {
    if s != [] {
      SortByTsSorted(s[..|s| - 1]);
      InsertKeepsSorted(SortByTs(s[..|s| - 1]), s[|s| - 1]);
    }
  }

  lemma SortedInit(s: seq<Entry>)
    requires Sorted(s) && s != []
    ensures Sorted(s[..|s| - 1])
    ensures |s| > 1 ==> s[|s| - 2].ts <= s[|s| - 1].ts
  {
  }

  lemma SortByTsUnfold(s: seq<Entry>)
    requires s != []
    ensures SortByTs(s) == Insert(SortByTs(s[..|s| - 1]), s[|s| - 1])
  {
  }

  /** An element no earlier than the last one goes at the end. */
  lemma InsertAtEnd(s: seq<Entry>, e: Entry)
    requires s == [] || s[|s| - 1].ts <= e.ts
    ensures Insert(s, e) == s + [e]
  {
    assert SplitPoint(s, e.ts) == |s|;
    assert s[..|s|] == s && s[|s|..] == [];
  }

  lemma SortOfExtended(init: seq<Entry>, last: Entry)
    requires SortByTs(init) == init
    requires init == [] || init[|init| - 1].ts <= last.ts
    ensures SortByTs(init + [last]) == init + [last]
  {
    var s := init + [last];
    assert s[..|s| - 1] == init && s[|s| - 1] == last;
    SortByTsUnfold(s);
    InsertAtEnd(init, last);
  }

  /** Stability on an already ordered sequence: sorting it changes nothing. */
  lemma {:induction false} SortByTsOfSorted(s: seq<Entry>)
    requires Sorted(s)
    ensures SortByTs(s) == s
  {
    if s != [] {
      var init, last := s[..|s| - 1], s[|s| - 1];
      SortedInit(s);
      SortByTsOfSorted(init);
      assert s == init + [last];
      SortOfExtended(init, last);
    }
  }

  /** The elements of `s` submitted at instant `t`, in their order in `s`. */
  function WithTs(s: seq<Entry>, t: Timestamp): seq<Entry>
  {
    if s == [] then []
    else WithTs(s[..|s| - 1], t) + (if s[|s| - 1].ts == t then [s[|s| - 1]] else [])
  }

  lemma {:induction false} WithTsAppend(a: seq<Entry>, b: seq<Entry>, t: Timestamp)
    ensures WithTs(a + b, t) == WithTs(a, t) + WithTs(b, t)
  {
    if b == [] {
      assert a + b == a;
    } else {
      var n := |b| - 1;
      assert (a + b)[..|a + b| - 1] == a + b[..n];
      WithTsAppend(a, b[..n], t);
    }
  }

  lemma {:induction false} WithTsNone(s: seq<Entry>, t: Timestamp)
    requires forall i :: 0 <= i < |s| ==> s[i].ts != t
    ensures WithTs(s, t) == []
  {
    if s != [] {
      var n := |s| - 1;
      assert forall i :: 0 <= i < n ==> s[..n][i] == s[i];
      WithTsNone(s[..n], t);
    }
  }

  lemma WithTsSplice(s: seq<Entry>, k: nat, e: Entry, t: Timestamp)
    requires k <= |s|
    requires forall i :: k <= i < |s| ==> e.ts < s[i].ts
    ensures WithTs(s[..k] + [e] + s[k..], t) == WithTs(s, t) + (if e.ts == t then [e] else [])
  {
    var front, back := s[..k], s[k..];
    assert s == front + back;
    WithTsAppend(front + [e], back, t);
    WithTsAppend(front, [e], t);
    WithTsAppend(front, back, t);
    assert [e][..0] == [];
    if e.ts == t {
      WithTsNone(back, t);
    }
  }

  /** Inserting `e` adds it after every element that shares its timestamp. */
  lemma InsertWithTs(s: seq<Entry>, e: Entry, t: Timestamp)
    ensures WithTs(Insert(s, e), t) == WithTs(s, t) + (if e.ts == t then [e] else [])
  {
    WithTsSplice(s, SplitPoint(s, e.ts), e, t);
  }

  /** Stability: the sort keeps the relative order of the elements that share a
      timestamp. */
  lemma {:induction false} SortByTsIsStable(s: seq<Entry>, t: Timestamp)
    ensures WithTs(SortByTs(s), t) == WithTs(s, t)
  {
    if s != [] {
      var init, last := s[..|s| - 1], s[|s| - 1];
      SortByTsIsStable(init, t);
      InsertWithTs(SortByTs(init), last, t);
    }
  }

  /** Appending one element to an ordered sequence and sorting again puts the element
      just after every element whose timestamp does not exceed its own, and keeps the
      order of the others. This is `append` followed by `sort` on the current queue. */
  lemma SortAfterAppend(q: seq<Entry>, c: Entry)
    requires Sorted(q)
    ensures SortByTs(q + [c]) == Insert(q, c)
  {
    assert (q + [c])[..|q|] == q;
    SortByTsOfSorted(q);
  }

  predicate Distinct(s: seq<Entry>)
  {
    forall i, j :: 0 <= i < j < |s| ==> s[i] != s[j]
  }

  /** `list(set(...))`: the elements of a set, each exactly once, in an order that the
      model leaves open. */
  method ListOf(s: set<Entry>) returns (xs: seq<Entry>)
    ensures multiset(xs) == multiset(s)
  {
    xs := [];
    var rest := s;
    while rest != {}
      invariant rest <= s
      invariant multiset(xs) + multiset(rest) == multiset(s)
      decreases |rest|
    {
      var e :| e in rest;
      assert multiset(rest) == multiset(rest - {e}) + multiset{e};
      xs := xs + [e];
      rest := rest - {e};
    }
  }

  /** A sequence that holds the elements of a set as a multiset has no repeated element. */
  lemma {:induction false} ListingIsDistinct(xs: seq<Entry>, s: set<Entry>)
    requires multiset(xs) == multiset(s)
    ensures Distinct(xs)
    ensures forall e :: e in xs <==> e in s
  {
    forall e ensures e in xs <==> e in s {
      assert e in xs <==> e in multiset(xs);
    }
    forall i, j | 0 <= i < j < |xs| ensures xs[i] != xs[j] {
      RepeatCounts(xs, i, j);
      assert multiset(s)[xs[i]] <= 1;
    }
  }

  lemma RepeatCounts(xs: seq<Entry>, i: nat, j: nat)
    requires i < j < |xs|
    ensures xs[i] == xs[j] ==> multiset(xs)[xs[i]] >= 2
  {
    var front, back := xs[..j], xs[j..];
    assert xs == front + back;
    assert multiset(xs) == multiset(front) + multiset(back);
    assert front[i] == xs[i] && back[0] == xs[j];
    assert xs[i] in multiset(front) && xs[j] in multiset(back);
  }
}
