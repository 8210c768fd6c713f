/**
 * The ranking rule of the reports, `Counter.most_common(n)`: the `(key, count)`
 * pairs of a table in descending order of count, pairs with equal counts kept
 * in the order their keys were first inserted (the sort is stable over the
 * insertion-ordered items), cut to the first `n`.
 */
module Ranking {
  import opened Sequences
  import opened Counters

  /** One `(key, count)` pair. */
  type Entry = (string, nat)

  /** `c.items()`, in insertion order. */
  function Items(c: Counter): (es: seq<Entry>)
    requires Valid(c)
    ensures |es| == |c.order|
    ensures forall i :: 0 <= i < |es| ==> es[i].0 == c.order[i] && es[i].1 == c.counts[c.order[i]]
  {
    seq(|c.order|, i requires 0 <= i < |c.order| => (c.order[i], c.counts[c.order[i]]))
  }

  ghost predicate SortedByCount(es: seq<Entry>) {
    forall i, j :: 0 <= i < j < |es| ==> es[i].1 >= es[j].1
  }

  /** The entries of `es` whose count is `v`, in their order in `es`. */
  function WithCount(es: seq<Entry>, v: nat): seq<Entry> {
    if es == [] then []
    else (if es[0].1 == v then [es[0]] else []) + WithCount(es[1..], v)
  }

  /** The keys that appear in a list of entries. */
  ghost function KeysOf(es: seq<Entry>): set<string> {
    set i | 0 <= i < |es| :: es[i].0
  }

  lemma {:induction false} WithCountAppend(a: seq<Entry>, b: seq<Entry>, v: nat)
    ensures WithCount(a + b, v) == WithCount(a, v) + WithCount(b, v)
  {
    if a == [] {
      assert a + b == b;
    } else {
      assert (a + b)[0] == a[0] && (a + b)[1..] == a[1..] + b;
      WithCountAppend(a[1..], b, v);
      AppendAssociates(if a[0].1 == v then [a[0]] else [], WithCount(a[1..], v), WithCount(b, v));
    }
  }

  /** No entry of `es` has count `v` when every count in it is below `v`. */
  lemma {:induction false} WithCountNone(es: seq<Entry>, v: nat)
    requires forall i :: 0 <= i < |es| ==> es[i].1 < v
    ensures WithCount(es, v) == []
  {
    if es != [] {
      WithCountNone(es[1..], v);
    }
  }

  /** Insert `e` after every entry whose count is at least `e`'s: the step of a stable descending sort. */
  function InsertByCount(sorted: seq<Entry>, e: Entry): seq<Entry> {
    if sorted == [] then [e]
    else if sorted[0].1 >= e.1 then [sorted[0]] + InsertByCount(sorted[1..], e)
    else [e] + sorted
  }

  /** `sorted(es, key=count, reverse=True)`: each entry inserted in turn, from first to last. */
  function SortByCount(es: seq<Entry>): seq<Entry> {
    if es == [] then [] else InsertByCount(SortByCount(es[..|es| - 1]), es[|es| - 1])
  }

  lemma {:induction false} InsertByCountMultiset(sorted: seq<Entry>, e: Entry)
    ensures multiset(InsertByCount(sorted, e)) == multiset(sorted) + multiset{e}
  {
    if sorted != [] && sorted[0].1 >= e.1 {
      InsertByCountMultiset(sorted[1..], e);
      assert sorted == [sorted[0]] + sorted[1..];
    }
  }

  lemma {:induction false} InsertByCountSorted(sorted: seq<Entry>, e: Entry)
    requires SortedByCount(sorted)
    ensures SortedByCount(InsertByCount(sorted, e))
  {
    if sorted != [] && sorted[0].1 >= e.1 {
      var head, rest := sorted[0], InsertByCount(sorted[1..], e);
      InsertByCountSorted(sorted[1..], e);
      InsertByCountMultiset(sorted[1..], e);
      forall i | 0 <= i < |rest| ensures rest[i].1 <= head.1 {
        assert rest[i] in multiset(sorted[1..]) + multiset{e};
        if rest[i] != e {
          assert rest[i] in sorted[1..];
        }
      }
      var r := [head] + rest;
      forall i, j | 0 <= i < j < |r| ensures r[i].1 >= r[j].1 {
        assert r[j] == rest[j - 1];
        if i > 0 {
          assert r[i] == rest[i - 1];
        }
      }
    }
  }

  /** Inserting `e` puts it after every entry of equal count, and keeps those in their order. */
  lemma {:induction false} InsertByCountStable(sorted: seq<Entry>, e: Entry, v: nat)
    requires SortedByCount(sorted)
    ensures WithCount(InsertByCount(sorted, e), v) == WithCount(sorted, v) + (if e.1 == v then [e] else [])
  {
    if sorted == [] {
    } else if sorted[0].1 >= e.1 {
      var head, rest := sorted[0], InsertByCount(sorted[1..], e);
      InsertByCountStable(sorted[1..], e, v);
      assert ([head] + rest)[1..] == rest;
      var own, tail := if head.1 == v then [head] else [], if e.1 == v then [e] else [];
      AppendAssociates(own, WithCount(sorted[1..], v), tail);
    } else {
      assert ([e] + sorted)[1..] == sorted;
      if e.1 == v {
        WithCountNone(sorted, v);
      }
    }
  }

  /** The sort orders by descending count and loses no entry. */
  lemma {:induction false} SortByCountSorted(es: seq<Entry>)
    ensures SortedByCount(SortByCount(es))
    ensures multiset(SortByCount(es)) == multiset(es)
    ensures |SortByCount(es)| == |es|
  {
    if es != [] {
      var init, last := es[..|es| - 1], es[|es| - 1];
      assert es == init + [last];
      SortByCountSorted(init);
      InsertByCountSorted(SortByCount(init), last);
      InsertByCountMultiset(SortByCount(init), last);
    }
  }

  /** The sort is stable: the entries of any one count keep their relative order. */
  lemma {:induction false} SortByCountStable(es: seq<Entry>, v: nat)
    ensures WithCount(SortByCount(es), v) == WithCount(es, v)
  {
    if es != [] {
      var init, last := es[..|es| - 1], es[|es| - 1];
      assert es == init + [last];
      SortByCountStable(init, v);
      SortByCountSorted(init);
      InsertByCountStable(SortByCount(init), last, v);
      WithCountAppend(init, [last], v);
    }
  }

  function Min(a: int, b: int): int {
    if a < b then a else b
  }

  /** `c.most_common(n)` for an integer `n`. */
  function MostCommon(c: Counter, n: int): (r: seq<Entry>)
    requires Valid(c)
    ensures |r| == if n <= 0 then 0 else Min(n, |c.order|)
    ensures SortedByCount(r)
    ensures forall i :: 0 <= i < |r| ==> r[i].0 in c.counts && r[i].1 == c.counts[r[i].0]
    ensures forall i, j :: 0 <= i < j < |r| ==> r[i].0 != r[j].0
    ensures forall k :: k in c.counts && k !in KeysOf(r) ==> forall i :: 0 <= i < |r| ==> c.counts[k] <= r[i].1
    ensures forall v :: WithCount(r, v) <= WithCount(Items(c), v)
  {
    var items := Items(c);
    var sorted := SortByCount(items);
    var r := if n <= 0 then [] else if n >= |sorted| then sorted else sorted[..n];
    RankedEntries(c, sorted, r);
    RankedSelection(c, sorted, r);
    r
  }

  /** A cut of the stably sorted items is sorted, lists items of the table, and names each key once. */
  lemma RankedEntries(c: Counter, sorted: seq<Entry>, r: seq<Entry>)
    requires Valid(c)
    requires sorted == SortByCount(Items(c))
    requires r <= sorted
    ensures |sorted| == |c.order|
    ensures SortedByCount(r)
    ensures forall i :: 0 <= i < |r| ==> r[i].0 in c.counts && r[i].1 == c.counts[r[i].0]
    ensures forall i, j :: 0 <= i < j < |r| ==> r[i].0 != r[j].0
  {
    SortByCountSorted(Items(c));
    SortedEntriesAreItems(c, sorted);
    RankedKeysDistinct(c, sorted, r);
  }

  /** A cut of the stably sorted items leaves out nothing larger and keeps ties in insertion order. */
  lemma RankedSelection(c: Counter, sorted: seq<Entry>, r: seq<Entry>)
    requires Valid(c)
    requires sorted == SortByCount(Items(c))
    requires r <= sorted
    ensures forall k :: k in c.counts && k !in KeysOf(r) ==> forall i :: 0 <= i < |r| ==> c.counts[k] <= r[i].1
    ensures forall v :: WithCount(r, v) <= WithCount(Items(c), v)
  {
    SortByCountSorted(Items(c));
    LeftOutCountsNoLarger(c, sorted, r);
    forall v ensures WithCount(r, v) <= WithCount(Items(c), v) {
      RankedTiesKeepOrder(Items(c), sorted, r, v);
    }
  }

  /** A cut of the stable sort lists the entries of one count as a prefix of their order in the input. */
  lemma RankedTiesKeepOrder(items: seq<Entry>, sorted: seq<Entry>, r: seq<Entry>, v: nat)
    requires sorted == SortByCount(items)
    requires r <= sorted
    ensures WithCount(r, v) <= WithCount(items, v)
  {
    SortByCountStable(items, v);
    WithCountAppend(r, sorted[|r|..], v);
    assert r + sorted[|r|..] == sorted;
  }

  /** Every entry of the sorted items is an item of the table. */
  lemma SortedEntriesAreItems(c: Counter, sorted: seq<Entry>)
    requires Valid(c)
    requires multiset(sorted) == multiset(Items(c))
    ensures forall i :: 0 <= i < |sorted| ==> sorted[i].0 in c.counts && sorted[i].1 == c.counts[sorted[i].0]
  {
    var items := Items(c);
    forall i | 0 <= i < |sorted| ensures sorted[i].0 in c.counts && sorted[i].1 == c.counts[sorted[i].0] {
      assert sorted[i] in multiset(items);
      var x :| 0 <= x < |items| && items[x] == sorted[i];
    }
  }

  /** The ranked entries name each key at most once. */
  lemma RankedKeysDistinct(c: Counter, sorted: seq<Entry>, r: seq<Entry>)
    requires Valid(c)
    requires multiset(sorted) == multiset(Items(c))
    requires forall i :: 0 <= i < |sorted| ==> sorted[i].0 in c.counts && sorted[i].1 == c.counts[sorted[i].0]
    requires r <= sorted
    ensures forall i, j :: 0 <= i < j < |r| ==> r[i].0 != r[j].0
  {
    ItemsDistinct(c);
    DistinctIffMultiplicityOne(Items(c));
    DistinctIffMultiplicityOne(sorted);
    forall i, j | 0 <= i < j < |r| ensures r[i].0 != r[j].0 {
      assert sorted[i] != sorted[j];
    }
  }

  /** A key the cut leaves out has a count no larger than any ranked one. */
  lemma LeftOutCountsNoLarger(c: Counter, sorted: seq<Entry>, r: seq<Entry>)
    requires Valid(c)
    requires multiset(sorted) == multiset(Items(c))
    requires SortedByCount(sorted)
    requires r <= sorted
    ensures forall k :: k in c.counts && k !in KeysOf(r) ==> forall i :: 0 <= i < |r| ==> c.counts[k] <= r[i].1
  {
    var items := Items(c);
    forall k | k in c.counts && k !in KeysOf(r) ensures forall i :: 0 <= i < |r| ==> c.counts[k] <= r[i].1 {
      var x := FirstIndex(c.order, k);
      assert items[x] == (k, c.counts[k]);
      assert items[x] in multiset(sorted);
      var y :| 0 <= y < |sorted| && sorted[y] == items[x];
      assert sorted[y].0 == k;
      assert forall i :: 0 <= i < |r| ==> r[i] == sorted[i] && r[i].0 in KeysOf(r);
    }
  }

  /** Distinct keys make distinct items. */
  lemma ItemsDistinct(c: Counter)
    requires Valid(c)
    ensures NoDuplicates(Items(c))
  {
  }

  /** A sequence has no duplicates exactly when no element occurs in it twice. */
  lemma {:induction false} DistinctIffMultiplicityOne<T>(s: seq<T>)
    ensures NoDuplicates(s) <==> forall x :: multiset(s)[x] <= 1
  {
    if s != [] {
      var h, t := s[0], s[1..];
      assert s == [h] + t;
      DistinctIffMultiplicityOne(t);
      if NoDuplicates(s) {
        assert h !in t;
        assert NoDuplicates(t);
      } else {
        var i, j :| 0 <= i < j < |s| && s[i] == s[j];
        if i == 0 {
          assert t[j - 1] == h;
          assert multiset(s)[h] >= 2;
        } else {
          assert t[i - 1] == t[j - 1];
          assert !NoDuplicates(t);
        }
      }
      if forall x :: multiset(s)[x] <= 1 {
        assert multiset(t)[h] == 0;
        assert forall x :: multiset(t)[x] <= multiset(s)[x];
      }
    }
  }

  /** Selecting the entries of one count keeps the relative order of their first occurrences. */
  lemma {:induction false} WithCountKeepsOrder(s: seq<Entry>, v: nat, x: Entry, y: Entry)
    requires x in s && y in s && x.1 == v && y.1 == v
    ensures x in WithCount(s, v) && y in WithCount(s, v)
    ensures FirstIndex(WithCount(s, v), x) < FirstIndex(WithCount(s, v), y) <==> FirstIndex(s, x) < FirstIndex(s, y)
  {
    var h, t := s[0], s[1..];
    if h == x || h == y {
      WithCountKeepsOrderAtHead(s, v, x, y);
    } else {
      assert x in t && y in t;
      WithCountKeepsOrder(t, v, x, y);
      WithCountKeepsOrderPastHead(s, v, x, y);
    }
  }

  lemma WithCountKeepsOrderAtHead(s: seq<Entry>, v: nat, x: Entry, y: Entry)
    requires x in s && y in s && x.1 == v && y.1 == v
    requires s[0] == x || s[0] == y
    ensures x in WithCount(s, v) && y in WithCount(s, v)
    ensures FirstIndex(WithCount(s, v), x) < FirstIndex(WithCount(s, v), y) <==> FirstIndex(s, x) < FirstIndex(s, y)
  {
    var h, t := s[0], s[1..];
    assert WithCount(s, v) == [h] + WithCount(t, v);
    if h != x {
      assert x in t;
      WithCountMember(t, v, x);
    }
    if h != y {
      assert y in t;
      WithCountMember(t, v, y);
    }
  }

  lemma WithCountKeepsOrderPastHead(s: seq<Entry>, v: nat, x: Entry, y: Entry)
    requires s != [] && s[0] != x && s[0] != y
    requires x in s[1..] && y in s[1..] && x.1 == v && y.1 == v
    requires x in WithCount(s[1..], v) && y in WithCount(s[1..], v)
    requires FirstIndex(WithCount(s[1..], v), x) < FirstIndex(WithCount(s[1..], v), y) <==> FirstIndex(s[1..], x) < FirstIndex(s[1..], y)
    ensures x in WithCount(s, v) && y in WithCount(s, v)
    ensures FirstIndex(WithCount(s, v), x) < FirstIndex(WithCount(s, v), y) <==> FirstIndex(s, x) < FirstIndex(s, y)
  {
    var h, t := s[0], s[1..];
    var w, wt := WithCount(s, v), WithCount(t, v);
    assert FirstIndex(s, x) == 1 + FirstIndex(t, x) && FirstIndex(s, y) == 1 + FirstIndex(t, y);
    if h.1 == v {
      assert w == [h] + wt;
      assert FirstIndex(w, x) == 1 + FirstIndex(wt, x) && FirstIndex(w, y) == 1 + FirstIndex(wt, y);
    } else {
      assert w == wt;
    }
  }

  lemma {:induction false} WithCountMember(s: seq<Entry>, v: nat, x: Entry)
    requires x in s && x.1 == v
    ensures x in WithCount(s, v)
  {
    if s[0] != x {
      WithCountMember(s[1..], v, x);
    }
  }

  /** An element of a prefix is first found at the same place in the whole sequence. */
  lemma {:induction false} FirstIndexInPrefix<T>(a: seq<T>, b: seq<T>, x: T)
    requires a <= b && x in a
    ensures x in b && FirstIndex(b, x) == FirstIndex(a, x)
  {
    assert b[..|a|] == a;
    if a[0] != x {
      FirstIndexInPrefix(a[1..], b[1..], x);
    }
  }

  /** In a sequence without duplicates an element is first found where it is. */
  lemma FirstIndexOfDistinct<T>(s: seq<T>, i: nat)
    requires NoDuplicates(s) && i < |s|
    ensures FirstIndex(s, s[i]) == i
  {
  }

  /**
   * The positional form of the tie rule: of two ranked entries with the same count,
   * the one listed first is the one whose key was inserted first.
   */
  lemma MostCommonTiesInInsertionOrder(c: Counter, n: int, i: nat, j: nat)
    requires Valid(c)
    requires i < j < |MostCommon(c, n)|
    requires MostCommon(c, n)[i].1 == MostCommon(c, n)[j].1
    ensures MostCommon(c, n)[i].0 in c.order && MostCommon(c, n)[j].0 in c.order
    ensures FirstIndex(c.order, MostCommon(c, n)[i].0) < FirstIndex(c.order, MostCommon(c, n)[j].0)
  {
    var r, items := MostCommon(c, n), Items(c);
    var x, y, v := r[i], r[j], r[i].1;
    assert x != y;
    DistinctIffMultiplicityOne(r);
    assert NoDuplicates(r);
    FirstIndexOfDistinct(r, i);
    FirstIndexOfDistinct(r, j);
    WithCountKeepsOrder(r, v, x, y);
    FirstIndexInPrefix(WithCount(r, v), WithCount(items, v), x);
    FirstIndexInPrefix(WithCount(r, v), WithCount(items, v), y);
    var p, q := FirstIndex(c.order, x.0), FirstIndex(c.order, y.0);
    assert items[p] == x && items[q] == y;
    ItemsDistinct(c);
    FirstIndexOfDistinct(items, p);
    FirstIndexOfDistinct(items, q);
    WithCountKeepsOrder(items, v, x, y);
  }
}
