/**
 * A frequency table with string keys, as `collections.Counter` keeps it: a
 * dictionary from key to count that remembers the order in which keys were
 * first inserted. `c[k] += 1` is `Add`; building a table from a list,
 * `Counter(xs)`, is `FromSeq`.
 */
module Counters {

  datatype Counter = Counter(order: seq<string>, counts: map<string, nat>)

  predicate NoDuplicates<T(==)>(s: seq<T>) {
    forall i, j :: 0 <= i < j < |s| ==> s[i] != s[j]
  }

  /** Every key is listed once in insertion order and has a positive count. */
  ghost predicate Valid(c: Counter) {
    && NoDuplicates(c.order)
    && (forall k :: k in c.counts <==> k in c.order)
    && (forall k :: k in c.counts ==> c.counts[k] >= 1)
  }

  /** `Counter()`. */
  const Empty: Counter := Counter([], map[])

  /** `c[k]`: a key never inserted counts 0. */
  function Count(c: Counter, k: string): nat {
    if k in c.counts then c.counts[k] else 0
  }

  /** `c[k] += 1`: a new key goes to the end of the insertion order. */
  function Add(c: Counter, k: string): (r: Counter)
    ensures Count(r, k) == Count(c, k) + 1
    ensures forall j :: j != k ==> Count(r, j) == Count(c, j)
    ensures r.order == if k in c.counts then c.order else c.order + [k]
  {
    if k in c.counts then Counter(c.order, c.counts[k := c.counts[k] + 1])
    else Counter(c.order + [k], c.counts[k := 1])
  }

  /** `c[k] += 1` keeps a table well formed. */
  lemma AddValid(c: Counter, k: string)
    requires Valid(c)
    ensures Valid(Add(c, k))
  {
    var r := Add(c, k);
    if k !in c.counts {
      forall i, j | 0 <= i < j < |r.order| ensures r.order[i] != r.order[j] {
        if j == |c.order| {
          assert r.order[i] == c.order[i];
        }
      }
    }
  }

  /** `Counter(s)`: every element of `s` added once, from first to last. */
  function FromSeq(s: seq<string>): (c: Counter)
    ensures forall k :: Count(c, k) == multiset(s)[k]
  {
    if s == [] then Empty
    else
      var init, last := s[..|s| - 1], s[|s| - 1];
      assert s == init + [last];
      Add(FromSeq(init), last)
  }

  /** `Counter(s)` is well formed. */
  lemma {:induction false} FromSeqValid(s: seq<string>)
    ensures Valid(FromSeq(s))
  {
    if s != [] {
      FromSeqValid(s[..|s| - 1]);
      AddValid(FromSeq(s[..|s| - 1]), s[|s| - 1]);
    }
  }

  /** Counting one more element after `s` is one more `c[x] += 1` on the table of `s`. */
  lemma FromSeqSnoc(s: seq<string>, x: string)
    ensures FromSeq(s + [x]) == Add(FromSeq(s), x)
  {
    assert (s + [x])[..|s|] == s;
  }

  /** The sum of the counts of `keys`. */
  function SumCounts(keys: seq<string>, counts: map<string, nat>): nat {
    if keys == [] then 0
    else (if keys[0] in counts then counts[keys[0]] else 0) + SumCounts(keys[1..], counts)
  }

  /** `sum(c.values())`. */
  function Total(c: Counter): nat {
    SumCounts(c.order, c.counts)
  }

  lemma {:induction false} SumCountsAppend(a: seq<string>, b: seq<string>, counts: map<string, nat>)
    ensures SumCounts(a + b, counts) == SumCounts(a, counts) + SumCounts(b, counts)
  {
    if a == [] {
      assert a + b == b;
    } else {
      assert (a + b)[0] == a[0] && (a + b)[1..] == a[1..] + b;
      SumCountsAppend(a[1..], b, counts);
    }
  }

  /** The sum only looks at the counts of the keys it is given. */
  lemma {:induction false} SumCountsFrame(keys: seq<string>, m1: map<string, nat>, m2: map<string, nat>)
    requires forall k :: k in keys ==> (k in m1 <==> k in m2) && (k in m1 ==> m1[k] == m2[k])
    ensures SumCounts(keys, m1) == SumCounts(keys, m2)
  {
    if keys != [] {
      SumCountsFrame(keys[1..], m1, m2);
    }
  }

  /** Raising the count of a key listed exactly once raises the sum by one. */
  lemma {:induction false} SumCountsBump(keys: seq<string>, counts: map<string, nat>, k: string)
    requires NoDuplicates(keys) && k in keys && k in counts
    ensures SumCounts(keys, counts[k := counts[k] + 1]) == SumCounts(keys, counts) + 1
  {
    var bumped := counts[k := counts[k] + 1];
    if keys[0] == k {
      assert k !in keys[1..];
      SumCountsFrame(keys[1..], bumped, counts);
    } else {
      SumCountsBump(keys[1..], counts, k);
    }
  }

  /** Every `c[k] += 1` adds one to the total. */
  lemma TotalAdd(c: Counter, k: string)
    requires Valid(c)
    ensures Total(Add(c, k)) == Total(c) + 1
  {
    if k in c.counts {
      SumCountsBump(c.order, c.counts, k);
    } else {
      var counts := c.counts[k := 1];
      SumCountsAppend(c.order, [k], counts);
      SumCountsFrame(c.order, counts, c.counts);
    }
  }

  /** The counts of `Counter(s)` add up to the length of `s`. */
  lemma {:induction false} TotalFromSeq(s: seq<string>)
    ensures Total(FromSeq(s)) == |s|
  {
    if s != [] {
      TotalFromSeq(s[..|s| - 1]);
      FromSeqValid(s[..|s| - 1]);
      TotalAdd(FromSeq(s[..|s| - 1]), s[|s| - 1]);
    }
  }

  /** The position of the first occurrence of `x` in `s`. */
  function FirstIndex<T(==)>(s: seq<T>, x: T): (i: nat)
    requires x in s
    ensures i < |s| && s[i] == x
    ensures forall j :: 0 <= j < i ==> s[j] != x
  {
    if s[0] == x then 0 else 1 + FirstIndex(s[1..], x)
  }

  lemma {:induction false} FirstIndexAppend<T>(s: seq<T>, y: T, x: T)
    requires x in s
    ensures FirstIndex(s + [y], x) == FirstIndex(s, x)
  {
    if s[0] != x {
      assert (s + [y])[1..] == s[1..] + [y];
      FirstIndexAppend(s[1..], y, x);
    }
  }

  /** The keys of `Counter(s)` are the elements of `s`. */
  lemma FromSeqKeys(s: seq<string>)
    ensures forall k :: k in FromSeq(s).order <==> k in s
  {
    var c := FromSeq(s);
    FromSeqValid(s);
    forall k ensures k in c.order <==> k in s {
      assert Count(c, k) == multiset(s)[k];
    }
  }

  /** A key ordered by first occurrence in `s`. */
  ghost predicate OrderedByFirstOccurrence(order: seq<string>, s: seq<string>)
    requires forall k :: k in order ==> k in s
  {
    forall i, j :: 0 <= i < j < |order| ==> FirstIndex(s, order[i]) < FirstIndex(s, order[j])
  }

  /**
   * The insertion order of `Counter(s)` lists the distinct elements of `s`,
   * each once, ordered by their first occurrence in `s`.
   */
  lemma {:induction false} FromSeqOrder(s: seq<string>)
    ensures forall k :: k in FromSeq(s).order <==> k in s
    ensures NoDuplicates(FromSeq(s).order)
    ensures OrderedByFirstOccurrence(FromSeq(s).order, s)
  {
    FromSeqKeys(s);
    FromSeqValid(s);
    if s != [] {
      var init, last := s[..|s| - 1], s[|s| - 1];
      assert s == init + [last];
      FromSeqOrder(init);
      FromSeqOrderStep(init, last);
    }
  }

  lemma FromSeqOrderStep(init: seq<string>, last: string)
    requires forall k :: k in FromSeq(init).order <==> k in init
    requires OrderedByFirstOccurrence(FromSeq(init).order, init)
    ensures forall k :: k in FromSeq(init + [last]).order ==> k in init + [last]
    ensures OrderedByFirstOccurrence(FromSeq(init + [last]).order, init + [last])
  {
    var s := init + [last];
    assert s[..|s| - 1] == init && s[|s| - 1] == last;
    var p := FromSeq(init);
    assert FromSeq(s) == Add(p, last);
    FromSeqKeys(s);
    FromSeqValid(init);
    if last !in p.counts {
      assert last !in init;
      OrderedAppendNew(p.order, init, last);
    } else {
      OrderedAppendOld(p.order, init, last);
    }
  }

  /** Appending to `s` keeps the first occurrences of the elements already there. */
  lemma OrderedAppendOld(order: seq<string>, init: seq<string>, last: string)
    requires forall k :: k in order ==> k in init
    requires OrderedByFirstOccurrence(order, init)
    ensures forall k :: k in order ==> k in init + [last]
    ensures OrderedByFirstOccurrence(order, init + [last])
  {
    forall k | k in order ensures FirstIndex(init + [last], k) == FirstIndex(init, k) {
      FirstIndexAppend(init, last, k);
    }
  }

  /** An element new to `s`, appended to `s`, comes after every earlier first occurrence. */
  lemma OrderedAppendNew(order: seq<string>, init: seq<string>, last: string)
    requires forall k :: k in order ==> k in init
    requires last !in init
    requires OrderedByFirstOccurrence(order, init)
    ensures forall k :: k in order + [last] ==> k in init + [last]
    ensures OrderedByFirstOccurrence(order + [last], init + [last])
  {
    var s, o := init + [last], order + [last];
    OrderedAppendOld(order, init, last);
    assert FirstIndex(s, last) == |init|;
    forall i, j | 0 <= i < j < |o| ensures FirstIndex(s, o[i]) < FirstIndex(s, o[j]) {
      assert o[i] == order[i];
      if j < |order| {
        assert o[j] == order[j];
      }
    }
  }
}
