/** Sequence and map shapes the catalogue code builds with Python built-ins:
    a list comprehension with a condition, and a dictionary of counts. */
module Collections {

  /** [x for x in s if p(x)]. */
  function Filter<T>(p: T -> bool, s: seq<T>): seq<T>
  {
    if s == [] then [] else (if p(s[0]) then [s[0]] else []) + Filter(p, s[1..])
  }

  /** a is s with some elements dropped, the rest in their original order. */
  predicate IsSubsequence<T(==)>(a: seq<T>, s: seq<T>)
    decreases |s|
  {
    if s == [] then a == []
    else IsSubsequence(a, s[1..]) || (a != [] && a[0] == s[0] && IsSubsequence(a[1..], s[1..]))
  }

  /** The comprehension keeps exactly the elements that pass the test, each
      as often as it occurs in the input. */
  lemma {:induction false} FilterMembers<T>(p: T -> bool, s: seq<T>)
    ensures forall x :: x in Filter(p, s) <==> x in s && p(x)
    ensures forall x :: multiset(Filter(p, s))[x] == if p(x) then multiset(s)[x] else 0
    ensures |Filter(p, s)| <= |s|
  {
    if s != [] {
      FilterMembers(p, s[1..]);
      assert s == [s[0]] + s[1..];
      var head := if p(s[0]) then [s[0]] else [];
      assert Filter(p, s) == head + Filter(p, s[1..]);
      assert multiset(s) == multiset([s[0]]) + multiset(s[1..]);
      assert multiset(Filter(p, s)) == multiset(head) + multiset(Filter(p, s[1..]));
    }
  }

  /** The comprehension keeps the order of its input. */
  lemma {:induction false} FilterIsSubsequence<T>(p: T -> bool, s: seq<T>)
    ensures IsSubsequence(Filter(p, s), s)
  {
    if s != [] {
      FilterIsSubsequence(p, s[1..]);
      var a := Filter(p, s);
      if p(s[0]) {
        assert a[0] == s[0] && a[1..] == Filter(p, s[1..]);
      } else {
        assert a == Filter(p, s[1..]);
      }
    }
  }

  /** Filtering a concatenation filters each part. */
  lemma {:induction false} FilterAppend<T>(p: T -> bool, a: seq<T>, b: seq<T>)
    ensures Filter(p, a + b) == Filter(p, a) + Filter(p, b)
  {
    if a != [] {
      assert (a + b)[1..] == a[1..] + b;
      FilterAppend(p, a[1..], b);
    } else {
      assert a + b == b;
    }
  }

  /** A test every element passes keeps the whole list. */
  lemma {:induction false} FilterKeepsAll<T>(p: T -> bool, s: seq<T>)
    requires forall x :: x in s ==> p(x)
    ensures Filter(p, s) == s
  {
    if s != [] {
      assert s[0] in s;
      FilterKeepsAll(p, s[1..]);
    }
  }

  /** Tests that agree on every element keep the same elements. */
  lemma {:induction false} FilterSameTest<T>(p: T -> bool, q: T -> bool, s: seq<T>)
    requires forall x :: x in s ==> p(x) == q(x)
    ensures Filter(p, s) == Filter(q, s)
  {
    if s != [] {
      assert s[0] in s;
      FilterSameTest(p, q, s[1..]);
    }
  }

  /** Filtering a prefix gives a prefix of the filtered list. */
  lemma {:induction false} FilterPrefix<T>(p: T -> bool, a: seq<T>, s: seq<T>)
    requires a <= s
    ensures Filter(p, a) <= Filter(p, s)
  {
    if a != [] {
      assert a[1..] <= s[1..];
      FilterPrefix(p, a[1..], s[1..]);
    }
  }

  /** The test `p(x) and q(x)`. */
  function Both<T>(p: T -> bool, q: T -> bool): T -> bool
  {
    x => p(x) && q(x)
  }

  /** Two comprehensions in a row keep what passes both tests. */
  lemma {:induction false} FilterTwice<T>(p: T -> bool, q: T -> bool, s: seq<T>)
    ensures Filter(q, Filter(p, s)) == Filter(Both(p, q), s)
  {
    if s != [] {
      FilterTwice(p, q, s[1..]);
      FilterAppend(q, if p(s[0]) then [s[0]] else [], Filter(p, s[1..]));
    }
  }

  // ---------------------------------------------------------- histograms

  /** The sum of the counts of a dictionary of counts. */
  ghost function SumValues<K>(m: map<K, nat>): nat
    decreases |m|
  {
    if m == map[] then 0
    else
      var k :| k in m;
      m[k] + SumValues(m - {k})
  }

  /** Any key can be taken out first. */
  lemma {:induction false} SumValuesRemove<K>(m: map<K, nat>, k: K)
    requires k in m
    ensures SumValues(m) == m[k] + SumValues(m - {k})
    decreases |m|
  {
    var j :| j in m && SumValues(m) == m[j] + SumValues(m - {j});
    if j != k {
      assert |m - {j}| < |m| && |m - {k}| < |m| by {
        assert m.Keys - {j} < m.Keys && m.Keys - {k} < m.Keys;
      }
      SumValuesRemove(m - {j}, k);
      SumValuesRemove(m - {k}, j);
      assert m - {j} - {k} == m - {k} - {j};
    }
  }

  /** d[k] = d.get(k, 0) + 1 for every element, in order. */
  function Histogram<K>(s: seq<K>): map<K, nat>
  {
    if s == [] then map[]
    else
      var h := Histogram(s[..|s| - 1]);
      var k := s[|s| - 1];
      h[k := (if k in h then h[k] else 0) + 1]
  }

  /** The keys are the values present, each with its number of occurrences. */
  lemma {:induction false} HistogramCounts<K>(s: seq<K>)
    ensures forall k :: k in Histogram(s) <==> k in s
    ensures forall k :: k in Histogram(s) ==> Histogram(s)[k] == multiset(s)[k] >= 1
  {
    if s != [] {
      var s' := s[..|s| - 1];
      HistogramCounts(s');
      assert s == s' + [s[|s| - 1]];
      assert multiset(s) == multiset(s') + multiset{s[|s| - 1]};
    }
  }

  /** The counts add up to the length of the list. */
  lemma {:induction false} HistogramSum<K>(s: seq<K>)
    ensures SumValues(Histogram(s)) == |s|
  {
    if s != [] {
      var s' := s[..|s| - 1];
      var h := Histogram(s');
      var k := s[|s| - 1];
      HistogramSum(s');
      var h' := Histogram(s);
      assert h' - {k} == h - {k};
      SumValuesRemove(h', k);
      if k in h {
        SumValuesRemove(h, k);
      } else {
        assert h - {k} == h;
      }
    }
  }
}
