/**
 * Array operations the portal uses on its lists: `Array.prototype.filter`,
 * `[...new Set(xs)]` (first-appearance de-duplication) and a numeric
 * descending sort, with the facts the other modules need about them.
 */
module Seqs {

  /** `a` can be obtained from `b` by deleting elements: an order-preserving subsequence. */
  ghost predicate Subseq<T>(a: seq<T>, b: seq<T>)
    decreases |b|
  {
    if |a| == 0 then true
    else if |b| == 0 then false
    else (a[0] == b[0] && Subseq(a[1..], b[1..])) || Subseq(a, b[1..])
  }

  /** Every list is a subsequence of itself. */
  lemma {:induction false} SubseqRefl<T>(s: seq<T>)
    ensures Subseq(s, s)
  {
    if |s| > 0 {
      SubseqRefl(s[1..]);
    }
  }

  /** No element occurs twice. */
  predicate Distinct<T(==)>(s: seq<T>) {
    forall i, j :: 0 <= i < j < |s| ==> s[i] != s[j]
  }

  /** `s.filter(p)`: the elements of `s` that satisfy `p`, in their original order. */
  function Filter<T>(s: seq<T>, p: T -> bool): (r: seq<T>)
    ensures |r| <= |s|
    ensures forall x :: x in r ==> x in s && p(x)
    ensures forall i :: 0 <= i < |s| && p(s[i]) ==> s[i] in r
    ensures forall i :: 0 <= i < |r| ==> p(r[i])
    ensures Subseq(r, s)
    ensures multiset(r) <= multiset(s)
    ensures forall i :: 0 <= i < |s| ==> multiset(r)[s[i]] == if p(s[i]) then multiset(s)[s[i]] else 0
  {
    if |s| == 0 then []
    else
      assert s == [s[0]] + s[1..];
      if p(s[0]) then [s[0]] + Filter(s[1..], p)
      else Filter(s[1..], p)
  }

  /** The conjunction of two element predicates. */
  function Both<T>(p: T -> bool, q: T -> bool): T -> bool {
    x => p(x) && q(x)
  }

  /** `p` when `active`, otherwise the predicate every element passes. */
  function Guard<T>(active: bool, p: T -> bool): T -> bool {
    x => !active || p(x)
  }

  /** `if (active) s = s.filter(p)`: the conditional filtering step of the catalog pages. */
  function FilterWhen<T>(s: seq<T>, active: bool, p: T -> bool): seq<T> {
    if active then Filter(s, p) else s
  }

  /** A conditional filter is an ordinary filter with a guarded predicate. */
  lemma FilterWhenIsFilter<T>(s: seq<T>, active: bool, p: T -> bool)
    ensures FilterWhen(s, active, p) == Filter(s, Guard(active, p))
  {
    if active {
      FilterAgrees(s, p, Guard(active, p));
    } else {
      FilterKeepsAll(s, Guard(active, p));
    }
  }

  /** A conditional filter after a filter is one filter with the conjoined predicate. */
  lemma FilterThenWhen<T>(s: seq<T>, q: T -> bool, active: bool, p: T -> bool)
    ensures FilterWhen(Filter(s, q), active, p) == Filter(s, Both(q, Guard(active, p)))
  {
    FilterWhenIsFilter(Filter(s, q), active, p);
    FilterFuse(s, q, Guard(active, p));
  }

  /** Five conditional filters in sequence are one filter with the five guarded predicates conjoined. */
  lemma FiveFiltersFuse<T>(s: seq<T>, a1: bool, p1: T -> bool, a2: bool, p2: T -> bool, a3: bool, p3: T -> bool,
                           a4: bool, p4: T -> bool, a5: bool, p5: T -> bool)
    ensures FilterWhen(FilterWhen(FilterWhen(FilterWhen(FilterWhen(s, a1, p1), a2, p2), a3, p3), a4, p4), a5, p5)
      == Filter(s, Both(Both(Both(Both(Guard(a1, p1), Guard(a2, p2)), Guard(a3, p3)), Guard(a4, p4)), Guard(a5, p5)))
  {
    var g1, g2, g3, g4 := Guard(a1, p1), Guard(a2, p2), Guard(a3, p3), Guard(a4, p4);
    FilterWhenIsFilter(s, a1, p1);
    FilterThenWhen(s, g1, a2, p2);
    FilterThenWhen(s, Both(g1, g2), a3, p3);
    FilterThenWhen(s, Both(Both(g1, g2), g3), a4, p4);
    FilterThenWhen(s, Both(Both(Both(g1, g2), g3), g4), a5, p5);
  }

  /** A filter that every element passes returns its input unchanged. */
  lemma {:induction false} FilterKeepsAll<T>(s: seq<T>, p: T -> bool)
    requires forall i :: 0 <= i < |s| ==> p(s[i])
    ensures Filter(s, p) == s
  {
    if |s| > 0 {
      FilterKeepsAll(s[1..], p);
    }
  }

  /** Filters with predicates that agree on the elements of `s` give the same result. */
  lemma {:induction false} FilterAgrees<T>(s: seq<T>, p: T -> bool, q: T -> bool)
    requires forall i :: 0 <= i < |s| ==> p(s[i]) == q(s[i])
    ensures Filter(s, p) == Filter(s, q)
  {
    if |s| > 0 {
      FilterAgrees(s[1..], p, q);
    }
  }

  /** Two filters applied in sequence are one filter with the conjoined predicate. */
  lemma {:induction false} FilterFuse<T>(s: seq<T>, p: T -> bool, q: T -> bool)
    ensures Filter(Filter(s, p), q) == Filter(s, Both(p, q))
  {
    if |s| > 0 {
      FilterFuse(s[1..], p, q);
      if p(s[0]) {
        assert Filter(s, p) == [s[0]] + Filter(s[1..], p);
        assert Filter(s, p)[1..] == Filter(s[1..], p);
      }
    }
  }

  /** Filtering splits a list: the kept part and the rejected part add up to the whole. */
  lemma {:induction false} FilterPartition<T>(s: seq<T>, p: T -> bool)
    ensures |Filter(s, p)| + |Filter(s, x => !p(x))| == |s|
  {
    if |s| > 0 {
      FilterPartition(s[1..], p);
    }
  }

  /** Filtering keeps a duplicate-free list duplicate-free. */
  lemma {:induction false} FilterDistinct<T>(s: seq<T>, p: T -> bool)
    requires Distinct(s)
    ensures Distinct(Filter(s, p))
  {
    if |s| > 0 {
      assert Distinct(s[1..]);
      FilterDistinct(s[1..], p);
      assert s[0] !in s[1..];
    }
  }

  /**
   * The elements of `s` not in `seen`, each once, in order of first appearance:
   * `[...new Set(s)]` when `seen` is empty.
   */
  function DedupFrom<T(==)>(s: seq<T>, seen: set<T>): (r: seq<T>)
    ensures Distinct(r)
    ensures forall x :: x in r ==> x in s && x !in seen
    ensures forall i :: 0 <= i < |s| && s[i] !in seen ==> s[i] in r
  {
    if |s| == 0 then []
    else if s[0] in seen then DedupFrom(s[1..], seen)
    else [s[0]] + DedupFrom(s[1..], seen + {s[0]})
  }

  /** `[...new Set(s)]`. */
  function Dedup<T(==)>(s: seq<T>): seq<T> {
    DedupFrom(s, {})
  }

  /** One instance of first-appearance order: see `DedupFirstAppearance`. */
  lemma {:induction false} DedupFromOrder<T>(s: seq<T>, seen: set<T>, i: nat, j: nat, k: nat)
    requires i < j < |DedupFrom(s, seen)| && k < |s| && s[k] == DedupFrom(s, seen)[j]
    ensures DedupFrom(s, seen)[i] in s[..k]
  {
    var r := DedupFrom(s, seen);
    if s[0] in seen {
      assert r[j] !in seen;
      assert k > 0;
      DedupFromOrder(s[1..], seen, i, j, k - 1);
      assert s[1..][..k - 1] == s[1..k];
    } else {
      var rest := DedupFrom(s[1..], seen + {s[0]});
      assert r[j] == rest[j - 1];
      assert r[j] != s[0];
      assert k > 0;
      if i > 0 {
        DedupFromOrder(s[1..], seen + {s[0]}, i - 1, j - 1, k - 1);
        assert s[1..][..k - 1] == s[1..k];
      }
    }
  }

  /**
   * De-duplication lists elements in order of first appearance: whenever `x`
   * comes before `y` in the result, `x` occurs in `s` before every occurrence of `y`.
   */
  lemma DedupFirstAppearance<T>(s: seq<T>)
    ensures var r := Dedup(s);
      forall i, j, k :: 0 <= i < j < |r| && 0 <= k < |s| && s[k] == r[j] ==> r[i] in s[..k]
  {
    var r := Dedup(s);
    forall i, j, k | 0 <= i < j < |r| && 0 <= k < |s| && s[k] == r[j]
      ensures r[i] in s[..k]
    {
      DedupFromOrder(s, {}, i, j, k);
    }
  }

  /** Every element is at least as large as the ones after it. */
  predicate Descending(s: seq<int>) {
    forall i, j :: 0 <= i < j < |s| ==> s[i] >= s[j]
  }

  /** Every element is strictly larger than the ones after it. */
  predicate StrictlyDescending(s: seq<int>) {
    forall i, j :: 0 <= i < j < |s| ==> s[i] > s[j]
  }

  /** `x` inserted into `s` before the first element not larger than it. */
  function InsertDescending(x: int, s: seq<int>): (r: seq<int>)
    ensures multiset(r) == multiset(s) + multiset{x}
    ensures |r| == |s| + 1
  {
    if |s| == 0 || x >= s[0] then [x] + s
    else
      assert s == [s[0]] + s[1..];
      [s[0]] + InsertDescending(x, s[1..])
  }

  /** Insertion keeps a descending list descending. */
  lemma {:induction false} InsertKeepsDescending(x: int, s: seq<int>)
    requires Descending(s)
    ensures Descending(InsertDescending(x, s))
  {
    if |s| > 0 && x < s[0] {
      var tail := s[1..];
      InsertKeepsDescending(x, tail);
      var rest := InsertDescending(x, tail);
      forall i | 0 <= i < |rest|
        ensures s[0] >= rest[i]
      {
        assert rest[i] in multiset(rest);
        if rest[i] != x {
          assert rest[i] in multiset(tail);
          assert rest[i] in tail;
        }
      }
    }
  }

  /** `s.sort((a, b) => b - a)`: the same elements, largest first. */
  function SortDescending(s: seq<int>): (r: seq<int>)
    ensures Descending(r)
    ensures multiset(r) == multiset(s)
  {
    if |s| == 0 then []
    else
      assert s == [s[0]] + s[1..];
      var sorted := SortDescending(s[1..]);
      InsertKeepsDescending(s[0], sorted);
      InsertDescending(s[0], sorted)
  }

  /** A descending list without repeats is strictly descending. */
  lemma DescendingDistinctIsStrict(s: seq<int>)
    requires Descending(s) && Distinct(s)
    ensures StrictlyDescending(s)
  {
  }

  /** Sorting keeps a list free of repeats: multiplicities do not change. */
  lemma SortKeepsDistinct(s: seq<int>)
    requires Distinct(s)
    ensures Distinct(SortDescending(s))
  {
    var r := SortDescending(s);
    forall i, j | 0 <= i < j < |r|
      ensures r[i] != r[j]
    {
      if r[i] == r[j] {
        var x := r[i];
        MultisetAtLeastTwo(r, i, j);
        DistinctMultiplicity(s, x);
        assert false;
      }
    }
  }

  /** Two positions holding `x` give `x` multiplicity at least two. */
  lemma {:induction false} MultisetAtLeastTwo<T>(s: seq<T>, i: int, j: int)
    requires 0 <= i < j < |s| && s[i] == s[j]
    ensures multiset(s)[s[i]] >= 2
  {
    var x := s[i];
    assert s == s[..i] + [x] + s[i + 1..j] + [x] + s[j + 1..];
    assert multiset(s) == multiset(s[..i]) + multiset{x} + multiset(s[i + 1..j]) + multiset{x} + multiset(s[j + 1..]);
  }

  /** In a duplicate-free list every element has multiplicity at most one. */
  lemma {:induction false} DistinctMultiplicity<T>(s: seq<T>, x: T)
    requires Distinct(s)
    ensures multiset(s)[x] <= 1
  {
    if |s| > 0 {
      assert Distinct(s[1..]);
      DistinctMultiplicity(s[1..], x);
      assert s == [s[0]] + s[1..];
      if x == s[0] {
        assert x !in s[1..];
      }
    }
  }
}
