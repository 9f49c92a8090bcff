/** Sequence folds shared by the store queries and the dashboards: filtering,
    counting, summing and the ordering the store's `.order(...)` applies. */
module Seqs {

  /** The elements of `xs` satisfying `p`, in their original order. */
  function Filter<T(!new)>(xs: seq<T>, p: T -> bool): (r: seq<T>)
    ensures |r| <= |xs|
    ensures forall x :: x in r <==> x in xs && p(x)
    ensures forall i :: 0 <= i < |r| ==> p(r[i])
  {
    if |xs| == 0 then []
    else if p(xs[0]) then [xs[0]] + Filter(xs[1..], p)
    else Filter(xs[1..], p)
  }

  lemma FilterAppend<T(!new)>(xs: seq<T>, ys: seq<T>, p: T -> bool)
    ensures Filter(xs + ys, p) == Filter(xs, p) + Filter(ys, p)
  {
    if |xs| == 0 {
      assert xs + ys == ys;
    } else {
      assert (xs + ys)[1..] == xs[1..] + ys;
      FilterAppend(xs[1..], ys, p);
    }
  }

  /** Filtering with a predicate that no element satisfies leaves nothing. */
  lemma FilterNone<T(!new)>(xs: seq<T>, p: T -> bool)
    requires forall i :: 0 <= i < |xs| ==> !p(xs[i])
    ensures Filter(xs, p) == []
  {
    if |xs| > 0 {
      FilterNone(xs[1..], p);
    }
  }

  /** Filtering twice is filtering once by the conjunction. */
  lemma FilterFilter<T(!new)>(xs: seq<T>, p: T -> bool, q: T -> bool)
    ensures Filter(Filter(xs, p), q) == Filter(xs, x => p(x) && q(x))
  {
    if |xs| > 0 {
      FilterFilter(xs[1..], p, q);
    }
  }

  /** Two predicates that agree on every element filter alike. */
  lemma FilterCongruent<T(!new)>(xs: seq<T>, p: T -> bool, q: T -> bool)
    requires forall i :: 0 <= i < |xs| ==> p(xs[i]) == q(xs[i])
    ensures Filter(xs, p) == Filter(xs, q)
  {
    if |xs| > 0 {
      FilterCongruent(xs[1..], p, q);
    }
  }

  /** How many elements of `xs` satisfy `p`. */
  function Count<T(!new)>(xs: seq<T>, p: T -> bool): (n: nat)
    ensures n == |Filter(xs, p)|
    ensures n <= |xs|
  {
    if |xs| == 0 then 0
    else (if p(xs[0]) then 1 else 0) + Count(xs[1..], p)
  }

  /** The count is zero exactly when no element satisfies `p`, and is the
      length exactly when every element does. */
  lemma {:induction false} CountExtremes<T(!new)>(xs: seq<T>, p: T -> bool)
    ensures Count(xs, p) == 0 <==> forall i :: 0 <= i < |xs| ==> !p(xs[i])
    ensures Count(xs, p) == |xs| <==> forall i :: 0 <= i < |xs| ==> p(xs[i])
    decreases |xs|
  {
    if |xs| > 0 {
      CountExtremes(xs[1..], p);
      assert forall i :: 0 < i < |xs| ==> xs[i] == xs[1..][i - 1];
    }
  }

  /** Sum of an integer measure over the elements. */
  function Sum<T>(xs: seq<T>, f: T -> int): int
  {
    if |xs| == 0 then 0 else f(xs[0]) + Sum(xs[1..], f)
  }

  lemma SumAppend<T>(xs: seq<T>, ys: seq<T>, f: T -> int)
    ensures Sum(xs + ys, f) == Sum(xs, f) + Sum(ys, f)
  {
    if |xs| == 0 {
      assert xs + ys == ys;
    } else {
      assert (xs + ys)[1..] == xs[1..] + ys;
      SumAppend(xs[1..], ys, f);
    }
  }

  /** A sum of non-negative measures bounds each of them, and is zero
      exactly when all of them are. */
  lemma {:induction false} SumOfNonNegative<T>(xs: seq<T>, f: T -> int)
    requires forall i :: 0 <= i < |xs| ==> f(xs[i]) >= 0
    ensures forall i :: 0 <= i < |xs| ==> f(xs[i]) <= Sum(xs, f)
    ensures Sum(xs, f) == 0 <==> forall i :: 0 <= i < |xs| ==> f(xs[i]) == 0
    decreases |xs|
  {
    if |xs| > 0 {
      assert forall i :: 0 < i < |xs| ==> xs[i] == xs[1..][i - 1];
      SumOfNonNegative(xs[1..], f);
    }
  }

  /** Every element's measure lies in [lo, hi], so the sum lies in
      [|xs|*lo, |xs|*hi]. */
  lemma {:induction false} SumBounds<T>(xs: seq<T>, f: T -> int, lo: int, hi: int)
    requires forall i :: 0 <= i < |xs| ==> lo <= f(xs[i]) <= hi
    ensures |xs| * lo <= Sum(xs, f) <= |xs| * hi
  {
    if |xs| > 0 {
      SumBounds(xs[1..], f, lo, hi);
      assert |xs| * lo == lo + (|xs| - 1) * lo;
      assert |xs| * hi == hi + (|xs| - 1) * hi;
    }
  }

  /** `xs` is ordered by `key`, smallest first. */
  ghost predicate SortedBy<T>(xs: seq<T>, key: T -> int) {
    forall i, j :: 0 <= i < j < |xs| ==> key(xs[i]) <= key(xs[j])
  }

  /** `xs` is ordered by `key`, largest first. */
  ghost predicate SortedDescBy<T>(xs: seq<T>, key: T -> int) {
    forall i, j :: 0 <= i < j < |xs| ==> key(xs[i]) >= key(xs[j])
  }

  /** Filtering keeps a largest-first order. */
  lemma {:induction false} FilterKeepsSortedDesc<T(!new)>(xs: seq<T>, p: T -> bool, key: T -> int)
    requires SortedDescBy(xs, key)
    ensures SortedDescBy(Filter(xs, p), key)
  {
    if |xs| > 0 {
      var tail := xs[1..];
      assert SortedDescBy(tail, key) by {
        forall i, j | 0 <= i < j < |tail| ensures key(tail[i]) >= key(tail[j]) {
          assert tail[i] == xs[i + 1] && tail[j] == xs[j + 1];
        }
      }
      FilterKeepsSortedDesc(tail, p, key);
      var rest := Filter(tail, p);
      forall y | y in rest ensures key(xs[0]) >= key(y) {
        var k :| 0 <= k < |tail| && tail[k] == y;
        assert xs[k + 1] == y;
      }
      if p(xs[0]) {
        var r := [xs[0]] + rest;
        forall i, j | 0 <= i < j < |r| ensures key(r[i]) >= key(r[j]) {
          assert r[j] == rest[j - 1];
          if i > 0 {
            assert r[i] == rest[i - 1];
          } else {
            assert r[j] in rest;
          }
        }
      }
    }
  }

  /** Every element of `xs` has a key of at least `lo`. */
  ghost predicate AllAtLeast<T>(xs: seq<T>, lo: int, key: T -> int) {
    forall i :: 0 <= i < |xs| ==> lo <= key(xs[i])
  }

  /** A lower bound on the keys survives a rearrangement. */
  lemma AllAtLeastPermuted<T>(xs: seq<T>, ys: seq<T>, lo: int, key: T -> int)
    requires multiset(xs) == multiset(ys) && AllAtLeast(ys, lo, key)
    ensures AllAtLeast(xs, lo, key)
  {
    forall i | 0 <= i < |xs| ensures lo <= key(xs[i]) {
      assert xs[i] in multiset(ys);
      var j :| 0 <= j < |ys| && ys[j] == xs[i];
    }
  }

  /** A head no larger than every key of a sorted tail gives a sorted
      sequence. */
  lemma SortedCons<T>(h: T, xs: seq<T>, key: T -> int)
    requires SortedBy(xs, key) && AllAtLeast(xs, key(h), key)
    ensures SortedBy([h] + xs, key)
  {
    var r := [h] + xs;
    forall i, j | 0 <= i < j < |r| ensures key(r[i]) <= key(r[j]) {
      assert r[j] == xs[j - 1];
      if i > 0 {
        assert r[i] == xs[i - 1];
      }
    }
  }

  /** Insert `x` before the first element whose key is not smaller. */
  function Insert<T(!new)>(x: T, xs: seq<T>, key: T -> int): (r: seq<T>)
    requires SortedBy(xs, key)
    ensures SortedBy(r, key)
    ensures multiset(r) == multiset(xs) + multiset{x}
    ensures |r| == |xs| + 1
  {
    if |xs| == 0 then [x]
    else if key(x) <= key(xs[0]) then
      assert AllAtLeast(xs, key(x), key);
      SortedCons(x, xs, key);
      [x] + xs
    else
      var tail := xs[1..];
      assert SortedBy(tail, key) by {
        forall i, j | 0 <= i < j < |tail| ensures key(tail[i]) <= key(tail[j]) {
          assert tail[i] == xs[i + 1] && tail[j] == xs[j + 1];
        }
      }
      var rest := Insert(x, tail, key);
      assert AllAtLeast(tail + [x], key(xs[0]), key) by {
        forall i | 0 <= i < |tail| ensures key(xs[0]) <= key(tail[i]) {
          assert tail[i] == xs[i + 1];
        }
      }
      assert multiset(tail + [x]) == multiset(tail) + multiset{x};
      AllAtLeastPermuted(rest, tail + [x], key(xs[0]), key);
      SortedCons(xs[0], rest, key);
      assert xs == [xs[0]] + tail;
      [xs[0]] + rest
  }

  /** A sort on an integer key, smallest first (the store's
      `.order(column, { ascending: true })` and `Array.prototype.sort`). The
      contract leaves the order of equal keys open, as the store does. */
  function SortBy<T(!new)>(xs: seq<T>, key: T -> int): (r: seq<T>)
    ensures SortedBy(r, key)
    ensures multiset(r) == multiset(xs)
    ensures |r| == |xs|
  {
    if |xs| == 0 then []
    else
      assert xs == [xs[0]] + xs[1..];
      Insert(xs[0], SortBy(xs[1..], key), key)
  }

  /** Largest key first (`.order(column, { ascending: false })`). */
  function SortDescBy<T(!new)>(xs: seq<T>, key: T -> int): (r: seq<T>)
    ensures SortedDescBy(r, key)
    ensures multiset(r) == multiset(xs)
    ensures |r| == |xs|
    ensures forall x :: x in r <==> x in xs
  {
    var r := SortBy(xs, x => -key(x));
    assert forall x :: x in r <==> x in multiset(r);
    assert forall x :: x in xs <==> x in multiset(xs);
    r
  }
}
