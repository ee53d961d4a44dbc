/**
 * Sequence operations that the store's queries are built from: a table is a
 * sequence of documents in natural (insertion) order, `findOne` is FindFirst,
 * `find` is Filter, an unwound `$lookup` is FilterMap and `$pull` is Pull.
 */
module Seqs {
  import opened Wrappers

  /** Index of the first element that satisfies `p`, as `findOne` picks it. */
  function FindFirst<T>(xs: seq<T>, p: T -> bool): (r: Option<nat>)
    ensures r.Some? ==> r.value < |xs| && p(xs[r.value])
    ensures r.Some? ==> forall j :: 0 <= j < r.value ==> !p(xs[j])
    ensures r.None? <==> forall j :: 0 <= j < |xs| ==> !p(xs[j])
    decreases |xs|
  {
    if |xs| == 0 then None
    else if p(xs[0]) then Some(0)
    else match FindFirst(xs[1..], p)
      case None => None
      case Some(j) => Some(j + 1)
  }

  /** The elements that satisfy `p`, each as often as it occurs, in their original order. */
  function Filter<T(!new)>(xs: seq<T>, p: T -> bool): (r: seq<T>)
    ensures |r| <= |xs|
    ensures forall x :: x in r <==> x in xs && p(x)
    decreases |xs|
  {
    if |xs| == 0 then []
    else
      assert xs == [xs[0]] + xs[1..];
      (if p(xs[0]) then [xs[0]] else []) + Filter(xs[1..], p)
  }

  /** Filtering keeps every wanted element as often as it occurs, and no other. */
  lemma {:induction false} FilterMultiplicity<T(!new)>(xs: seq<T>, p: T -> bool, x: T)
    ensures multiset(Filter(xs, p))[x] == if p(x) then multiset(xs)[x] else 0
    decreases |xs|
  {
    if |xs| > 0 {
      FilterMultiplicity(xs[1..], p, x);
      assert xs == [xs[0]] + xs[1..];
    }
  }

  /** `f` applied to every element, keeping the defined results in order. */
  function FilterMap<T(!new), U(!new)>(xs: seq<T>, f: T -> Option<U>): (r: seq<U>)
    ensures |r| <= |xs|
    decreases |xs|
  {
    if |xs| == 0 then []
    else (match f(xs[0]) case Some(y) => [y] case None => []) + FilterMap(xs[1..], f)
  }

  /** A value is in the result exactly when some element maps to it. */
  lemma {:induction false} FilterMapIn<T(!new), U(!new)>(xs: seq<T>, f: T -> Option<U>, y: U)
    ensures y in FilterMap(xs, f) <==> exists x :: x in xs && f(x) == Some(y)
    decreases |xs|
  {
    if |xs| > 0 {
      FilterMapIn(xs[1..], f, y);
      assert xs == [xs[0]] + xs[1..];
      if exists x :: x in xs && f(x) == Some(y) {
        var x :| x in xs && f(x) == Some(y);
        assert x == xs[0] || x in xs[1..];
      }
    }
  }

  /** MongoDB's `$pull` of one value from an array: every occurrence goes, the rest stays. */
  function Pull<T(==,!new)>(xs: seq<T>, x: T): (r: seq<T>)
    ensures x !in r
    ensures forall y :: y != x ==> multiset(r)[y] == multiset(xs)[y]
    ensures |r| <= |xs|
    decreases |xs|
  {
    if |xs| == 0 then []
    else
      assert xs == [xs[0]] + xs[1..];
      (if xs[0] == x then [] else [xs[0]]) + Pull(xs[1..], x)
  }

  /** Pulling a value that is not there changes nothing. */
  lemma {:induction false} PullAbsent<T(!new)>(xs: seq<T>, x: T)
    requires x !in xs
    ensures Pull(xs, x) == xs
    decreases |xs|
  {
    if |xs| > 0 {
      PullAbsent(xs[1..], x);
      assert xs == [xs[0]] + xs[1..];
    }
  }

  /** A second `$pull` of the same value is a no-op. */
  lemma PullIdempotent<T(!new)>(xs: seq<T>, x: T)
    ensures Pull(Pull(xs, x), x) == Pull(xs, x)
  {
    PullAbsent(Pull(xs, x), x);
  }

  /** No two elements share a key (the unique `_id` index of a collection). */
  predicate UniqueBy<T, K(==)>(xs: seq<T>, key: T -> K) {
    forall i, j :: 0 <= i < j < |xs| ==> key(xs[i]) != key(xs[j])
  }

  /** Deleting documents keeps the keys of the rest unique. */
  lemma {:induction false} FilterUnique<T(!new), K>(xs: seq<T>, p: T -> bool, key: T -> K)
    requires UniqueBy(xs, key)
    ensures UniqueBy(Filter(xs, p), key)
    decreases |xs|
  {
    if |xs| > 0 {
      var tail := xs[1..];
      FilterUnique(tail, p, key);
      var rest := Filter(tail, p);
      forall j | 0 <= j < |rest| ensures key(rest[j]) != key(xs[0]) {
        assert rest[j] in tail;
        var k :| 0 <= k < |tail| && tail[k] == rest[j];
        assert xs[k + 1] == rest[j];
      }
    }
  }

  /** Removing the element at index `i` keeps the keys of the rest unique. */
  lemma RemoveAtUnique<T, K>(xs: seq<T>, i: nat, key: T -> K)
    requires i < |xs| && UniqueBy(xs, key)
    ensures UniqueBy(xs[..i] + xs[i + 1..], key)
  {
    var r := xs[..i] + xs[i + 1..];
    forall a, b | 0 <= a < b < |r| ensures key(r[a]) != key(r[b]) {
      var a' := if a < i then a else a + 1;
      var b' := if b < i then b else b + 1;
      assert r[a] == xs[a'] && r[b] == xs[b'];
    }
  }

  /** The number of elements that satisfy `p` and the number that do not add up to the whole. */
  lemma {:induction false} FilterSplit<T(!new)>(xs: seq<T>, p: T -> bool, q: T -> bool)
    requires forall x :: q(x) == !p(x)
    ensures |Filter(xs, p)| + |Filter(xs, q)| == |xs|
    decreases |xs|
  {
    if |xs| > 0 {
      FilterSplit(xs[1..], p, q);
    }
  }

  /** Filtering twice is filtering once by both conditions. */
  lemma {:induction false} FilterTwice<T(!new)>(xs: seq<T>, p: T -> bool, q: T -> bool, pq: T -> bool)
    requires forall x :: pq(x) == (p(x) && q(x))
    ensures Filter(Filter(xs, p), q) == Filter(xs, pq)
    decreases |xs|
  {
    if |xs| > 0 {
      FilterTwice(xs[1..], p, q, pq);
      var h := if p(xs[0]) then [xs[0]] else [];
      assert Filter(h + Filter(xs[1..], p), q) == Filter(h, q) + Filter(Filter(xs[1..], p), q) by {
        FilterAppend(h, Filter(xs[1..], p), q);
      }
    }
  }

  lemma {:induction false} FilterAppend<T(!new)>(a: seq<T>, b: seq<T>, p: T -> bool)
    ensures Filter(a + b, p) == Filter(a, p) + Filter(b, p)
    decreases |a|
  {
    if |a| == 0 {
      assert a + b == b;
    } else {
      FilterAppend(a[1..], b, p);
      assert (a + b)[0] == a[0];
      assert (a + b)[1..] == a[1..] + b;
      var h := if p(a[0]) then [a[0]] else [];
      assert Filter(a + b, p) == h + Filter(a[1..] + b, p);
      assert Filter(a, p) == h + Filter(a[1..], p);
    }
  }

  /** Replacing an element by one that `p` judges the same does not move the first match. */
  lemma {:induction false} FindFirstUpdate<T>(xs: seq<T>, i: nat, x: T, p: T -> bool)
    requires i < |xs| && p(x) == p(xs[i])
    ensures FindFirst(xs[i := x], p) == FindFirst(xs, p)
    decreases |xs|
  {
    if |xs| > 0 && i > 0 && !p(xs[0]) {
      FindFirstUpdate(xs[1..], i - 1, x, p);
      assert xs[i := x][1..] == xs[1..][i - 1 := x];
    }
  }

  /** Replacing an element by one with the same key keeps the keys unique. */
  lemma UpdateUnique<T, K>(xs: seq<T>, i: nat, x: T, key: T -> K)
    requires i < |xs| && key(x) == key(xs[i]) && UniqueBy(xs, key)
    ensures UniqueBy(xs[i := x], key)
  {
    var r := xs[i := x];
    forall a, b | 0 <= a < b < |r| ensures key(r[a]) != key(r[b]) {
      assert key(r[a]) == key(xs[a]) && key(r[b]) == key(xs[b]);
    }
  }
}
