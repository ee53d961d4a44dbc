/**
 * The pagination shared by the two paged reads: sort, `skip = (pageNumber - 1) * pageSize`,
 * limit, and the `isNext` flag computed from a separately counted total.
 */
module Paging {

  /** One page of results and whether another page follows. */
  datatype Page<T> = Page(items: seq<T>, isNext: bool)

  function Min(a: int, b: int): int {
    if a <= b then a else b
  }

  /**
   * `skip` as both paged reads compute it. With a positive page size it is
   * negative exactly for page numbers below 1, and page 1 skips nothing.
   */
  function SkipOf(pageNumber: int, pageSize: int): (r: int)
    ensures pageSize >= 1 ==> (r >= 0 <==> pageNumber >= 1)
    ensures pageNumber == 1 || pageSize == 0 ==> r == 0
  {
    (pageNumber - 1) * pageSize
  }

  /** Keys never increase along the sequence: `$sort` with `-1` on that key. */
  predicate NewestFirst<T>(xs: seq<T>, key: T -> int) {
    forall i, j :: 0 <= i < j < |xs| ==> key(xs[i]) >= key(xs[j])
  }

  /** Putting an element in front of a sorted sequence keeps it sorted if no key after it is larger. */
  lemma PrependNewestFirst<T>(h: T, xs: seq<T>, key: T -> int)
    requires NewestFirst(xs, key)
    requires forall j :: 0 <= j < |xs| ==> key(xs[j]) <= key(h)
    ensures NewestFirst([h] + xs, key)
  {
    var r := [h] + xs;
    forall i, j | 0 <= i < j < |r| ensures key(r[i]) >= key(r[j]) {
      assert r[j] == xs[j - 1];
      if i > 0 { assert r[i] == xs[i - 1]; }
    }
  }

  function Insert<T(!new)>(x: T, xs: seq<T>, key: T -> int): (r: seq<T>)
    requires NewestFirst(xs, key)
    ensures NewestFirst(r, key)
    ensures multiset(r) == multiset(xs) + multiset{x}
    decreases |xs|
  {
    if |xs| == 0 || key(x) >= key(xs[0]) then
      PrependNewestFirst(x, xs, key);
      [x] + xs
    else
      var rest := Insert(x, xs[1..], key);
      assert xs == [xs[0]] + xs[1..];
      assert forall j :: 0 <= j < |rest| ==> key(rest[j]) <= key(xs[0]) by {
        forall j | 0 <= j < |rest| ensures key(rest[j]) <= key(xs[0]) {
          assert rest[j] in multiset(rest);
          assert rest[j] == x || rest[j] in xs[1..];
        }
      }
      PrependNewestFirst(xs[0], rest, key);
      [xs[0]] + rest
  }

  /** The sequence sorted by `key`, largest first; ties may come in any order. */
  function SortNewestFirst<T(!new)>(xs: seq<T>, key: T -> int): (r: seq<T>)
    ensures NewestFirst(r, key)
    ensures multiset(r) == multiset(xs)
    decreases |xs|
  {
    if |xs| == 0 then []
    else
      assert xs == [xs[0]] + xs[1..];
      Insert(xs[0], SortNewestFirst(xs[1..], key), key)
  }

  /** `$skip: skip` followed by `$limit: limit`: the slice that starts at `skip`. */
  function Window<T>(xs: seq<T>, skip: nat, limit: nat): (r: seq<T>)
    ensures |r| <= limit
    ensures |r| == if skip >= |xs| then 0 else Min(limit, |xs| - skip)
    ensures forall i :: 0 <= i < |r| ==> r[i] == xs[skip + i]
  {
    if skip >= |xs| then [] else xs[skip..Min(skip + limit, |xs|)]
  }

  /** `isNext`: more results than were skipped and returned. */
  function IsNext(total: int, skip: int, returned: nat): (r: bool)
    ensures r ==> skip < total
    ensures returned == 0 ==> (r <==> skip < total)
  {
    total > skip + returned
  }

  /**
   * When the total is the number of sorted results, `isNext` holds exactly when
   * the page does not reach the end; in particular it is false on the last page.
   */
  lemma IsNextIffMoreRemain<T>(xs: seq<T>, skip: nat, limit: nat)
    requires limit >= 1
    ensures IsNext(|xs|, skip, |Window(xs, skip, limit)|) <==> skip + limit < |xs|
  {
  }

  /** The first `k` pages of size `size`, one after the other. */
  function FirstPages<T>(xs: seq<T>, size: nat, k: nat): seq<T> {
    if k == 0 then [] else FirstPages(xs, size, k - 1) + Window(xs, (k - 1) * size, size)
  }

  /** The page after `k - 1` full pages starts at `(k - 1) * size` and ends at `k * size`. */
  lemma NextPageEnd(k: nat, size: nat)
    requires k > 0
    ensures (k - 1) * size + size == k * size
  {
  }

  /** Pages neither overlap nor leave gaps: the first `k` pages are the first `k * size` results. */
  lemma {:induction false} PagesTile<T>(xs: seq<T>, size: nat, k: nat)
    ensures FirstPages(xs, size, k) == xs[..Min(k * size, |xs|)]
  {
    if k > 0 {
      var skip := (k - 1) * size;
      var end := k * size;
      NextPageEnd(k, size);
      PagesTile(xs, size, k - 1);
      var w := Window(xs, skip, size);
      assert FirstPages(xs, size, k) == xs[..Min(skip, |xs|)] + w;
      if skip >= |xs| {
        assert w == [];
        assert Min(end, |xs|) == |xs| == Min(skip, |xs|);
      } else {
        assert w == xs[skip..Min(end, |xs|)];
        assert xs[..Min(end, |xs|)] == xs[..skip] + xs[skip..Min(end, |xs|)];
      }
    }
  }

  /** Result number `i` (from 0) is on page `i / size + 1`, at position `i % size`. */
  lemma ItemOnItsPage<T>(xs: seq<T>, size: nat, i: nat)
    requires size >= 1 && i < |xs|
    ensures var skip := SkipOf(i / size + 1, size);
      0 <= skip <= i < skip + size &&
      |Window(xs, skip, size)| > i - skip &&
      Window(xs, skip, size)[i - skip] == xs[i]
  {
    var skip := SkipOf(i / size + 1, size);
    assert skip == (i / size) * size;
    assert i == (i / size) * size + i % size;
  }
}
