/** Offset pagination as the listing endpoint does it: page `p` of size `limit`
    skips `(p - 1) * limit` items and takes `limit`, and the number of pages is
    the total divided by the page size, rounded up. */
module Pagination {

  /** `Math.ceil(total / limit)` for a positive page size. */
  function TotalPages(total: nat, limit: nat): (pages: nat)
    requires limit > 0
    ensures total <= pages * limit
    ensures pages == 0 || (pages - 1) * limit < total
    ensures pages == 0 <==> total == 0
  {
    var q := (total + limit - 1) / limit;
    assert q * limit + (total + limit - 1) % limit == total + limit - 1;
    assert (q - 1) * limit == q * limit - limit;
    q
  }

  /** Number of items skipped before page `page` (`(page - 1) * limit`). */
  function Skip(page: int, limit: int): int {
    (page - 1) * limit
  }

  function Min(a: int, b: int): int {
    if a <= b then a else b
  }

  /** The `skip`/`take` window of an ordered result: at most `take` items, starting
      after the first `skip`; empty when `skip` is past the end. */
  function Window<T>(s: seq<T>, skip: nat, take: nat): (w: seq<T>)
    ensures |w| <= take
    ensures skip >= |s| ==> |w| == 0
    ensures skip + take <= |s| ==> |w| == take
    ensures |w| == 0 || skip + |w| <= |s|
    ensures skip <= |s| ==> |w| == Min(take, |s| - skip)
    ensures forall i :: 0 <= i < |w| ==> w[i] == s[skip + i]
  {
    s[Min(skip, |s|)..Min(skip + take, |s|)]
  }

  /** Page `page` of `s` (1-based) for page size `limit`. */
  function Page<T>(s: seq<T>, page: nat, limit: nat): seq<T>
    requires page >= 1
  {
    Window(s, (page - 1) * limit, limit)
  }

  /** Pages 1 to `n`, one after the other. */
  function FirstPages<T>(s: seq<T>, limit: nat, n: nat): seq<T> {
    if n == 0 then [] else FirstPages(s, limit, n - 1) + Page(s, n, limit)
  }

  /** The first `n` pages are exactly the first `n * limit` items (or all of them). */
  lemma {:induction false} FirstPagesArePrefix<T>(s: seq<T>, limit: nat, n: nat)
    ensures FirstPages(s, limit, n) == s[..Min(n * limit, |s|)]
  {
    if n > 0 {
      var k := (n - 1) * limit;
      calc {
        FirstPages(s, limit, n);
        FirstPages(s, limit, n - 1) + Page(s, n, limit);
        { FirstPagesArePrefix(s, limit, n - 1); }
        s[..Min(k, |s|)] + Window(s, k, limit);
        { NextPageExtends(s, k, limit); }
        s[..Min(k + limit, |s|)];
        { MulStep(n, limit); }
        s[..Min(n * limit, |s|)];
      }
    }
  }

  lemma MulStep(n: nat, limit: nat)
    requires n > 0
    ensures n * limit == (n - 1) * limit + limit
  {
  }

  /** The window after the first `k` items extends the prefix of length `k`. */
  lemma NextPageExtends<T>(s: seq<T>, k: nat, limit: nat)
    ensures s[..Min(k, |s|)] + Window(s, k, limit) == s[..Min(k + limit, |s|)]
  {
    var a := Min(k, |s|);
    var b := Min(k + limit, |s|);
    assert s[..a] + s[a..b] == s[..b];
  }

  /** Pages 1 to TotalPages, in order, are the whole result: nothing is lost or repeated. */
  lemma PagesTileResult<T>(s: seq<T>, limit: nat)
    requires limit > 0
    ensures FirstPages(s, limit, TotalPages(|s|, limit)) == s
  {
    FirstPagesArePrefix(s, limit, TotalPages(|s|, limit));
  }

  lemma MulMonotone(a: int, b: int, k: nat)
    requires a <= b
    ensures a * k <= b * k
  {
  }

  /** The skip is negative exactly when a positive page size meets a page before the
      first, or a negative page size a page after it. */
  lemma SkipIsNegative(page: int, limit: int)
    ensures Skip(page, limit) < 0 <==> (limit > 0 && page < 1) || (limit < 0 && page > 1)
  {
    if limit > 0 && page >= 1 {
      MulMonotone(0, page - 1, limit);
    } else if limit < 0 && page <= 1 {
      assert Skip(page, limit) == (1 - page) * -limit;
      MulMonotone(0, 1 - page, -limit);
    } else if limit > 0 {
      MulMonotone(page - 1, -1, limit);
    } else if limit < 0 {
      assert Skip(page, limit) == -((page - 1) * -limit);
      MulMonotone(1, page - 1, -limit);
    }
  }

  /** The page that holds position `i` (0-based) of the result. */
  function PageOf(i: nat, limit: nat): (p: nat)
    requires limit > 0
    ensures p >= 1
    ensures Skip(p, limit) <= i < Skip(p, limit) + limit
  {
    var q := i / limit;
    assert q * limit + i % limit == i;
    q + 1
  }

  /** No other page holds that position: pages never overlap. */
  lemma PageOfIsUnique(i: nat, limit: nat, q: int)
    requires limit > 0
    requires Skip(q, limit) <= i < Skip(q, limit) + limit
    ensures q == PageOf(i, limit)
  {
    var p := PageOf(i, limit);
    if q < p {
      MulMonotone(q, p - 1, limit);
    } else if q > p {
      MulMonotone(p, q - 1, limit);
    }
  }

  /** Every position of the result is on one of the pages 1 to TotalPages. */
  lemma PageOfWithinTotal(i: nat, total: nat, limit: nat)
    requires limit > 0 && i < total
    ensures PageOf(i, limit) <= TotalPages(total, limit)
  {
    var p := PageOf(i, limit);
    var n := TotalPages(total, limit);
    if p > n {
      MulMonotone(n, p - 1, limit);
    }
  }

  /** Position `i` of the result is on page `PageOf(i)`, one of pages 1 to TotalPages,
      at offset `i - Skip(PageOf(i))`. */
  lemma PositionOnPage<T>(s: seq<T>, limit: nat, i: nat)
    requires limit > 0 && i < |s|
    ensures
      var p := PageOf(i, limit);
      var k := i - Skip(p, limit);
      && 1 <= p <= TotalPages(|s|, limit)
      && 0 <= k < |Page(s, p, limit)|
      && Page(s, p, limit)[k] == s[i]
  {
    PageOfWithinTotal(i, |s|, limit);
  }

  /** The page counts the listing promises for ten items per page. */
  lemma TotalPagesExamples()
    ensures TotalPages(0, 10) == 0 && TotalPages(1, 10) == 1 && TotalPages(9, 10) == 1
    ensures TotalPages(10, 10) == 1 && TotalPages(11, 10) == 2
  {
  }
}
