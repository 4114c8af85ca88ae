/**
 * Listing helpers shared by the feed, the moderation queue and the flag history: the
 * `parseInt(q) || default` parameter defaults, the OFFSET/LIMIT window, the page count,
 * and the newest-first selection over a store kept in creation order.
 */
module Paging {
  import opened Wrappers

  /** `parseInt(q) || fallback`: a missing or unparsable parameter and `0` both give the fallback. */
  function OrDefault(q: Option<int>, fallback: int): (v: int)
    ensures (q.None? || q.value == 0) ==> v == fallback
    ensures (q.Some? && q.value != 0) ==> v == q.value
  {
    if q.None? || q.value == 0 then fallback else q.value
  }

  /** `Math.ceil(count / limit)`. */
  function TotalPages(count: nat, limit: nat): (n: nat)
    requires limit > 0
    ensures n * limit >= count
    ensures n > 0 ==> (n - 1) * limit < count
  {
    var n := (count + limit - 1) / limit;
    assert n * limit <= count + limit - 1 < (n + 1) * limit;
    n
  }

  function Min(a: int, b: int): int {
    if a <= b then a else b
  }

  /** `OFFSET offset LIMIT limit` over `rows`. */
  function Window<T>(rows: seq<T>, offset: nat, limit: nat): (w: seq<T>)
    ensures |w| == if offset >= |rows| then 0 else Min(limit, |rows| - offset)
    ensures forall k :: 0 <= k < |w| ==> w[k] == rows[offset + k]
  {
    if offset >= |rows| then [] else rows[offset..offset + Min(limit, |rows| - offset)]
  }

  datatype Page<T> = Page(items: seq<T>, totalPages: nat, currentPage: int, total: nat)

  /** A listing, or the database's refusal of a negative LIMIT or OFFSET (a 500 from the error handler). */
  datatype Paged<T> = Listed(page: Page<T>) | BadWindow

  /**
   * One page of `rows`: page defaults to 1 and limit to `defaultLimit`; the offset is
   * (page - 1) * limit.
   */
  function Paginate<T>(rows: seq<T>, page: Option<int>, limit: Option<int>, defaultLimit: nat): (r: Paged<T>)
    requires defaultLimit > 0
    ensures var p := OrDefault(page, 1); var l := OrDefault(limit, defaultLimit);
            (r.BadWindow? <==> l < 0 || p < 1)
            && (r.Listed? ==> l > 0 && r.page.total == |rows| && r.page.currentPage == p
                              && r.page.totalPages == TotalPages(|rows|, l)
                              && r.page.items == Window(rows, (p - 1) * l, l))
  {
    var p := OrDefault(page, 1);
    var l := OrDefault(limit, defaultLimit);
    if l < 0 || p < 1 then BadWindow
    else Listed(Page(Window(rows, (p - 1) * l, l), TotalPages(|rows|, l), p, |rows|))
  }

  /** Every row is listed on some page within the page count: row `k` sits at slot `k % limit` of page `k / limit + 1`. */
  lemma PageOfRow<T>(rows: seq<T>, k: nat, limit: nat, defaultLimit: nat)
    requires defaultLimit > 0 && limit > 0 && k < |rows|
    ensures var r := Paginate(rows, Some(k / limit + 1), Some(limit), defaultLimit);
            r.Listed? && k / limit + 1 <= r.page.totalPages
            && k % limit < |r.page.items| && r.page.items[k % limit] == rows[k]
  {
    var q := k / limit;
    assert q * limit + k % limit == k;
    var n := TotalPages(|rows|, limit);
    assert q * limit < n * limit;
    FactorLess(q, n, limit);
  }

  /** Cancelling a positive factor keeps a strict inequality. */
  lemma FactorLess(a: int, b: int, c: int)
    requires c > 0 && a * c < b * c
    ensures a < b
  {
    if b <= a {
      FactorMonotone(b, a, c);
    }
  }

  lemma FactorMonotone(a: int, b: int, c: int)
    requires c >= 0 && a <= b
    ensures a * c <= b * c
  {
    assert b * c - a * c == (b - a) * c;
  }

  /**
   * The positions below `n` whose record satisfies `keep`, newest first: a store kept in
   * creation order read backwards (`ORDER BY created_at DESC`).
   */
  function NewestFirst<T>(xs: seq<T>, keep: T -> bool, n: nat): (r: seq<nat>)
    requires n <= |xs|
    ensures forall k :: 0 <= k < |r| ==> r[k] < n && keep(xs[r[k]])
    ensures forall k, m :: 0 <= k < m < |r| ==> r[k] > r[m]
  {
    if n == 0 then []
    else (if keep(xs[n - 1]) then [n - 1] else []) + NewestFirst(xs, keep, n - 1)
  }

  /** Nothing is missed: every position below `n` whose record satisfies `keep` is selected. */
  lemma {:induction false} NewestFirstComplete<T>(xs: seq<T>, keep: T -> bool, n: nat, i: nat)
    requires n <= |xs| && i < n && keep(xs[i])
    ensures i in NewestFirst(xs, keep, n)
  {
    if i < n - 1 {
      NewestFirstComplete(xs, keep, n - 1, i);
    }
  }

  /** The records at the given positions. */
  function Select<T>(xs: seq<T>, positions: seq<nat>): (r: seq<T>)
    requires forall k :: 0 <= k < |positions| ==> positions[k] < |xs|
    ensures |r| == |positions| && forall k :: 0 <= k < |r| ==> r[k] == xs[positions[k]]
  {
    seq(|positions|, k requires 0 <= k < |positions| => xs[positions[k]])
  }

  /** Every record that satisfies `keep` is among the newest-first selection of the whole store. */
  lemma SelectKept<T>(xs: seq<T>, keep: T -> bool, i: nat)
    requires i < |xs| && keep(xs[i])
    ensures var r := Select(xs, NewestFirst(xs, keep, |xs|));
            exists k :: 0 <= k < |r| && r[k] == xs[i]
  {
    var positions := NewestFirst(xs, keep, |xs|);
    NewestFirstComplete(xs, keep, |xs|, i);
    var k :| 0 <= k < |positions| && positions[k] == i;
    var r := Select(xs, positions);
    assert r[k] == xs[i];
    assert r == Select(xs, NewestFirst(xs, keep, |xs|));
  }
}
