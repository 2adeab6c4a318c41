/** Fixed-size pages of the sorted rows, cut with JavaScript's
    `Array.prototype.slice`. */
module Paging {

  /** Rows per page (`perPage`). */
  const PerPage: nat := 20

  function Min(a: int, b: int): int {
    if a <= b then a else b
  }

  /** `s.slice(start, end)` for non-negative arguments: both ends are
      clamped to the length, and the slice is empty unless `start` comes
      before both `end` and the length. */
  function Slice<T>(s: seq<T>, start: nat, end: nat): (r: seq<T>)
    ensures |r| == if start < end && start < |s| then Min(end, |s|) - start else 0
    ensures forall i :: 0 <= i < |r| ==> r[i] == s[start + i]
  {
    var lo, hi := Min(start, |s|), Min(end, |s|);
    if lo < hi then s[lo..hi] else []
  }

  /** The rows of page `page`, `s.slice(page * perPage, (page + 1) * perPage)`. */
  function Page<T>(s: seq<T>, page: nat): (r: seq<T>)
    ensures |r| <= PerPage
    ensures |r| > 0 ==> page * PerPage + |r| <= |s|
    ensures forall i :: 0 <= i < |r| ==> r[i] == s[page * PerPage + i]
  {
    Slice(s, page * PerPage, (page + 1) * PerPage)
  }

  /** The rows of pages `0` to `page`, as a table showing that many pages
      builds them: the first page, then each further page appended after
      the ones before it.  The result is the prefix of the rows that the
      pages reach. */
  function Window<T>(s: seq<T>, page: nat): (r: seq<T>)
    ensures r <= s
    ensures |r| == Min((page + 1) * PerPage, |s|)
    decreases page
  {
    if page == 0 then Page(s, 0) else Window(s, page - 1) + Page(s, page)
  }

  /** A page holds at most `PerPage` rows; it is full exactly when the rows
      reach past its end, and empty once it starts past the last row. */
  lemma PageLength<T>(s: seq<T>, page: nat)
    ensures |Page(s, page)| <= PerPage
    ensures |Page(s, page)| == PerPage <==> (page + 1) * PerPage <= |s|
    ensures |Page(s, page)| == 0 <==> |s| <= page * PerPage
  {
  }

  /** Page `page` is the window's rows from `page * PerPage` on (a slice,
      not a prefix, once `page > 0`). */
  lemma PageInWindow<T>(s: seq<T>, page: nat)
    requires page * PerPage <= |s|
    ensures Page(s, page) == Window(s, page)[page * PerPage..]
  {
  }

  /** The first page is the first window; both are `s.slice(0, perPage)`. */
  lemma FirstPage<T>(s: seq<T>)
    ensures Page(s, 0) == Window(s, 0) == Slice(s, 0, PerPage)
  {
  }

  /** Appending the next page to a window gives the next window. */
  lemma WindowThenPage<T>(s: seq<T>, page: nat)
    ensures Window(s, page) + Page(s, page + 1) == Window(s, page + 1)
  {
  }

  /** Once a window reaches the last row it is all the rows. */
  lemma WindowCoversAll<T>(s: seq<T>, page: nat)
    requires |s| <= (page + 1) * PerPage
    ensures Window(s, page) == s
  {
  }
}
