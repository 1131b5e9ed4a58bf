/** `paginate_questions`: a page of ten items taken with Python's slice
    semantics, so that any integer page number is accepted. */
module Pagination {
  import opened Types

  const QUESTIONS_PER_PAGE: nat := 10

  function Min(a: int, b: int): int { if a <= b then a else b }

  function Max(a: int, b: int): int { if a <= b then b else a }

  /** Python's normalisation of one slice bound against a length `n`: a
      negative bound counts from the end, and the result is clamped to
      [0, n]. */
  function SliceBound(i: int, n: nat): (k: nat)
    ensures k <= n
  {
    if i < 0 then (if i + n < 0 then 0 else i + n)
    else if i > n then n
    else i
  }

  /** `s[start:end]` in Python. */
  function PySlice<T>(s: seq<T>, start: int, end: int): seq<T> {
    var lo := SliceBound(start, |s|);
    var hi := SliceBound(end, |s|);
    if lo < hi then s[lo..hi] else []
  }

  /** `request.args.get('page', 1, type=int)`: `None` stands for a query
      argument that is absent or does not convert to an integer. */
  function PageNumber(arg: Option<int>): int {
    arg.GetOr(1)
  }

  /** The page `page` of `selection`; formatting a question is the identity
      here. */
  function Paginate<T>(selection: seq<T>, page: int): (r: seq<T>)
    ensures |r| <= QUESTIONS_PER_PAGE
  {
    var start := (page - 1) * QUESTIONS_PER_PAGE;
    PySlice(selection, start, start + QUESTIONS_PER_PAGE)
  }

  /** A reference description of the page, case by case: pages from 1 count
      from the front, page 0 is always empty, and a negative page counts
      ten-item windows back from the end. */
  ghost function PageSpec<T>(s: seq<T>, page: int): seq<T> {
    var n := |s|;
    if page >= 1 then s[Min((page - 1) * 10, n)..Min(page * 10, n)]
    else if page == 0 then []
    else s[Max(n + (page - 1) * 10, 0)..Max(n + page * 10, 0)]
  }

  /** When a page is empty, stated on the length alone. */
  predicate EmptyPage(n: nat, page: int) {
    || (page >= 1 && (page - 1) * 10 >= n)
    || page == 0
    || (page < 0 && n + page * 10 <= 0)
  }

  lemma PaginateIsPageSpec<T>(s: seq<T>, page: int)
    ensures Paginate(s, page) == PageSpec(s, page)
  {
  }

  /** For a page from 1 on, the page is exactly the items at positions
      [(page - 1) * 10, min(page * 10, |s|)), in order. */
  lemma PositivePage<T>(s: seq<T>, page: int)
    requires page >= 1
    ensures var r := Paginate(s, page);
      && |r| == Max(0, Min(10, |s| - (page - 1) * 10))
      && forall i | 0 <= i < |r| :: r[i] == s[(page - 1) * 10 + i]
  {
    PaginateIsPageSpec(s, page);
  }

  lemma EmptyPageIff<T>(s: seq<T>, page: int)
    ensures Paginate(s, page) == [] <==> EmptyPage(|s|, page)
  {
    PaginateIsPageSpec(s, page);
  }

  /** Every item of a page is an item of the selection. */
  lemma PageItemsFromSelection<T>(s: seq<T>, page: int, x: T)
    requires x in Paginate(s, page)
    ensures x in s
  {
    PaginateIsPageSpec(s, page);
    var lo := SliceBound((page - 1) * 10, |s|);
    var hi := SliceBound((page - 1) * 10 + 10, |s|);
    assert lo < hi && Paginate(s, page) == s[lo..hi];
    var k :| 0 <= k < hi - lo && s[lo..hi][k] == x;
    assert s[lo + k] == x;
  }

  /** Paging loses nothing: the item at position i is on page i / 10 + 1,
      at position i % 10. */
  lemma ItemOnItsPage<T>(s: seq<T>, i: int)
    requires 0 <= i < |s|
    ensures var r := Paginate(s, i / 10 + 1);
      i % 10 < |r| && r[i % 10] == s[i]
  {
    var page := i / 10 + 1;
    assert (page - 1) * 10 + i % 10 == i;
    PositivePage(s, page);
  }
}
