/** Python's `s[start:stop]` on lists (step 1), with negative and out-of-range bounds. */
module Slices {

  /** How Python normalises one slice bound against a list of length `n`. */
  function Bound(i: int, n: nat): (r: nat)
    ensures r <= n
    ensures 0 <= i <= n ==> r == i
    ensures i > n ==> r == n
    ensures i < 0 && 0 <= i + n ==> r == n + i
    ensures i + n < 0 ==> r == 0
  {
    if i < 0 then (if i + n < 0 then 0 else i + n) else if i > n then n else i
  }

  /** `s[start:stop]`: never fails, and is empty when the bounds cross. */
  function Slice<T>(s: seq<T>, start: int, stop: int): (r: seq<T>)
  {
    var lo, hi := Bound(start, |s|), Bound(stop, |s|);
    if lo < hi then s[lo..hi] else []
  }

  /** With non-negative bounds a slice is the window `[start, stop)` cut to the list. */
  lemma SliceWindow<T>(s: seq<T>, start: nat, stop: nat)
    ensures |Slice(s, start, stop)| == if start < stop && start < |s| then Min(stop, |s|) - start else 0
    ensures forall k | 0 <= k < |Slice(s, start, stop)| :: Slice(s, start, stop)[k] == s[start + k]
  {
  }

  function Min(a: int, b: int): int
  {
    if a < b then a else b
  }

  function Max(a: int, b: int): int
  {
    if a < b then b else a
  }

  /**
   * Page `page` of `entriesPerPage` items of `s`, as the manager cuts it.
   * Page numbers are not checked: negative ones count from the end of the list.
   */
  function Page<T>(s: seq<T>, page: int, entriesPerPage: int): seq<T>
  {
    Slice(s, page * entriesPerPage, (page + 1) * entriesPerPage)
  }

  /**
   * A page with a non-negative number holds the `entriesPerPage` items that
   * start at `page * entriesPerPage`, fewer at the end of the list, and none
   * past it.
   */
  lemma {:induction false} PageContents<T>(s: seq<T>, page: nat, entriesPerPage: int)
    requires entriesPerPage > 0
    ensures |Page(s, page, entriesPerPage)| == Max(0, Min(entriesPerPage, |s| - page * entriesPerPage))
    ensures forall k | 0 <= k < |Page(s, page, entriesPerPage)| ::
      Page(s, page, entriesPerPage)[k] == s[page * entriesPerPage + k]
    ensures page * entriesPerPage >= |s| ==> Page(s, page, entriesPerPage) == []
  {
    var start := page * entriesPerPage;
    assert (page + 1) * entriesPerPage == start + entriesPerPage;
    SliceWindow(s, start, start + entriesPerPage);
  }

  /** Pages 0, 1, 2, ... concatenate to the whole list: no item is skipped or repeated. */
  lemma {:induction false} PagesCover<T>(s: seq<T>, pages: nat, entriesPerPage: int)
    requires entriesPerPage > 0
    ensures Concat(s, pages, entriesPerPage) == s[..Min(pages * entriesPerPage, |s|)]
  {
    if pages > 0 {
      PagesCover(s, pages - 1, entriesPerPage);
      PageContents(s, pages - 1, entriesPerPage);
      var start := (pages - 1) * entriesPerPage;
      assert pages * entriesPerPage == start + entriesPerPage;
      var prefix := s[..Min(start, |s|)];
      var page := Page(s, pages - 1, entriesPerPage);
      assert prefix + page == s[..Min(pages * entriesPerPage, |s|)];
    }
  }

  /** Pages 0 to `pages - 1` joined in order. */
  function Concat<T>(s: seq<T>, pages: nat, entriesPerPage: int): seq<T>
  {
    if pages == 0 then [] else Concat(s, pages - 1, entriesPerPage) + Page(s, pages - 1, entriesPerPage)
  }

  /** Page -1 is always empty: it would end at index 0. */
  lemma PageMinusOneEmpty<T>(s: seq<T>, entriesPerPage: int)
    requires entriesPerPage > 0
    ensures Page(s, -1, entriesPerPage) == []
  {
  }

  /**
   * Other negative pages are not empty: page -2 of a list of at least
   * `2 * entriesPerPage` items is the second-to-last full window.
   */
  lemma PageMinusTwo<T>(s: seq<T>, entriesPerPage: int)
    requires entriesPerPage > 0 && |s| >= 2 * entriesPerPage
    ensures Page(s, -2, entriesPerPage) == s[|s| - 2 * entriesPerPage..|s| - entriesPerPage]
  {
  }

  /**
   * Pages of a list of 101 items: page 1 of 10 and of 50 are full, a single
   * page of 1000 holds all 101, and page 2 of 100 is empty.
   */
  lemma PagesOf101<T>(s: seq<T>)
    requires |s| == 101
    ensures |Page(s, 1, 10)| == 10 && |Page(s, 1, 50)| == 50
    ensures |Page(s, 0, 1000)| == 101 && Page(s, 2, 100) == []
  {
    PageContents(s, 1, 10);
    PageContents(s, 1, 50);
    PageContents(s, 0, 1000);
    PageContents(s, 2, 100);
  }
}
