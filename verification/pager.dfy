/**
 * Pagination of the filtered list: ten rows a page, a page count by ceiling
 * division, the visible rows as an `Array.prototype.slice`, and the
 * "Showing x-y of n" caption.
 */
module Pager {
  import opened Numbers

  const ItemsPerPage: nat := 10

  /** `Math.ceil(n / itemsPerPage)`: the fewest pages of ten that hold `n` rows. */
  function TotalPages(n: nat): (r: nat)
    ensures n <= r * ItemsPerPage
    ensures n > 0 ==> (r - 1) * ItemsPerPage < n
    ensures r == 0 <==> n == 0
  {
    (n + ItemsPerPage - 1) / ItemsPerPage
  }

  /** How `Array.prototype.slice` turns an argument into an index: negative counts from the end. */
  function SliceIndex(len: nat, i: int): (r: nat)
    ensures r <= len
  {
    if i < 0 then Max(len + i, 0) else Min(i, len)
  }

  /** `xs.slice(start, end)` */
  function Slice<T>(xs: seq<T>, start: int, end: int): (r: seq<T>)
    ensures |r| <= |xs|
    ensures 0 <= start <= end ==> r == xs[Min(start, |xs|)..Min(end, |xs|)]
    ensures 0 <= end <= start ==> r == []
    ensures -|xs| <= start < 0 && |xs| <= end ==> r == xs[|xs| + start..]
  {
    var from, to := SliceIndex(|xs|, start), SliceIndex(|xs|, end);
    if from < to then xs[from..to] else []
  }

  /** `indexOfFirstItem` for a page. */
  function FirstIndex(page: int): int {
    page * ItemsPerPage - ItemsPerPage
  }

  /** `indexOfLastItem` for a page. */
  function LastIndex(page: int): int {
    page * ItemsPerPage
  }

  /** `currentInvestors`: the rows page `page` shows. */
  function PageItems<T>(xs: seq<T>, page: int): (r: seq<T>)
    ensures |r| <= ItemsPerPage
    ensures page >= 1 ==> forall k :: 0 <= k < |r| ==>
      FirstIndex(page) + k < |xs| && r[k] == xs[FirstIndex(page) + k]
    ensures 1 <= page < TotalPages(|xs|) ==> |r| == ItemsPerPage
    ensures 1 <= page == TotalPages(|xs|) ==> |r| == |xs| - FirstIndex(page)
    ensures page > TotalPages(|xs|) ==> r == []
  {
    Slice(xs, FirstIndex(page), LastIndex(page))
  }

  /** Pages `1` to `k` laid end to end. */
  function Pages<T>(xs: seq<T>, k: nat): seq<T> {
    if k == 0 then [] else Pages(xs, k - 1) + PageItems(xs, k)
  }

  /** Pages `1` to `k` together are the first `10 * k` rows (or all of them). */
  lemma {:induction false} PagesArePrefix<T>(xs: seq<T>, k: nat)
    ensures Pages(xs, k) == xs[..Min(k * ItemsPerPage, |xs|)]
  {
    if k > 0 {
      PagesArePrefix(xs, k - 1);
      var before := Min((k - 1) * ItemsPerPage, |xs|);
      var page := PageItems(xs, k);
      if (k - 1) * ItemsPerPage < |xs| {
        assert Slice(xs, FirstIndex(k), LastIndex(k)) == xs[before..Min(k * ItemsPerPage, |xs|)];
        assert xs[..before] + xs[before..Min(k * ItemsPerPage, |xs|)] == xs[..Min(k * ItemsPerPage, |xs|)];
      } else {
        assert page == [];
      }
    }
  }

  /** Every row appears on exactly one page, and the pages in order are the whole list. */
  lemma PagesReassembleList<T>(xs: seq<T>)
    ensures Pages(xs, TotalPages(|xs|)) == xs
  {
    PagesArePrefix(xs, TotalPages(|xs|));
  }

  /** The "Showing first-last of n" caption: `indexOfFirstItem + 1` and `Math.min(indexOfLastItem, n)`. */
  function Showing(n: nat, page: int): (int, int) {
    (FirstIndex(page) + 1, Min(LastIndex(page), n))
  }

  /** On an existing page, the caption names exactly the rows shown, counted from one. */
  lemma ShowingDescribesPage<T>(xs: seq<T>, page: int)
    requires 1 <= page <= TotalPages(|xs|)
    ensures var (first, last) := Showing(|xs|, page);
      && 1 <= first <= last <= |xs|
      && PageItems(xs, page) == xs[first - 1..last]
  {
    var (first, last) := Showing(|xs|, page);
    assert PageItems(xs, page) == Slice(xs, FirstIndex(page), LastIndex(page));
  }

  /** Twenty-five rows make three pages: rows 1-10 first, rows 21-25 last. */
  lemma TwentyFiveRows<T>(xs: seq<T>)
    requires |xs| == 25
    ensures TotalPages(|xs|) == 3
    ensures PageItems(xs, 1) == xs[..10]
    ensures PageItems(xs, 3) == xs[20..]
  {
  }
}
