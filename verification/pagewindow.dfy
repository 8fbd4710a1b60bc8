/**
 * The pagination controls: at most five numbered page buttons around the
 * current page, plus Previous and Next buttons clamped to the page range.
 */
module PageWindow {
  import opened Numbers

  const WindowSize: nat := 5

  /** The number on the first button, which every branch of `PageNumber` offsets by `i`. */
  function WindowStart(current: int, total: nat): (s: int)
    ensures total > 0 ==> 1 <= s && s + Min(WindowSize, total) - 1 <= total
  {
    if total <= WindowSize || current <= 3 then 1
    else if current >= total - 2 then total - 4
    else current - 2
  }

  /** The number on the `i`-th button (counting from zero). */
  function PageNumber(current: int, total: nat, i: nat): (n: int)
    ensures n == WindowStart(current, total) + i
  {
    if total <= WindowSize then i + 1
    else if current <= 3 then i + 1
    else if current >= total - 2 then total - 4 + i
    else current - 2 + i
  }

  /** Where the current page sits in the window. */
  function CurrentSlot(current: int, total: nat): int {
    if total <= WindowSize || current <= 3 then current - 1
    else if current >= total - 2 then current - total + 4
    else 2
  }

  /**
   * `Array.from({ length: Math.min(5, totalPages) }, (_, i) => pageNum)`:
   * a run of consecutive page numbers that never leaves `1..total`, whatever
   * the current page is, and that shows the current page when it exists.
   * With more than five pages the run is the first window while the current
   * page is among the first three, the last window once it is among the last
   * three, and otherwise has the current page in the middle.
   */
  function PageButtons(current: int, total: nat): (r: seq<int>)
    ensures |r| == Min(WindowSize, total)
    ensures forall i :: 0 <= i < |r| - 1 ==> r[i + 1] == r[i] + 1
    ensures forall i :: 0 <= i < |r| ==> 1 <= r[i] <= total
    ensures 1 <= current <= total ==> current in r
    ensures 0 < total && (total <= WindowSize || current <= 3) ==> r[0] == 1
    ensures total > WindowSize && 3 < current && current >= total - 2 ==> r[WindowSize - 1] == total
    ensures total > WindowSize && 3 < current < total - 2 ==> r[2] == current
  {
    var r := seq(Min(WindowSize, total), i requires 0 <= i => PageNumber(current, total, i));
    assert forall i :: 0 <= i < |r| ==> r[i] == WindowStart(current, total) + i;
    assert 1 <= current <= total ==> r[CurrentSlot(current, total)] == current;
    r
  }

  /** The Previous button's target, `Math.max(1, currentPage - 1)`. */
  function Previous(current: int): (r: int)
    ensures 1 <= current ==> 1 <= r <= current
    ensures r == current <==> current == 1
    ensures 1 < current ==> r == current - 1
  {
    Max(1, current - 1)
  }

  /** The Next button's target, `Math.min(totalPages, currentPage + 1)`. */
  function Next(current: int, total: nat): (r: int)
    ensures current <= total ==> current <= r <= total
    ensures r == current <==> current == total
    ensures current < total ==> r == current + 1
  {
    Min(total, current + 1)
  }

  /** From any existing page both buttons lead to an existing page. */
  lemma NavigationStaysInRange(current: int, total: nat)
    requires 1 <= current <= total
    ensures 1 <= Previous(current) <= total
    ensures 1 <= Next(current, total) <= total
  {
  }

  /** Next undoes Previous, and Previous undoes Next, away from the ends. */
  lemma PreviousNextInverse(current: int, total: nat)
    requires 1 <= current <= total
    ensures current < total ==> Previous(Next(current, total)) == current
    ensures 1 < current ==> Next(Previous(current), total) == current
  {
  }

  /** Buttons are consecutive, so no two share a number (each is a distinct React key). */
  lemma ButtonsDistinct(current: int, total: nat)
    ensures forall i, j :: 0 <= i < j < |PageButtons(current, total)| ==>
      PageButtons(current, total)[i] < PageButtons(current, total)[j]
  {
    var r := PageButtons(current, total);
    forall i, j | 0 <= i < j < |r|
      ensures r[i] < r[j]
    {
      assert r[j] == PageNumber(current, total, j) && r[i] == PageNumber(current, total, i);
    }
  }
}
