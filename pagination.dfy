/**
 * apps/lotteries/views/tabs/lottery.js: the pager of the simulation table.
 * Pages hold ten rows; a click on a pager button moves the page index and
 * re-renders; the numbered buttons form a window of radius 3 around the
 * current page, with the first and last pages always reachable.
 */
module Pagination {
  import opened Wrappers

  const Radius: nat := 3

  /** `Math.max(1, Math.ceil(rows / pageSize))`. */
  function PageCount(rows: nat): (c: nat)
    ensures c >= 1
    ensures rows <= c * 10
    ensures c == 1 || (c - 1) * 10 < rows
  {
    if rows == 0 then 1 else (rows + 10 - 1) / 10
  }

  /**
   * The `data-action` of a clicked pager button; `Other` is any other click.
   * `Page(None)` stands for a `data-page` that is not a finite number; every
   * numbered button carries that attribute, so a missing one (which
   * `Number(null)` would read as 0) does not arise.
   */
  datatype Action = First | Prev | Next | Last | Page(page: Option<int>) | Other

  function Max(a: int, b: int): int { if a < b then b else a }
  function Min(a: int, b: int): int { if a < b then a else b }

  /**
   * The page index after a click, or `None` when the click is ignored
   * (and the table is not re-rendered). A `data-page` that is not a finite
   * number leaves the index as it is but still re-renders.
   */
  function Clicked(action: Action, index: int, count: int): (r: Option<int>)
    ensures r.None? <==> action.Other?
    ensures 0 <= index < count && r.Some? ==> 0 <= r.value < count
  {
    match action
    case First => Some(0)
    case Prev => Some(Max(0, index - 1))
    case Next => Some(Min(count - 1, index + 1))
    case Last => Some(count - 1)
    case Page(p) => if p.Some? then Some(Min(count - 1, Max(0, p.value - 1))) else Some(index)
    case Other => None
  }

  /** "Start" and "Previous" are disabled on the first page. */
  predicate FirstPrevDisabled(index: int) {
    index == 0
  }

  /** "Next" and "End" are disabled on the last page. */
  predicate NextLastDisabled(index: int, count: int) {
    index + 1 >= count
  }

  /** A button is disabled exactly when clicking it would not move the page. */
  lemma DisabledIffNoMove(index: int, count: int)
    requires 0 <= index < count
    ensures FirstPrevDisabled(index) <==> Clicked(First, index, count) == Some(index)
    ensures FirstPrevDisabled(index) <==> Clicked(Prev, index, count) == Some(index)
    ensures NextLastDisabled(index, count) <==> Clicked(Next, index, count) == Some(index)
    ensures NextLastDisabled(index, count) <==> Clicked(Last, index, count) == Some(index)
  {
  }

  /** Next then Previous comes back, and a numbered button opens its own page. */
  lemma ClickedInverse(index: int, count: int, p: int)
    requires 0 <= index < count
    ensures index + 1 < count ==> Clicked(Prev, Clicked(Next, index, count).value, count) == Some(index)
    ensures index > 0 ==> Clicked(Next, Clicked(Prev, index, count).value, count) == Some(index)
    ensures 1 <= p <= count ==> Clicked(Page(Some(p)), index, count) == Some(p - 1)
  {
  }

  /** `rows.slice(start, start + pageSize)` for page `index`. */
  function PageSlice<T>(rows: seq<T>, index: nat): (page: seq<T>)
    ensures |page| <= 10
    ensures forall k :: 0 <= k < |page| ==> index * 10 + k < |rows| && page[k] == rows[index * 10 + k]
    ensures |page| == 0 <==> |rows| <= index * 10
    ensures index * 10 + 10 <= |rows| ==> |page| == 10
    ensures index * 10 < |rows| < index * 10 + 10 ==> |page| == |rows| - index * 10
  {
    var start := index * 10;
    if start >= |rows| then [] else rows[start..Min(start + 10, |rows|)]
  }

  /** On a page the pager can reach, the "no rows" message shows only for an empty table. */
  lemma NoRowsOnlyWhenEmpty<T>(rows: seq<T>, index: nat)
    requires index < PageCount(|rows|)
    ensures PageSlice(rows, index) == [] <==> |rows| == 0
  {
    if |rows| > 0 {
      assert (index + 1) * 10 <= PageCount(|rows|) * 10;
    }
  }

  /** The pages 0 .. k-1, one after another. */
  function FirstPages<T>(rows: seq<T>, k: nat): seq<T>
  {
    if k == 0 then [] else FirstPages(rows, k - 1) + PageSlice(rows, k - 1)
  }

  lemma PageSliceBetween<T>(rows: seq<T>, k: nat)
    ensures PageSlice(rows, k) == rows[Min(k * 10, |rows|)..Min((k + 1) * 10, |rows|)]
  {
  }

  lemma {:induction false} FirstPagesPrefix<T>(rows: seq<T>, k: nat)
    ensures FirstPages(rows, k) == rows[..Min(k * 10, |rows|)]
  {
    if k > 0 {
      assert FirstPages(rows, k) == FirstPages(rows, k - 1) + PageSlice(rows, k - 1);
      FirstPagesPrefix(rows, k - 1);
      PageSliceBetween(rows, k - 1);
      var a, b := Min((k - 1) * 10, |rows|), Min(k * 10, |rows|);
      assert 0 <= a <= b <= |rows|;
      hide *;
      assert rows[..b] == rows[..a] + rows[a..b];
    }
  }

  /** Reading every page in order gives back the whole table: no row is skipped or shown twice. */
  lemma PagesCoverRows<T>(rows: seq<T>)
    ensures FirstPages(rows, PageCount(|rows|)) == rows
  {
    FirstPagesPrefix(rows, PageCount(|rows|));
  }

  /**
   * The click handler's closure: `rows`, `pageCount` and the mutable
   * `pageIndex`.
   */
  class SimTablePager<T> {
    const rows: seq<T>
    const pageCount: nat
    var pageIndex: int

    ghost predicate Valid()
      reads this
    {
      pageCount == PageCount(|rows|) && 0 <= pageIndex < pageCount
    }

    constructor (rows: seq<T>)
      ensures Valid() && this.rows == rows && pageIndex == 0
    {
      this.rows := rows;
      pageCount := PageCount(|rows|);
      pageIndex := 0;
    }

    /** The click handler: returns whether the table is re-rendered. */
    method Click(action: Action) returns (rerender: bool)
      requires Valid()
      modifies this
      ensures Valid()
      ensures rerender <==> !action.Other?
      ensures pageIndex == (if rerender then Clicked(action, old(pageIndex), pageCount).value else old(pageIndex))
    {
      match action {
        case First =>
          pageIndex := 0;
        case Prev =>
          pageIndex := Max(0, pageIndex - 1);
        case Next =>
          pageIndex := Min(pageCount - 1, pageIndex + 1);
        case Last =>
          pageIndex := pageCount - 1;
        case Page(p) =>
          if p.Some? {
            pageIndex := Min(pageCount - 1, Max(0, p.value - 1));
          }
        case Other =>
          return false;
      }
      return true;
    }

    /** The rows `renderSimPage` shows. */
    function Shown(): (page: seq<T>)
      reads this
      requires Valid()
      ensures page == [] <==> |rows| == 0
      ensures page == PageSlice(rows, pageIndex)
    {
      NoRowsOnlyWhenEmpty(rows, pageIndex);
      PageSlice(rows, pageIndex)
    }
  }

  // ---------------------------------------------------------------------
  // The numbered buttons
  // ---------------------------------------------------------------------

  datatype PagerItem = PageButton(number: int, active: bool) | Dots

  /** Buttons for pages lo .. hi, the current one marked active. */
  function Buttons(lo: int, hi: int, cur: int): (bs: seq<PagerItem>)
    ensures |bs| == Max(0, hi - lo + 1)
    ensures forall i :: 0 <= i < |bs| ==> bs[i] == PageButton(lo + i, lo + i == cur)
    decreases Max(0, hi - lo + 1)
  {
    if lo > hi then [] else [PageButton(lo, lo == cur)] + Buttons(lo + 1, hi, cur)
  }

  function WindowStart(cur: int): int { Max(1, cur - Radius) }
  function WindowEnd(cur: int, last: int): int { Min(last, cur + Radius) }

  /** What `pagerNumbersHTML` pushes before the window: page 1, then "…" when page 2 is outside it too. */
  function Leading(cur: int): (lead: seq<PagerItem>)
    ensures WindowStart(cur) == 1 ==> lead == []
    ensures WindowStart(cur) == 2 ==> lead == [PageButton(1, 1 == cur)]
    ensures WindowStart(cur) > 2 ==> lead == [PageButton(1, 1 == cur), Dots]
  {
    var start := WindowStart(cur);
    if start > 1 then [PageButton(1, 1 == cur)] + (if start > 2 then [Dots] else []) else []
  }

  /** What `pagerNumbersHTML` pushes after the window: "…" when the page before the last is outside it, then the last page. */
  function Trailing(cur: int, last: int): (trail: seq<PagerItem>)
    ensures WindowEnd(cur, last) >= last ==> trail == []
    ensures WindowEnd(cur, last) == last - 1 ==> trail == [PageButton(last, last == cur)]
    ensures WindowEnd(cur, last) < last - 1 ==> trail == [Dots, PageButton(last, last == cur)]
  {
    var end := WindowEnd(cur, last);
    if end < last then (if end < last - 1 then [Dots] else []) + [PageButton(last, last == cur)] else []
  }

  /** The buttons of `pagerNumbersHTML(pageIndex, pageCount)`, in order. */
  function PagerItems(pageIndex: int, pageCount: int): seq<PagerItem>
  {
    var cur := pageIndex + 1;
    Leading(cur) + Buttons(WindowStart(cur), WindowEnd(cur, pageCount), cur) + Trailing(cur, pageCount)
  }

  lemma ButtonsSnoc(lo: int, hi: int, cur: int)
    requires lo <= hi
    ensures Buttons(lo, hi, cur) == Buttons(lo, hi - 1, cur) + [PageButton(hi, hi == cur)]
  {
    hide Buttons;
    assert |Buttons(lo, hi, cur)| == |Buttons(lo, hi - 1, cur)| + 1;
  }

  /** The loop of `pagerNumbersHTML` that pushes the buttons of pages start .. end. */
  method ButtonRun(start: int, end: int, cur: int) returns (run: seq<PagerItem>)
    ensures run == Buttons(start, end, cur)
  {
    hide Buttons;
    run := [];
    var p := start;
    while p <= end
      invariant start <= p <= Max(start, end + 1)
      invariant run == Buttons(start, p - 1, cur)
    {
      ButtonsSnoc(start, p, cur);
      run := run + [PageButton(p, p == cur)];
      p := p + 1;
    }
  }

  /** lottery.js `pagerNumbersHTML`, without the markup. */
  method PagerNumbers(pageIndex: int, pageCount: int) returns (parts: seq<PagerItem>)
    ensures parts == PagerItems(pageIndex, pageCount)
  {
    var cur := pageIndex + 1;
    var last := pageCount;
    var start := Max(1, cur - Radius);
    var end := Min(last, cur + Radius);
    parts := [];
    if start > 1 {
      parts := parts + [PageButton(1, 1 == cur)];
      if start > 2 {
        parts := parts + [Dots];
      }
    }
    ghost var head := parts;
    assert head == Leading(cur);
    var run := ButtonRun(start, end, cur);
    parts := parts + run;
    ghost var body := parts;
    if end < last {
      if end < last - 1 {
        parts := parts + [Dots];
      }
      parts := parts + [PageButton(last, last == cur)];
    }
    assert parts == body + Trailing(cur, last);
    hide Leading;
    hide Trailing;
  }

  /** Some button of `items` opens page `p`. */
  predicate HasButton(items: seq<PagerItem>, p: int) {
    exists i :: 0 <= i < |items| && items[i].PageButton? && items[i].number == p
  }

  /**
   * Neighbouring buttons are consecutive pages, and "…" stands only
   * between two buttons that skip at least one page.
   */
  ghost predicate Chained(items: seq<PagerItem>) {
    && Consecutive(items)
    && (forall i :: 0 <= i < |items| && items[i].Dots? ==> 0 < i < |items| - 1)
    && (forall h, i, j :: 0 <= h && i == h + 1 && j == i + 1 && j < |items| && items[i].Dots? ==>
          items[h].PageButton? && items[j].PageButton? && items[h].number + 1 < items[j].number)
  }

  /** For a valid page index the pager starts at page 1 and ends at the last page. */
  lemma PagerEnds(pageIndex: int, pageCount: int)
    requires 0 <= pageIndex < pageCount
    ensures var items, cur := PagerItems(pageIndex, pageCount), pageIndex + 1;
      && |items| > 0
      && items[0] == PageButton(1, cur == 1)
      && items[|items| - 1] == PageButton(pageCount, cur == pageCount)
  {
    var cur := pageIndex + 1;
    var mid := Buttons(WindowStart(cur), WindowEnd(cur, pageCount), cur);
    assert |mid| > 0;
  }

  /**
   * Every button opens a page in [1, pageCount], exactly the current page's
   * button is active, and every page within 3 of the current one has a button.
   */
  lemma PagerButtons(pageIndex: int, pageCount: int)
    requires 0 <= pageIndex < pageCount
    ensures var items, cur := PagerItems(pageIndex, pageCount), pageIndex + 1;
      && (forall i :: 0 <= i < |items| && items[i].PageButton? ==>
            1 <= items[i].number <= pageCount && (items[i].active <==> items[i].number == cur))
      && (forall p :: WindowStart(cur) <= p <= WindowEnd(cur, pageCount) ==> HasButton(items, p))
  {
    var cur := pageIndex + 1;
    var lead, mid, trail := Leading(cur), Buttons(WindowStart(cur), WindowEnd(cur, pageCount), cur), Trailing(cur, pageCount);
    var items := lead + mid + trail;
    forall p | WindowStart(cur) <= p <= WindowEnd(cur, pageCount)
      ensures HasButton(items, p)
    {
      assert items[|lead| + (p - WindowStart(cur))].number == p;
    }
  }

  /** Neighbouring buttons are consecutive pages. */
  ghost predicate Consecutive(items: seq<PagerItem>) {
    forall i, j :: 0 <= i && j == i + 1 && j < |items| && items[i].PageButton? && items[j].PageButton? ==>
      items[j].number == items[i].number + 1
  }

  lemma ConsecutiveConcat(x: seq<PagerItem>, y: seq<PagerItem>)
    requires Consecutive(x) && Consecutive(y)
    requires |x| > 0 && |y| > 0 && x[|x| - 1].PageButton? && y[0].PageButton? ==>
      y[0].number == x[|x| - 1].number + 1
    ensures Consecutive(x + y)
  {
    var xy := x + y;
    forall i, j | 0 <= i && j == i + 1 && j < |xy| && xy[i].PageButton? && xy[j].PageButton?
      ensures xy[j].number == xy[i].number + 1
    {
      if j < |x| {
        assert xy[i] == x[i] && xy[j] == x[j];
      } else if j == |x| {
        assert xy[i] == x[|x| - 1] && xy[j] == y[0];
      } else {
        assert xy[i] == y[i - |x|] && xy[j] == y[j - |x|];
      }
    }
  }

  lemma LeadingConsecutive(cur: int)
    ensures var lead := Leading(cur);
      Consecutive(lead) && (|lead| > 0 && lead[|lead| - 1].PageButton? ==> lead[|lead| - 1].number + 1 == WindowStart(cur))
  {
  }

  lemma ButtonsConsecutive(lo: int, hi: int, cur: int)
    requires lo <= hi
    ensures var mid := Buttons(lo, hi, cur);
      && Consecutive(mid) && |mid| > 0
      && mid[0].PageButton? && mid[0].number == lo
      && mid[|mid| - 1].PageButton? && mid[|mid| - 1].number == hi
  {
  }

  lemma TrailingConsecutive(cur: int, last: int)
    ensures var trail := Trailing(cur, last);
      Consecutive(trail) && (|trail| > 0 && trail[0].PageButton? ==> trail[0].number == WindowEnd(cur, last) + 1)
  {
  }

  /** Neighbouring buttons of the pager are consecutive pages. */
  lemma PagerConsecutive(pageIndex: int, pageCount: int)
    requires 0 <= pageIndex < pageCount
    ensures Consecutive(PagerItems(pageIndex, pageCount))
  {
    var cur := pageIndex + 1;
    var start, end := WindowStart(cur), WindowEnd(cur, pageCount);
    assert start <= end;
    var lead, mid, trail := Leading(cur), Buttons(start, end, cur), Trailing(cur, pageCount);
    assert PagerItems(pageIndex, pageCount) == (lead + mid) + trail;
    hide *;
    LeadingConsecutive(cur);
    ButtonsConsecutive(start, end, cur);
    TrailingConsecutive(cur, pageCount);
    ConsecutiveConcat(lead, mid);
    assert (lead + mid)[|lead + mid| - 1] == mid[|mid| - 1];
    ConsecutiveConcat(lead + mid, trail);
  }

  /**
   * Where "…" can appear: second, when page 2 lies left of the window, and
   * second to last, when the page before the last lies right of it.
   */
  lemma PagerDotsAt(pageIndex: int, pageCount: int)
    requires 0 <= pageIndex < pageCount
    ensures var items, cur := PagerItems(pageIndex, pageCount), pageIndex + 1;
      var start, end := WindowStart(cur), WindowEnd(cur, pageCount);
      && (forall i :: 0 <= i < |items| && items[i].Dots? ==>
            (i == 1 && start > 2) || (i == |items| - 2 && end < pageCount - 1))
      && (start > 2 ==> |items| > 2 && items[0].PageButton? && items[0].number == 1 && items[2].PageButton? && items[2].number == start)
      && (end < pageCount - 1 ==>
            |items| > 2 && items[|items| - 1].PageButton? && items[|items| - 1].number == pageCount &&
            items[|items| - 3].PageButton? && items[|items| - 3].number == end)
  {
    var cur := pageIndex + 1;
    var start, end := WindowStart(cur), WindowEnd(cur, pageCount);
    var lead, mid, trail := Leading(cur), Buttons(start, end, cur), Trailing(cur, pageCount);
    var items := lead + mid + trail;
    assert |mid| > 0 && mid[0].number == start && mid[|mid| - 1].number == end;
    assert PagerItems(pageIndex, pageCount) == items;
    forall i | 0 <= i < |items| && items[i].Dots?
      ensures (i == 1 && start > 2) || (i == |items| - 2 && end < pageCount - 1)
    {
      if |lead| + |mid| <= i {
        assert items[i] == trail[i - |lead| - |mid|];
      }
    }
    if start > 2 {
      assert items[2] == mid[0];
    }
    if end < pageCount - 1 {
      assert items[|items| - 3] == mid[|mid| - 1];
    }
  }

  /** "…" stands only between two buttons that skip at least one page. */
  lemma PagerDots(pageIndex: int, pageCount: int)
    requires 0 <= pageIndex < pageCount
    ensures var items := PagerItems(pageIndex, pageCount);
      && (forall i :: 0 <= i < |items| && items[i].Dots? ==> 0 < i < |items| - 1)
      && (forall h, i, j :: 0 <= h && i == h + 1 && j == i + 1 && j < |items| && items[i].Dots? ==>
            items[h].PageButton? && items[j].PageButton? && items[h].number + 1 < items[j].number)
  {
    PagerDotsAt(pageIndex, pageCount);
  }

  /** The pager's buttons and dots are chained: no page is skipped without "…". */
  lemma PagerChained(pageIndex: int, pageCount: int)
    requires 0 <= pageIndex < pageCount
    ensures Chained(PagerItems(pageIndex, pageCount))
  {
    PagerConsecutive(pageIndex, pageCount);
    PagerDots(pageIndex, pageCount);
  }
}
