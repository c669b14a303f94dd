/** The page bar under the record list: a sliding window of page numbers with
    `...` markers for the pages it leaves out, and the first/previous/next/last
    buttons. Pages are numbered from 1; `t` is the number of pages and `c` the
    current page. */
module Pagination {
  import opened Wrappers

  /** One entry of `getPageNumbers`: a page button or the `'...'` marker. */
  datatype PageItem = Page(n: int) | Ellipsis

  function Max(a: int, b: int): int {
    if a < b then b else a
  }

  function Min(a: int, b: int): int {
    if a < b then a else b
  }

  /** `start`: one before the current page, moved back so that three pages show
      when the current page is among the last three. */
  function WindowStart(c: int, t: int): int {
    if c >= t - 2 then Max(2, t - 3) else Max(2, c - 1)
  }

  /** `end`: one after the current page, moved on to page 4 when the current page
      is among the first three. */
  function WindowEnd(c: int, t: int): int {
    if c <= 3 then Min(4, t - 1) else Min(t - 1, c + 1)
  }

  /** The pages `a..b` the `for` loop pushes, none when `a > b`. */
  function Run(a: int, b: int): seq<PageItem> {
    seq(if a <= b then b - a + 1 else 0, i => Page(a + i))
  }

  /** `getPageNumbers()`. */
  function PageNumbers(c: int, t: int): seq<PageItem> {
    var s := WindowStart(c, t);
    var e := WindowEnd(c, t);
    [Page(1)]
    + (if s > 2 then [Ellipsis] else [])
    + Run(s, e)
    + (if e < t - 1 then [Ellipsis] else [])
    + (if t > 1 then [Page(t)] else [])
  }

  /** The component renders nothing for a single page or none. */
  function Render(c: int, t: int): (r: Option<seq<PageItem>>)
    ensures r.None? <==> t <= 1
    ensures r.Some? ==> r.value == PageNumbers(c, t)
  {
    if t <= 1 then None else Some(PageNumbers(c, t))
  }

  // ---------------------------------------------------------------------------
  // The window by position

  function LeftGap(c: int, t: int): nat {
    if WindowStart(c, t) > 2 then 1 else 0
  }

  function RightGap(c: int, t: int): nat {
    if WindowEnd(c, t) < t - 1 then 1 else 0
  }

  function Middle(c: int, t: int): nat {
    if WindowStart(c, t) <= WindowEnd(c, t) then WindowEnd(c, t) - WindowStart(c, t) + 1 else 0
  }

  function Length(c: int, t: int): nat {
    2 + LeftGap(c, t) + Middle(c, t) + RightGap(c, t)
  }

  /** What stands at position `i` of the bar: page 1, an optional marker, the
      middle pages, an optional marker, the last page. */
  function Slot(c: int, t: int, i: int): PageItem {
    var l := LeftGap(c, t);
    var m := Middle(c, t);
    if i <= 0 then Page(1)
    else if i < 1 + l then Ellipsis
    else if i < 1 + l + m then Page(WindowStart(c, t) + i - 1 - l)
    else if i < 1 + l + m + RightGap(c, t) then Ellipsis
    else Page(t)
  }

  /** The window lies strictly between the first and last page, holds at most
      three pages, is empty only with two pages, and a marker is never next to an
      empty window. */
  lemma WindowBounds(c: int, t: int)
    requires t >= 2
    ensures 2 <= WindowStart(c, t) && WindowEnd(c, t) <= t - 1
    ensures WindowEnd(c, t) - WindowStart(c, t) <= 2
    ensures WindowStart(c, t) <= WindowEnd(c, t) + 1
    ensures WindowStart(c, t) > WindowEnd(c, t) ==> t == 2
    ensures 1 <= c <= t ==> c == 1 || c == t || WindowStart(c, t) <= c <= WindowEnd(c, t)
  {
  }

  /** The pushed list is the positional description above. */
  lemma PageNumbersBySlot(c: int, t: int)
    requires t >= 2
    ensures PageNumbers(c, t) == seq(Length(c, t), i => Slot(c, t, i))
  {
    var r := PageNumbers(c, t);
    SegmentLengths(c, t);
    forall i | 0 <= i < |r| ensures r[i] == Slot(c, t, i) {
      EntryAt(c, t, i);
    }
  }

  /** The five pushed segments, and their lengths. */
  lemma SegmentLengths(c: int, t: int)
    requires t >= 2
    ensures |PageNumbers(c, t)| == Length(c, t)
    ensures |Run(WindowStart(c, t), WindowEnd(c, t))| == Middle(c, t)
  {
    WindowBounds(c, t);
  }

  lemma EntryAt(c: int, t: int, i: int)
    requires t >= 2 && 0 <= i < Length(c, t)
    ensures |PageNumbers(c, t)| == Length(c, t)
    ensures PageNumbers(c, t)[i] == Slot(c, t, i)
  {
    SegmentLengths(c, t);
    var s := WindowStart(c, t);
    var e := WindowEnd(c, t);
    var l := LeftGap(c, t);
    var m := Middle(c, t);
    var a := [Page(1)] + (if s > 2 then [Ellipsis] else []);
    var b := a + Run(s, e);
    var d := b + (if e < t - 1 then [Ellipsis] else []);
    assert PageNumbers(c, t) == d + [Page(t)];
    assert |a| == 1 + l && |b| == 1 + l + m && |d| == 1 + l + m + RightGap(c, t);
    if i < |a| {
      assert PageNumbers(c, t)[i] == d[i] == b[i] == a[i];
    } else if i < |b| {
      assert PageNumbers(c, t)[i] == d[i] == b[i] == Run(s, e)[i - |a|];
    } else if i < |d| {
      assert PageNumbers(c, t)[i] == d[i] == Ellipsis;
    } else {
      assert PageNumbers(c, t)[i] == Page(t);
    }
  }

  /** The bar starts at page 1, ends at the last page, and has at most seven
      entries: `1 … [c-1] [c] [c+1] … t`. */
  lemma {:induction false} PageNumbersEnds(c: int, t: int)
    requires t >= 2
    ensures |PageNumbers(c, t)| <= 7
    ensures PageNumbers(c, t)[0] == Page(1)
    ensures PageNumbers(c, t)[|PageNumbers(c, t)| - 1] == Page(t)
  {
    PageNumbersBySlot(c, t);
    WindowBounds(c, t);
  }

  /** The page numbers shown rise strictly and lie in `1..t`. */
  lemma {:induction false} PageNumbersIncrease(c: int, t: int)
    requires t >= 2
    ensures forall i :: 0 <= i < |PageNumbers(c, t)| && PageNumbers(c, t)[i].Page? ==>
      1 <= PageNumbers(c, t)[i].n <= t
    ensures forall i, j ::
      (0 <= i < j < |PageNumbers(c, t)| && PageNumbers(c, t)[i].Page? && PageNumbers(c, t)[j].Page?) ==>
      PageNumbers(c, t)[i].n < PageNumbers(c, t)[j].n
  {
    PageNumbersBySlot(c, t);
    var r := PageNumbers(c, t);
    forall i | 0 <= i < |r| && r[i].Page? ensures 1 <= r[i].n <= t {
      assert r[i] == Slot(c, t, i);
      SlotRange(c, t, i);
    }
    forall i, j | 0 <= i < j < |r| && r[i].Page? && r[j].Page? ensures r[i].n < r[j].n {
      assert r[i] == Slot(c, t, i) && r[j] == Slot(c, t, j);
      SlotIncrease(c, t, i, j);
    }
  }

  lemma SlotRange(c: int, t: int, i: int)
    requires t >= 2 && 0 <= i < Length(c, t) && Slot(c, t, i).Page?
    ensures 1 <= Slot(c, t, i).n <= t
  {
    WindowBounds(c, t);
  }

  lemma SlotIncrease(c: int, t: int, i: int, j: int)
    requires t >= 2 && 0 <= i < j < Length(c, t) && Slot(c, t, i).Page? && Slot(c, t, j).Page?
    ensures Slot(c, t, i).n < Slot(c, t, j).n
  {
    WindowBounds(c, t);
  }

  /** Neighbouring page buttons are consecutive pages. */
  lemma {:induction false} NeighboursConsecutive(c: int, t: int)
    requires t >= 2
    ensures forall i ::
      (0 <= i < |PageNumbers(c, t)| - 1 && PageNumbers(c, t)[i].Page? && PageNumbers(c, t)[i + 1].Page?) ==>
      PageNumbers(c, t)[i + 1].n == PageNumbers(c, t)[i].n + 1
  {
    PageNumbersBySlot(c, t);
    var r := PageNumbers(c, t);
    forall i | 0 <= i < |r| - 1 && r[i].Page? && r[i + 1].Page? ensures r[i + 1].n == r[i].n + 1 {
      assert r[i] == Slot(c, t, i) && r[i + 1] == Slot(c, t, i + 1);
      SlotNext(c, t, i);
    }
  }

  /** A marker always stands between two page buttons that are not consecutive:
      `...` appears exactly where pages are left out, never at an end and never
      twice in a row. */
  lemma {:induction false} MarkersMarkGaps(c: int, t: int)
    requires t >= 2
    ensures forall i :: 0 <= i < |PageNumbers(c, t)| && PageNumbers(c, t)[i].Ellipsis? ==>
      0 < i < |PageNumbers(c, t)| - 1 &&
      PageNumbers(c, t)[i - 1].Page? && PageNumbers(c, t)[i + 1].Page? &&
      PageNumbers(c, t)[i - 1].n + 1 < PageNumbers(c, t)[i + 1].n
  {
    PageNumbersBySlot(c, t);
    var r := PageNumbers(c, t);
    forall i | 0 <= i < |r| && r[i].Ellipsis?
      ensures 0 < i < |r| - 1 && r[i - 1].Page? && r[i + 1].Page? && r[i - 1].n + 1 < r[i + 1].n
    {
      assert r[i] == Slot(c, t, i);
      SlotGap(c, t, i);
      assert r[i - 1] == Slot(c, t, i - 1) && r[i + 1] == Slot(c, t, i + 1);
    }
  }

  lemma SlotNext(c: int, t: int, i: int)
    requires t >= 2 && 0 <= i < Length(c, t) - 1 && Slot(c, t, i).Page? && Slot(c, t, i + 1).Page?
    ensures Slot(c, t, i + 1).n == Slot(c, t, i).n + 1
  {
    WindowBounds(c, t);
  }

  lemma SlotGap(c: int, t: int, i: int)
    requires t >= 2 && 0 <= i < Length(c, t) && Slot(c, t, i).Ellipsis?
    ensures 0 < i < Length(c, t) - 1
    ensures Slot(c, t, i - 1).Page? && Slot(c, t, i + 1).Page?
    ensures Slot(c, t, i - 1).n + 1 < Slot(c, t, i + 1).n
  {
    WindowBounds(c, t);
  }

  /** Every page is either shown or falls inside a gap marked by `...`; the
      current page is always shown. */
  lemma {:induction false} PageNumbersCover(c: int, t: int, k: int)
    requires t >= 2 && 1 <= k <= t
    ensures (k == c ==> Page(k) in PageNumbers(c, t))
    ensures Page(k) in PageNumbers(c, t) ||
      exists i :: 0 < i < |PageNumbers(c, t)| - 1 && PageNumbers(c, t)[i] == Ellipsis &&
        PageNumbers(c, t)[i - 1].n < k < PageNumbers(c, t)[i + 1].n
  {
    WindowBounds(c, t);
    var s := WindowStart(c, t);
    var e := WindowEnd(c, t);
    if k == 1 || k == t || s <= k <= e {
      ShownPage(c, t, k);
    } else {
      HiddenPage(c, t, k);
    }
  }

  /** Page 1, the last page and the window are on the bar. */
  lemma ShownPage(c: int, t: int, k: int)
    requires t >= 2 && 1 <= k <= t
    requires k == 1 || k == t || WindowStart(c, t) <= k <= WindowEnd(c, t)
    ensures Page(k) in PageNumbers(c, t)
  {
    WindowBounds(c, t);
    var l := LeftGap(c, t);
    var i := if k == 1 then 0 else if k == t then Length(c, t) - 1 else 1 + l + k - WindowStart(c, t);
    SlotAt(c, t, i);
  }

  /** A page outside the window stands inside the gap a marker fills. */
  lemma HiddenPage(c: int, t: int, k: int)
    requires t >= 2 && 1 < k < t
    requires !(WindowStart(c, t) <= k <= WindowEnd(c, t))
    ensures exists i :: (0 < i < |PageNumbers(c, t)| - 1 && PageNumbers(c, t)[i] == Ellipsis &&
      PageNumbers(c, t)[i - 1].n < k < PageNumbers(c, t)[i + 1].n)
  {
    WindowBounds(c, t);
    var l := LeftGap(c, t);
    var m := Middle(c, t);
    var i := if k < WindowStart(c, t) then 1 else 1 + l + m;
    SlotAt(c, t, i - 1);
    SlotAt(c, t, i);
    SlotAt(c, t, i + 1);
    assert PageNumbers(c, t)[i] == Ellipsis;
  }

  lemma SlotAt(c: int, t: int, i: int)
    requires t >= 2 && 0 <= i < Length(c, t)
    ensures |PageNumbers(c, t)| == Length(c, t)
    ensures PageNumbers(c, t)[i] == Slot(c, t, i)
  {
    PageNumbersBySlot(c, t);
  }

  // ---------------------------------------------------------------------------
  // Navigation buttons

  datatype Button = FirstPage | PreviousPage | NextPage | LastPage

  /** The page a button asks for, or `None` when it is disabled. */
  function Target(b: Button, c: int, t: int): (r: Option<int>)
    ensures 1 <= c <= t && r.Some? ==> 1 <= r.value <= t
    ensures r.None? <==> ((b.FirstPage? || b.PreviousPage?) && c == 1) || ((b.NextPage? || b.LastPage?) && c == t)
    ensures 1 < c <= t && b.PreviousPage? ==> r == Some(c - 1)
    ensures 1 <= c < t && b.NextPage? ==> r == Some(c + 1)
  {
    match b
    case FirstPage => if c == 1 then None else Some(1)
    case PreviousPage => if c == 1 then None else Some(Max(1, c - 1))
    case NextPage => if c == t then None else Some(Min(t, c + 1))
    case LastPage => if c == t then None else Some(t)
  }

  /** The numbered button drawn as current (`currentPage === page`) is on the bar
      exactly once. */
  lemma CurrentHighlightedOnce(c: int, t: int)
    requires t >= 2 && 1 <= c <= t
    ensures exists i :: 0 <= i < |PageNumbers(c, t)| && PageNumbers(c, t)[i] == Page(c)
    ensures forall i, j :: 0 <= i < j < |PageNumbers(c, t)| && PageNumbers(c, t)[i] == Page(c) ==>
      PageNumbers(c, t)[j] != Page(c)
  {
    PageNumbersCover(c, t, c);
    PageNumbersIncrease(c, t);
  }
}
