/** The Calendar controller: the month on display, the selected day and the
    positions currently marked `inRange`. The rendered grid is not stored:
    every render recomputes it from (shown, selected), and `View` is that
    grid. The `onMonthDisplayed` and `onDateSelected` notifications are left
    to the caller: `SelectDate` reports whether the month changed, and the
    date picker runs the handlers bound to both events. */
module Calendars {
  import opened Dates
  import opened CalendarGrid
  import opened Highlight

  datatype Calendar = Calendar(shown: YearMonth, selected: ValidDate, marks: set<nat>)

  /** The constructor: display the month of the selected day; nothing is
      rendered yet, so nothing is marked. */
  function NewCalendar(selected: ValidDate): (c: Calendar)
    ensures c.selected == selected && c.marks == {}
    ensures First(c.shown) == Date(selected.year, selected.month, 1)
  {
    Calendar(MonthOf(selected), selected, {})
  }

  /** The grid the calendar currently displays. */
  function View(rules: Rules, c: Calendar): Grid {
    BuildGrid(rules, c.shown, c.selected)
  }

  /** `render`: replacing the markup drops every `inRange` mark. */
  function Render(c: Calendar): Calendar {
    c.(marks := {})
  }

  /** `showMonth(year, month)`: display the 1st of that month and re-render.
      The selected day is kept even when it is not in that month. */
  function ShowMonth(c: Calendar, m: YearMonth): (r: Calendar)
    ensures r.shown == m && r.selected == c.selected && r.marks == {}
  {
    Render(c.(shown := m))
  }

  /** `highlightCells(s, e)`: the old marks are replaced by the new ones. */
  function HighlightOn(rules: Rules, c: Calendar, s: ValidDate, e: ValidDate): (r: Calendar)
    ensures r.shown == c.shown && r.selected == c.selected
    ensures forall k :: k in r.marks ==> k < |View(rules, r).cells|
  {
    c.(marks := HighlightCells(rules, View(rules, c), s, e))
  }

  /** `updateSelectedDate(d)` up to its `onDateSelected` trigger: select d,
      and show d's month when month or year differ from the displayed one.
      The flag says whether `showMonth` ran and fired `onMonthDisplayed`.
      The selected class patch that follows is `PatchSelected`. */
  function SelectDate(c: Calendar, d: ValidDate): (r: (Calendar, bool))
    ensures r.0.selected == d && r.0.shown == MonthOf(d)
    ensures r.1 <==> d.month != c.shown.index || d.year != c.shown.year
    ensures r.0.marks == if r.1 then {} else c.marks
  {
    var c1 := c.(selected := d);
    if MonthOf(d) != c.shown then (ShowMonth(c1, MonthOf(d)), true) else (c1, false)
  }

  /** The class patch at the end of `updateSelectedDate`: every `selected`
      class is removed, then added to the cells that show d. */
  function PatchSelected(g: Grid, d: Date): Grid {
    Grid(g.shown, seq(|g.cells|, i requires 0 <= i < |g.cells| =>
      g.cells[i].(selected := g.cells[i].date == d)))
  }

  /** Once d's month is on display, patching the `selected` class onto a
      grid rendered for any earlier selection gives exactly the grid a
      fresh render for d would: the model may keep only the selected day. */
  lemma PatchIsRender(rules: Rules, m: YearMonth, prev: Date, d: ValidDate)
    requires MonthOf(d) == m
    ensures PatchSelected(BuildGrid(rules, m, prev), d) == BuildGrid(rules, m, d)
  {
    var g, h := BuildGrid(rules, m, prev), BuildGrid(rules, m, d);
    var p := PatchSelected(g, d);
    forall i | 0 <= i < |h.cells|
      ensures p.cells[i] == h.cells[i]
    {
      CellRegion(rules, m, prev, i);
      CellRegion(rules, m, d, i);
    }
  }

  /** After `updateSelectedDate(d)` the calendar shows d's month with d's
      cell selected, whatever it displayed before. */
  lemma SelectDateView(rules: Rules, c: Calendar, d: ValidDate)
    ensures View(rules, SelectDate(c, d).0) ==
      PatchSelected(BuildGrid(rules, MonthOf(d), if SelectDate(c, d).1 then d else c.selected), d)
  {
    if SelectDate(c, d).1 {
      PatchIsRender(rules, MonthOf(d), d, d);
    } else {
      PatchIsRender(rules, MonthOf(d), c.selected, d);
    }
  }

  /** Selecting the same day again changes nothing and shows no month. */
  lemma SelectDateIdempotent(c: Calendar, d: ValidDate)
    ensures SelectDate(SelectDate(c, d).0, d) == (SelectDate(c, d).0, false)
  {
  }

  /** `onNextClicked`: moment's `add('months', 1)` on the displayed 1st. */
  function NextClicked(c: Calendar): (r: Calendar)
    ensures MonthNumber(r.shown) == MonthNumber(c.shown) + 1
    ensures r.selected == c.selected && r.marks == {}
  {
    ShowMonth(c, MonthOf(AddMonths(First(c.shown), 1)))
  }

  /** `onPreviousClicked`: moment's `subtract('months', 1)` on the displayed 1st. */
  function PreviousClicked(c: Calendar): (r: Calendar)
    ensures MonthNumber(r.shown) == MonthNumber(c.shown) - 1
    ensures r.selected == c.selected && r.marks == {}
  {
    ShowMonth(c, MonthOf(AddMonths(First(c.shown), -1)))
  }

  /** Next and previous are the calendar months either side, with the year
      rolling over, and each undoes the other. */
  lemma NextPreviousInverse(c: Calendar)
    ensures NextClicked(c).shown == NextMonth(c.shown)
    ensures PreviousClicked(c).shown == PrevMonth(c.shown)
    ensures PreviousClicked(NextClicked(c)).shown == c.shown
    ensures NextClicked(PreviousClicked(c)).shown == c.shown
  {
    MonthNumberInjective(NextClicked(c).shown, NextMonth(c.shown));
    MonthNumberInjective(PreviousClicked(c).shown, PrevMonth(c.shown));
    MonthNumberInjective(PreviousClicked(NextClicked(c)).shown, c.shown);
    MonthNumberInjective(NextClicked(PreviousClicked(c)).shown, c.shown);
  }
}
