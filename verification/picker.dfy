/** The DateRangePicker coordinator: a start calendar and an end calendar
    whose selected days are the range. The picker's listeners on the
    calendars' `onDateSelected` and `onMonthDisplayed` events run
    synchronously inside `updateSelectedDate`, so a correction made by one
    handler re-enters the other; that re-entry is written here as direct
    calls between the handlers. Every handler returns the new picker and the
    picker events it fired, in order. */
module Picker {
  import opened Dates
  import opened Wrappers
  import opened CalendarGrid
  import opened Highlight
  import opened Calendars

  datatype Side = StartSide | EndSide

  datatype Range = Range(start: ValidDate, end: ValidDate)

  /** The events the picker fires; each carries its (startDate, endDate) payload. */
  datatype PickerEvent =
    | StartDateSelected(range: Range)
    | EndDateSelected(range: Range)
    | RangeSelected(range: Range)

  datatype DateRangePicker = DateRangePicker(rules: Rules, startCal: Calendar, endCal: Calendar)

  /** `getStartDate` and `getEndDate`: the calendars' selected days. */
  function StartDate(p: DateRangePicker): ValidDate { p.startCal.selected }
  function EndDate(p: DateRangePicker): ValidDate { p.endCal.selected }

  function CalendarOf(p: DateRangePicker, side: Side): Calendar {
    if side == StartSide then p.startCal else p.endCal
  }

  function WithCalendar(p: DateRangePicker, side: Side, c: Calendar): DateRangePicker {
    if side == StartSide then p.(startCal := c) else p.(endCal := c)
  }

  /** What every handler restores: start on or before end, and each
      calendar's marks are the highlight of the range on its own grid. */
  predicate Consistent(p: DateRangePicker) {
    && !After(StartDate(p), EndDate(p))
    && p.startCal.marks == HighlightCells(p.rules, View(p.rules, p.startCal), StartDate(p), EndDate(p))
    && p.endCal.marks == HighlightCells(p.rules, View(p.rules, p.endCal), StartDate(p), EndDate(p))
  }

  /** `_updateStartCalendarHighlight` / `_updateEndCalendarHighlight`: the
      handler bound to that calendar's `onMonthDisplayed`. */
  function UpdateHighlight(p: DateRangePicker, side: Side): (r: DateRangePicker)
    ensures r.rules == p.rules && StartDate(r) == StartDate(p) && EndDate(r) == EndDate(p)
    ensures CalendarOf(r, side).shown == CalendarOf(p, side).shown
    ensures CalendarOf(r, side).marks ==
      HighlightCells(p.rules, View(p.rules, CalendarOf(p, side)), StartDate(p), EndDate(p))
    ensures side == StartSide ==> r.endCal == p.endCal
    ensures side == EndSide ==> r.startCal == p.startCal
  {
    WithCalendar(p, side, HighlightOn(p.rules, CalendarOf(p, side), StartDate(p), EndDate(p)))
  }

  /** `_highlightRange(s, e)`: highlight both calendars, unless s is after e. */
  function HighlightRange(p: DateRangePicker, s: ValidDate, e: ValidDate): (r: DateRangePicker)
    ensures After(s, e) ==> r == p
    ensures !After(s, e) ==>
      && r.startCal.marks == HighlightCells(p.rules, View(p.rules, p.startCal), s, e)
      && r.endCal.marks == HighlightCells(p.rules, View(p.rules, p.endCal), s, e)
    ensures r.rules == p.rules
    ensures View(r.rules, r.startCal) == View(p.rules, p.startCal) && r.startCal.selected == p.startCal.selected
    ensures View(r.rules, r.endCal) == View(p.rules, p.endCal) && r.endCal.selected == p.endCal.selected
  {
    if After(s, e) then p
    else p.(startCal := HighlightOn(p.rules, p.startCal, s, e),
            endCal := HighlightOn(p.rules, p.endCal, s, e))
  }

  /** `updateSelectedDate(d)` on one calendar, up to its `onDateSelected`
      trigger: select d, and when its month was not on display show it,
      which re-renders and runs that calendar's highlight handler. */
  function SelectOn(p: DateRangePicker, side: Side, d: ValidDate): (r: DateRangePicker)
    ensures r.rules == p.rules && CalendarOf(r, side).selected == d
    ensures CalendarOf(r, side).shown == MonthOf(d)
    ensures side == StartSide ==> r.endCal == p.endCal
    ensures side == EndSide ==> r.startCal == p.startCal
  {
    var (c, displayed) := SelectDate(CalendarOf(p, side), d);
    var p1 := WithCalendar(p, side, c);
    if displayed then UpdateHighlight(p1, side) else p1
  }

  /** The events of selecting start d while the end is e: when d is after e,
      the nested end correction fires `endDateSelected` with (d, d) first;
      then `startDateSelected` fires with d and the end read before the
      correction. */
  function StartSelectionEvents(d: ValidDate, e: ValidDate): seq<PickerEvent> {
    (if After(d, e) then [EndDateSelected(Range(d, d))] else []) + [StartDateSelected(Range(d, e))]
  }

  /** The events of selecting end d while the start is s, symmetrically. */
  function EndSelectionEvents(s: ValidDate, d: ValidDate): seq<PickerEvent> {
    (if After(s, d) then [StartDateSelected(Range(d, d))] else []) + [EndDateSelected(Range(s, d))]
  }

  // ---------------------------------------------------------------------
  // The selection handlers. Selecting a start after the end moves the end
  // calendar to that day, which re-enters `OnEndDateSelected`; there the
  // two days are equal, so no further correction happens. The rank in the
  // decreases clauses is that nesting depth.

  /** `startCalendar.updateSelectedDate(d)`, including the picker's
      `onStartDateSelected` it triggers. */
  function UpdateStartCalendar(p: DateRangePicker, d: ValidDate): (r: (DateRangePicker, seq<PickerEvent>))
    ensures r.0.rules == p.rules
    ensures StartDate(r.0) == d
    ensures EndDate(r.0) == if After(d, EndDate(p)) then d else EndDate(p)
    ensures r.0.startCal.shown == MonthOf(d)
    ensures r.0.endCal.shown == if After(d, EndDate(p)) then MonthOf(d) else p.endCal.shown
    ensures Consistent(r.0)
    ensures r.1 == StartSelectionEvents(d, EndDate(p))
    decreases if After(d, EndDate(p)) then 3 else 1
  {
    OnStartDateSelected(SelectOn(p, StartSide, d), d)
  }

  /** `onStartDateSelected({date: d})`: the end read before any correction is
      the one the `startDateSelected` payload carries. */
  function OnStartDateSelected(p: DateRangePicker, d: ValidDate): (r: (DateRangePicker, seq<PickerEvent>))
    requires StartDate(p) == d
    ensures r.0.rules == p.rules
    ensures StartDate(r.0) == d
    ensures EndDate(r.0) == if After(d, EndDate(p)) then d else EndDate(p)
    ensures r.0.startCal.shown == p.startCal.shown
    ensures r.0.endCal.shown == if After(d, EndDate(p)) then MonthOf(d) else p.endCal.shown
    ensures Consistent(r.0)
    ensures r.1 == StartSelectionEvents(d, EndDate(p))
    decreases if After(d, EndDate(p)) then 2 else 0
  {
    var endDate := EndDate(p);
    var (p1, events) := if After(d, endDate) then UpdateEndCalendar(p, d) else (p, []);
    (HighlightRange(p1, d, endDate), events + [StartDateSelected(Range(d, endDate))])
  }

  /** `endCalendar.updateSelectedDate(d)`, including the picker's
      `onEndDateSelected` it triggers. */
  function UpdateEndCalendar(p: DateRangePicker, d: ValidDate): (r: (DateRangePicker, seq<PickerEvent>))
    ensures r.0.rules == p.rules
    ensures EndDate(r.0) == d
    ensures StartDate(r.0) == if After(StartDate(p), d) then d else StartDate(p)
    ensures r.0.endCal.shown == MonthOf(d)
    ensures r.0.startCal.shown == if After(StartDate(p), d) then MonthOf(d) else p.startCal.shown
    ensures Consistent(r.0)
    ensures r.1 == EndSelectionEvents(StartDate(p), d)
    decreases if After(StartDate(p), d) then 3 else 1
  {
    OnEndDateSelected(SelectOn(p, EndSide, d), d)
  }

  /** `onEndDateSelected({date: d})`: the start read before any correction is
      the one the `endDateSelected` payload carries. */
  function OnEndDateSelected(p: DateRangePicker, d: ValidDate): (r: (DateRangePicker, seq<PickerEvent>))
    requires EndDate(p) == d
    ensures r.0.rules == p.rules
    ensures EndDate(r.0) == d
    ensures StartDate(r.0) == if After(StartDate(p), d) then d else StartDate(p)
    ensures r.0.endCal.shown == p.endCal.shown
    ensures r.0.startCal.shown == if After(StartDate(p), d) then MonthOf(d) else p.startCal.shown
    ensures Consistent(r.0)
    ensures r.1 == EndSelectionEvents(StartDate(p), d)
    decreases if After(StartDate(p), d) then 2 else 0
  {
    var startDate := StartDate(p);
    var (p1, events) := if After(startDate, d) then UpdateStartCalendar(p, d) else (p, []);
    (HighlightRange(p1, startDate, d), events + [EndDateSelected(Range(startDate, d))])
  }

  // ---------------------------------------------------------------------
  // User actions.

  /** `onDayClicked` on one calendar: the clicked cell's date is selected,
      grey cells of the neighbouring months included. */
  function OnDayClicked(p: DateRangePicker, side: Side, k: nat): (r: (DateRangePicker, seq<PickerEvent>))
    requires k < 7 * Weeks(p.rules, CalendarOf(p, side).shown)
    ensures CalendarOf(r.0, side).selected == View(p.rules, CalendarOf(p, side)).cells[k].date
    ensures CalendarOf(r.0, side).shown == MonthOf(View(p.rules, CalendarOf(p, side)).cells[k].date)
    ensures Consistent(r.0)
    ensures |r.1| == 1 || |r.1| == 2
    ensures var d := View(p.rules, CalendarOf(p, side)).cells[k].date;
      side == StartSide ==>
        StartDate(r.0) == d
        && EndDate(r.0) == (if After(d, EndDate(p)) then d else EndDate(p))
        && r.0.endCal.shown == (if After(d, EndDate(p)) then MonthOf(d) else p.endCal.shown)
        && r.1 == StartSelectionEvents(d, EndDate(p))
    ensures var d := View(p.rules, CalendarOf(p, side)).cells[k].date;
      side == EndSide ==>
        EndDate(r.0) == d
        && StartDate(r.0) == (if After(StartDate(p), d) then d else StartDate(p))
        && r.0.startCal.shown == (if After(StartDate(p), d) then MonthOf(d) else p.startCal.shown)
        && r.1 == EndSelectionEvents(StartDate(p), d)
  {
    var d := View(p.rules, CalendarOf(p, side)).cells[k].date;
    if side == StartSide then UpdateStartCalendar(p, d) else UpdateEndCalendar(p, d)
  }

  /** `onPresetClick`: select the preset's start, then its end, highlight
      both calendars and fire `rangeSelected` with the preset's own days.
      The two selections fire their own events first. */
  function OnPresetClick(p: DateRangePicker, ps: ValidDate, pe: ValidDate): (r: (DateRangePicker, seq<PickerEvent>))
    ensures StartDate(r.0) == (if After(ps, pe) then pe else ps) && EndDate(r.0) == pe
    ensures r.0.startCal.shown == MonthOf(StartDate(r.0)) && r.0.endCal.shown == MonthOf(pe)
    ensures Consistent(r.0)
    ensures r.1 == StartSelectionEvents(ps, EndDate(p)) + EndSelectionEvents(ps, pe) + [RangeSelected(Range(ps, pe))]
  {
    var first := UpdateStartCalendar(p, ps);
    var second := UpdateEndCalendar(first.0, pe);
    var p3 := UpdateHighlight(UpdateHighlight(second.0, StartSide), EndSide);
    RehighlightIsIdle(second.0, StartSide);
    RehighlightIsIdle(second.0, EndSide);
    assert StartDate(first.0) == ps;
    (p3, first.1 + second.1 + [RangeSelected(Range(ps, pe))])
  }

  /** Running a highlight handler on a consistent picker changes nothing. */
  lemma RehighlightIsIdle(p: DateRangePicker, side: Side)
    requires Consistent(p)
    ensures UpdateHighlight(p, side) == p
  {
  }

  /** `onNextClicked` on one calendar, followed by its `onMonthDisplayed`
      highlight. The range and the other calendar are left alone. */
  function OnNextClicked(p: DateRangePicker, side: Side): (r: DateRangePicker)
    ensures MonthNumber(CalendarOf(r, side).shown) == MonthNumber(CalendarOf(p, side).shown) + 1
    ensures StartDate(r) == StartDate(p) && EndDate(r) == EndDate(p) && r.rules == p.rules
    ensures side == StartSide ==> r.endCal == p.endCal
    ensures side == EndSide ==> r.startCal == p.startCal
    ensures CalendarOf(r, side).marks ==
      HighlightCells(p.rules, View(p.rules, CalendarOf(r, side)), StartDate(p), EndDate(p))
  {
    UpdateHighlight(WithCalendar(p, side, NextClicked(CalendarOf(p, side))), side)
  }

  /** `onPreviousClicked` on one calendar, followed by its `onMonthDisplayed`
      highlight. */
  function OnPreviousClicked(p: DateRangePicker, side: Side): (r: DateRangePicker)
    ensures MonthNumber(CalendarOf(r, side).shown) == MonthNumber(CalendarOf(p, side).shown) - 1
    ensures StartDate(r) == StartDate(p) && EndDate(r) == EndDate(p) && r.rules == p.rules
    ensures side == StartSide ==> r.endCal == p.endCal
    ensures side == EndSide ==> r.startCal == p.startCal
    ensures CalendarOf(r, side).marks ==
      HighlightCells(p.rules, View(p.rules, CalendarOf(r, side)), StartDate(p), EndDate(p))
  {
    UpdateHighlight(WithCalendar(p, side, PreviousClicked(CalendarOf(p, side))), side)
  }

  /** Browsing months keeps the picker consistent, and going forward then
      back returns to exactly the same picker. */
  lemma BrowsingKeepsConsistent(p: DateRangePicker, side: Side)
    requires Consistent(p)
    ensures Consistent(OnNextClicked(p, side)) && Consistent(OnPreviousClicked(p, side))
    ensures OnPreviousClicked(OnNextClicked(p, side), side) == p
    ensures OnNextClicked(OnPreviousClicked(p, side), side) == p
  {
    NextPreviousInverse(CalendarOf(p, side));
    NextPreviousInverse(CalendarOf(OnNextClicked(p, side), side));
    NextPreviousInverse(CalendarOf(OnPreviousClicked(p, side), side));
  }

  // ---------------------------------------------------------------------
  // Construction and rendering.

  /** `DateRangePicker.create`: both calendars default to today, which the
      caller supplies. Nothing is rendered yet. */
  function Create(rules: Rules, today: ValidDate, start: Option<ValidDate>, end: Option<ValidDate>): (p: DateRangePicker)
    ensures StartDate(p) == (if start.Some? then start.value else today)
    ensures EndDate(p) == (if end.Some? then end.value else today)
    ensures p.startCal.shown == MonthOf(StartDate(p)) && p.endCal.shown == MonthOf(EndDate(p))
    ensures p.startCal.marks == {} && p.endCal.marks == {}
  {
    DateRangePicker(rules,
      NewCalendar(if start.Some? then start.value else today),
      NewCalendar(if end.Some? then end.value else today))
  }

  /** `render`: render both calendars, then run both highlight handlers. */
  function RenderPicker(p: DateRangePicker): (r: DateRangePicker)
    ensures r.rules == p.rules && StartDate(r) == StartDate(p) && EndDate(r) == EndDate(p)
    ensures r.startCal.shown == p.startCal.shown && r.endCal.shown == p.endCal.shown
    ensures Consistent(r) <==> !After(StartDate(p), EndDate(p))
  {
    var p1 := p.(startCal := Render(p.startCal), endCal := Render(p.endCal));
    UpdateHighlight(UpdateHighlight(p1, StartSide), EndSide)
  }

  /** A freshly created and rendered picker is consistent exactly when the
      configured start is not after the configured end; with no dates
      given both are today. */
  lemma CreatedPickerConsistent(rules: Rules, today: ValidDate, start: Option<ValidDate>, end: Option<ValidDate>)
    ensures Consistent(RenderPicker(Create(rules, today, start, end))) <==>
      !After(if start.Some? then start.value else today, if end.Some? then end.value else today)
    ensures start.None? && end.None? ==> Consistent(RenderPicker(Create(rules, today, start, end)))
  {
  }

  // ---------------------------------------------------------------------
  // Worked example.

  /** With the range 1 .. 5 March 2024, choosing 10 March as the start pulls
      the end forward to 10 March. The end calendar's own event fires first;
      the `startDateSelected` payload still carries the old end, 5 March. */
  lemma StartPastEndPullsEnd(p: DateRangePicker)
    requires StartDate(p) == Date(2024, 2, 1) && EndDate(p) == Date(2024, 2, 5)
    ensures StartDate(UpdateStartCalendar(p, Date(2024, 2, 10)).0) == Date(2024, 2, 10)
    ensures EndDate(UpdateStartCalendar(p, Date(2024, 2, 10)).0) == Date(2024, 2, 10)
    ensures UpdateStartCalendar(p, Date(2024, 2, 10)).1 ==
      [EndDateSelected(Range(Date(2024, 2, 10), Date(2024, 2, 10))),
       StartDateSelected(Range(Date(2024, 2, 10), Date(2024, 2, 5)))]
  {
  }
}
