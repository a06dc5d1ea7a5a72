# daterangepicker: a Dafny model of the range logic

`daterangepicker.js` renders two month calendars side by side: the range's start date is selected in the left one and its end date in the right one. It keeps the pair ordered and marks the days in between.

This project models the logic under the markup, which is:

- **Calendar arithmetic.** moment's calendar-day `add`, `subtract` and `diff`, on the proleptic Gregorian calendar.
- **The month grid** a `Calendar` renders:
  - weeks start on Monday;
  - the first cell is the Monday on or before the 1st;
  - cells of other months are `grey`;
  - the selected day is `selected`.
- **The full-date key** (`YYYY-MM-DD`) that cells are looked up by.
- **`highlightCells`**, which decides which cells get `inRange`.
- **The `Calendar` controller:**
  - `showMonth`;
  - `updateSelectedDate`;
  - previous/next month;
  - day clicks.
- **The `DateRangePicker` coordinator.** It runs the start/end handlers with their corrections, the highlight handlers and preset clicks, and fires `startDateSelected`, `endDateSelected` and `rangeSelected`.
- **The MicroEvent mixin** both objects use.

How the model is structured:

- **Dates** are `Date(year, month, day)`. The month is 0-based, as moment's `month()` is. Weekdays count from Sunday = 0, as `day()` does.
- **A grid** is one sequence of cells in display order. Row `w` is cells `7w .. 7w + 6`. The jQuery walks over rows and cells (`prevAll`, `nextAll`, `nextUntil`) become order on cell positions.
- **Controllers are immutable values.** Each handler returns the new value and the events it fired, in order.
- **Re-entry.** A calendar's `onDateSelected` and `onMonthDisplayed` listeners run synchronously inside `updateSelectedDate`. The picker's nested re-entry is written as direct mutually recursive calls around a four-step cycle: `UpdateStartCalendar` → `OnStartDateSelected` → `UpdateEndCalendar` → `OnEndDateSelected` → `UpdateStartCalendar`. A selection goes around it at most once, because after a correction the two days are equal. The `decreases` ranks along the cycle are 3, 2, 1, 0, counted from whichever selection started it.
- **`Rules`.** The grid, highlight and picker take `AsWritten` (what the code does) or `Corrected` (the first two repairs under "## Findings"). The same handler code runs under either.

Modules: `Wrappers`, `Dates`, `CalendarGrid` (grid.dfy), `FullDate`, `Highlight`, `Calendars` (calendar.dfy), `Picker`, `MicroEvent`.

How the handlers order their events:

- **Start and end events.** `startDateSelected` carries the new start and the end read before any correction (:460, :468-471). When that correction runs, it fires its own `endDateSelected` first. `endDateSelected` works the same way the other way round (:476, :484-487). See `Picker.StartPastEndPullsEnd`.
- **Preset clicks.** A preset click selects the start and then the end through `updateSelectedDate`. It fires the start selection's events, then the end selection's, then `rangeSelected` (:497-506).
- **No preset lookup.** Presets are not looked up by label, so there is no unknown-preset error. The click reads the two dates from the clicked element (:493-495).

## Model

| member | source | states |
|---|---|---|
| Dates.NextMonth | lib/daterangepicker/daterangepicker.js:208-209 | the next calendar month is one month later in the absolute month count (December rolls into January) |
| Dates.PrevMonth | lib/daterangepicker/daterangepicker.js:215-216 | the previous calendar month is one month earlier in the absolute month count |
| Dates.MonthNumberInjective | lib/daterangepicker/daterangepicker.js:225 | two displayed months are the same exactly when year and month index both agree |
| Dates.Shift | lib/daterangepicker/daterangepicker.js:171 | `add('days', n)` and `subtract('days', -n)` as n single-day steps; literal, and characterised by the `Dates.ShiftAdd` and `Dates.DayNumberShift` rows |
| Dates.Weekday | lib/daterangepicker/daterangepicker.js:137 | `day()` is in 0..6 with Sunday = 0; how it moves is stated by the `Dates.WeekdayShift` row |
| Dates.Before | lib/daterangepicker/daterangepicker.js:253 | a negative `diff`: calendar order on (year, month, day); literal, and tied to day numbers by the `Dates.BeforeIsDayNumberOrder` row |
| Dates.After | lib/daterangepicker/daterangepicker.js:364 | a positive `diff`: the converse of `Dates.Before`; literal, and tied to day numbers by the `Dates.BeforeIsDayNumberOrder` row |
| Dates.Next | lib/daterangepicker/daterangepicker.js:171 | adding one day gives a later day |
| Dates.Prev | lib/daterangepicker/daterangepicker.js:149 | subtracting one day gives an earlier day |
| Dates.NextPrev | lib/daterangepicker/daterangepicker.js:149-171 | adding one day and subtracting one day undo each other |
| Dates.NextIsSuccessor | lib/daterangepicker/daterangepicker.js:171 | no day lies strictly between a day and the day after it |
| Dates.DayNumberNext | lib/daterangepicker/daterangepicker.js:171 | adding one day moves the absolute day number by exactly one |
| Dates.ShiftAdd | lib/daterangepicker/daterangepicker.js:149-171 | adding a days and then b days is adding a + b days, so `subtract('days', 1)` then `add('days', n)` is adding n - 1 |
| Dates.DayNumberShift | lib/daterangepicker/daterangepicker.js:171 | adding n days moves the absolute day number by exactly n |
| Dates.WeekdayShift | lib/daterangepicker/daterangepicker.js:137-138 | adding n days moves `day()` by n modulo 7 |
| Dates.BeforeIsDayNumberOrder | lib/daterangepicker/daterangepicker.js:253 | `diff` compares calendar days: one date is before another exactly when its day number is smaller, and equal dates have equal day numbers |
| Dates.AddMonths | lib/daterangepicker/daterangepicker.js:208 | `add('months', n)` lands n months later and keeps the day of the month, clamped to the last day of a shorter month |
| Dates.AddMonthsFromFirst | lib/daterangepicker/daterangepicker.js:208-216 | from the 1st, adding or subtracting one month gives the 1st of the next or previous calendar month |
| Dates.ShiftWithinMonth | lib/daterangepicker/daterangepicker.js:171 | the 1st plus j days, for j below the month's length, is day j + 1 of the same month |
| Dates.ShiftIntoNextMonth | lib/daterangepicker/daterangepicker.js:171 | past the month's length, the 1st plus j days falls in the next month on the day that is left over |
| Dates.ShiftIntoPrevMonth | lib/daterangepicker/daterangepicker.js:149 | the 1st minus a few days falls in the previous month, counted back from its last day |
| CalendarGrid.Lead | lib/daterangepicker/daterangepicker.js:134-142 | the days the grid starts before the 1st: 0 to 6, zero exactly when the 1st is a Monday, and the 1st minus that many days is a Monday |
| CalendarGrid.GridStart | lib/daterangepicker/daterangepicker.js:134-142 | `_getStartDate`: the 1st stepped back Lead days; literal, and characterised by the `CalendarGrid.GridStartIsMonday` row |
| CalendarGrid.WeeksToShow | lib/daterangepicker/daterangepicker.js:165 | the row count test as written; literal, and evaluated by the `CalendarGrid.WeeksToShowRule` row |
| CalendarGrid.MakeCell | lib/daterangepicker/daterangepicker.js:152-164 | `getClassName`: grey when the month index differs from the displayed one, selected when not grey and the selected day; literal, and characterised by the `CalendarGrid.CellRegion` row (grey means another month, year included) and the `CalendarGrid.SelectedCell` row (at most one cell is selected) |
| CalendarGrid.DateAt | lib/daterangepicker/daterangepicker.js:149-171 | the date of cell i, `rowStartDate` plus `weekIdx * 7 + dayIdx + 1` days; literal, and characterised by the `CalendarGrid.CellDate` row |
| CalendarGrid.BuildGrid | lib/daterangepicker/daterangepicker.js:148-181 | `render`'s grid: seven cells per row and five or six rows; the cells are characterised by the `CalendarGrid.CellDate`, `CalendarGrid.CellRegion` and `CalendarGrid.SelectedCell` rows |
| CalendarGrid.GridStartIsMonday | lib/daterangepicker/daterangepicker.js:134-142 | `_getStartDate` is a Monday, on or at most six days before the 1st, and is the 1st itself exactly when the 1st is a Monday |
| CalendarGrid.CellDate | lib/daterangepicker/daterangepicker.js:149-171 | cell i shows the grid start plus i days (the day before the start plus `weekIdx * 7 + dayIdx + 1`) |
| CalendarGrid.CellAtWeekAndDay | lib/daterangepicker/daterangepicker.js:168-178 | cell (week w, column d) is the grid start plus 7w + d days and falls on Monday for column 0 through Sunday for column 6 |
| CalendarGrid.CellsContiguous | lib/daterangepicker/daterangepicker.js:168-178 | consecutive cells show consecutive days |
| CalendarGrid.CellsIncreasing | lib/daterangepicker/daterangepicker.js:168-178 | display order is date order, so no day is shown twice |
| CalendarGrid.CellRegion | lib/daterangepicker/daterangepicker.js:152-164 | a cell is non-grey exactly for positions Lead to Lead + days-in-month - 1, where it shows day position - Lead + 1; grey cells are exactly those whose day is in another month |
| CalendarGrid.FindCell | lib/daterangepicker/daterangepicker.js:144-145 | a found cell is non-grey and shows the day asked for; when none is found no non-grey cell shows it |
| CalendarGrid.FindCellInGrid | lib/daterangepicker/daterangepicker.js:243-244 | the non-grey cell of a day exists exactly when the day is in the displayed month and its position Lead + day - 1 is on the grid, and that position is the cell |
| CalendarGrid.SelectedCell | lib/daterangepicker/daterangepicker.js:155-159 | a cell is `selected` exactly when it is non-grey and shows the selected day, and at most one cell is |
| CalendarGrid.WeeksToShowRule | lib/daterangepicker/daterangepicker.js:165 | the row count as written is five for January to November and six for December |
| CalendarGrid.WeeksNeededRule | lib/daterangepicker/daterangepicker.js:165 | the corrected row count is six exactly when the month runs past the 35th cell |
| CalendarGrid.CorrectedGridCoversMonth | lib/daterangepicker/daterangepicker.js:165-171 | with the corrected row count every day of the displayed month has its non-grey cell at Lead + day - 1 |
| CalendarGrid.FiveRowsDropLastDays | lib/daterangepicker/daterangepicker.js:165 | as written, a January-to-November month whose last days fall past the 35th cell has no cell for them |
| CalendarGrid.FiveRowsDropSeptember30 | lib/daterangepicker/daterangepicker.js:165 | September 2024 starts on a Sunday, gets 35 cells, and 30 September has no cell |
| FullDate.Pad | lib/daterangepicker/daterangepicker.js:174 | a number is written in exactly the given width, all decimal digits |
| FullDate.PadRoundTrip | lib/daterangepicker/daterangepicker.js:174 | reading a zero-padded number back gives the number |
| FullDate.ValueRoundTrip | lib/daterangepicker/daterangepicker.js:145 | writing the value of a digit string in its own width gives the string back |
| FullDate.Format | lib/daterangepicker/daterangepicker.js:145 | `format('YYYY-MM-DD')` is ten characters with dashes at positions 4 and 7; its round trips are the `FullDate.ParseFormat`, `FullDate.FormatParse` and `FullDate.FormatInjective` rows |
| FullDate.ParseFormat | lib/daterangepicker/daterangepicker.js:145 | the `YYYY-MM-DD` key of a day reads back as that day |
| FullDate.FormatParse | lib/daterangepicker/daterangepicker.js:145 | every text the reader accepts is the key of the day it reads as |
| FullDate.FormatInjective | lib/daterangepicker/daterangepicker.js:144-145 | two days have the same key exactly when they are the same day, so looking a cell up by key is looking it up by day |
| Highlight.HighlightCells | lib/daterangepicker/daterangepicker.js:242-296 | `highlightCells`, branch for branch: the marks are positions on the grid; for a start on or before the end, what they are in each branch is stated by the `Highlight.HighlightBothVisible`, `Highlight.HighlightOnlyEndVisible`, `Highlight.HighlightOnlyStartVisible`, `Highlight.HighlightNeitherVisible` and `Highlight.HighlightSingleDay` rows; for a start after the end (an unordered configuration reaches it) by the `Highlight.HighlightInvertedOtherMonths` and `Highlight.HighlightInvertedOnGrid` rows |
| Highlight.FillBetween | lib/daterangepicker/daterangepicker.js:284-292 | the `nextUntil`, `nextAll` and `prevAll` walks over rows and cells as positions; literal, and characterised by the `Highlight.FillBetweenIsInterval` and `Highlight.FillBetweenInverted` rows |
| Highlight.FillBetweenInverted | lib/daterangepicker/daterangepicker.js:284-295 | with the start cell after the end cell: in one row `nextUntil` never meets the end cell and runs to the row's end, grey cells included; across rows every row after the start row is filled, and the end row only up to the end cell |
| Highlight.HighlightInvertedOtherMonths | lib/daterangepicker/daterangepicker.js:257-263 | with the start after the end, nothing is marked unless both days are in the displayed month, because one of the two month guards returns |
| Highlight.HighlightInvertedOnGrid | lib/daterangepicker/daterangepicker.js:242-296 | with the start after the end and both days in the displayed month, their cells at positions i after j (on the rendered grid, the positions of the `CalendarGrid.FindCellInGrid` row): in one row the marks are the end cell and everything from the start cell to the end of its row; across rows they are the non-grey cells from the start cell on and those of the end row up to the end cell |
| Highlight.InvertedMarksGreyFebruary2024 | lib/daterangepicker/daterangepicker.js:285-287 | February 2024 starts on a Thursday; highlighting from the 28th back to the 27th marks position 32, the grey 1st of March |
| Highlight.FillBetweenIsInterval | lib/daterangepicker/daterangepicker.js:285-295 | the same-row `nextUntil` and the cross-row walks plus both endpoint cells cover exactly the positions between the two endpoints |
| Highlight.HighlightBothVisible | lib/daterangepicker/daterangepicker.js:285-295 | with both endpoint cells on the grid the marks are exactly the days of the month from start to end inclusive |
| Highlight.HighlightOnlyEndVisible | lib/daterangepicker/daterangepicker.js:271-276 | with only the end on the grid, the program marks the month's days strictly before the end; the corrected rules mark through the end |
| Highlight.HighlightOnlyStartVisible | lib/daterangepicker/daterangepicker.js:278-283 | with only the start on the grid, the program marks the month's days strictly after the start; the corrected rules mark from the start |
| Highlight.HighlightNeitherVisible | lib/daterangepicker/daterangepicker.js:257-269 | with neither endpoint on the grid, nothing is marked when the month lies outside the range's months, and otherwise every non-grey cell is |
| Highlight.HighlightSingleDay | lib/daterangepicker/daterangepicker.js:253-255 | a range whose start and end are the same day marks nothing |
| Highlight.HighlightNeverGrey | lib/daterangepicker/daterangepicker.js:242-296 | for an ordered range no grey cell is ever marked |
| Highlight.CorrectedHighlightIsSpan | lib/daterangepicker/daterangepicker.js:242-296 | under the corrected rules the marks are exactly the displayed month's days from start to end inclusive, and none for a single-day range |
| Highlight.CorrectedNeitherVisible | lib/daterangepicker/daterangepicker.js:265-269 | on the corrected grid, when both endpoints lack a cell the marks are still exactly the range's days in the month |
| Highlight.AsWrittenLoneEndUnmarked | lib/daterangepicker/daterangepicker.js:271-276 | when the start is in an earlier month, the end's own cell belongs to the range but is left unmarked |
| Highlight.LoneEndUnmarkedMarch2024 | lib/daterangepicker/daterangepicker.js:271-276 | for 20 February to 25 March 2024 shown in March, cell 28 (25 March) is in the range and unmarked |
| Calendars.NewCalendar | lib/daterangepicker/daterangepicker.js:84-97 | a new calendar selects the given day, displays the 1st of its month, and marks nothing |
| Calendars.ShowMonth | lib/daterangepicker/daterangepicker.js:235-240 | `showMonth` displays the given month, keeps the selected day, and the re-render clears every mark |
| Calendars.HighlightOn | lib/daterangepicker/daterangepicker.js:242-251 | highlighting keeps the displayed month and the selected day and marks only grid positions; the marks themselves are the `Highlight.HighlightCells` result |
| Calendars.SelectDate | lib/daterangepicker/daterangepicker.js:219-233 | the day becomes selected and its month is displayed; the month is re-rendered and announced exactly when its month or year differ, which clears the marks; otherwise the marks are kept |
| Calendars.Render | lib/daterangepicker/daterangepicker.js:148-183 | `render` rebuilds the markup, so no cell keeps `inRange`; literal, and the grid it shows is the `Calendars.SelectDateView` row |
| Calendars.PatchSelected | lib/daterangepicker/daterangepicker.js:229-230 | moving the `selected` class onto the cells of the new day; literal, and characterised by the `Calendars.PatchIsRender` row |
| Calendars.PatchIsRender | lib/daterangepicker/daterangepicker.js:229-230 | moving the `selected` class onto the new day's cell gives the same grid a fresh render for that day would |
| Calendars.SelectDateView | lib/daterangepicker/daterangepicker.js:219-233 | after `updateSelectedDate` the calendar shows the day's month with exactly that day's cell selected |
| Calendars.SelectDateIdempotent | lib/daterangepicker/daterangepicker.js:219-233 | selecting the same day again changes nothing and displays no month |
| Calendars.NextClicked | lib/daterangepicker/daterangepicker.js:205-210 | next displays the month one later, keeps the selected day and clears the marks |
| Calendars.PreviousClicked | lib/daterangepicker/daterangepicker.js:212-217 | previous displays the month one earlier, keeps the selected day and clears the marks |
| Calendars.NextPreviousInverse | lib/daterangepicker/daterangepicker.js:205-217 | next and previous show the calendar months on either side, with the year rolling over, and undo each other |
| Picker.StartDate | lib/daterangepicker/daterangepicker.js:433-435 | `getStartDate` is the start calendar's selected day; literal, and what it is after each handler is stated by the handler rows below |
| Picker.EndDate | lib/daterangepicker/daterangepicker.js:437-439 | `getEndDate` is the end calendar's selected day; literal, and what it is after each handler is stated by the handler rows below |
| Picker.HighlightRange | lib/daterangepicker/daterangepicker.js:363-370 | an inverted pair leaves both calendars alone; otherwise both calendars' marks become the highlight of the pair on their own grids |
| Picker.UpdateHighlight | lib/daterangepicker/daterangepicker.js:355-361 | `_update*CalendarHighlight`: that calendar's marks become the highlight of the current range on its own grid; the range, its displayed month and the other calendar are unchanged |
| Picker.SelectOn | lib/daterangepicker/daterangepicker.js:219-240 | selecting on one calendar selects the day and displays its month, and leaves the other calendar untouched |
| Picker.UpdateStartCalendar | lib/daterangepicker/daterangepicker.js:458-472 | choosing a start selects it and pulls the end forward to it when the start is after the end; the picker ends up consistent; the events are the nested end event, if any, then `startDateSelected` with the new start and the old end |
| Picker.OnStartDateSelected | lib/daterangepicker/daterangepicker.js:458-472 | the start handler corrects the end only when the start is after it, restores consistency, and fires its events in the order the nesting produces |
| Picker.UpdateEndCalendar | lib/daterangepicker/daterangepicker.js:474-488 | choosing an end selects it and pulls the start back to it when the start is after it; the picker ends up consistent; the events are the nested start event, if any, then `endDateSelected` with the old start and the new end |
| Picker.OnEndDateSelected | lib/daterangepicker/daterangepicker.js:474-488 | the end handler corrects the start only when the start is after the end, restores consistency, and fires its events in order |
| Picker.OnDayClicked | lib/daterangepicker/daterangepicker.js:196-203 | clicking a cell selects its day (grey cells included) on that calendar and displays its month. It leaves the picker consistent. The other side's day is pulled to the clicked day exactly when the click passes it, and then that side displays the same month. The events are exactly those of the start or end selection |
| Picker.OnPresetClick | lib/daterangepicker/daterangepicker.js:490-507 | a preset makes its end the end and its start the start (or the end, if the preset is inverted). The start calendar then displays the start's month and the end calendar the end's month. It leaves the picker consistent, and fires the start selection's events, the end selection's events, then `rangeSelected` with the preset's days |
| Picker.RehighlightIsIdle | lib/daterangepicker/daterangepicker.js:500-501 | running a highlight handler on a consistent picker changes nothing |
| Picker.OnNextClicked | lib/daterangepicker/daterangepicker.js:205-210 | next on one calendar displays the month one later and re-highlights it, and leaves the range and the other calendar alone |
| Picker.OnPreviousClicked | lib/daterangepicker/daterangepicker.js:212-217 | previous on one calendar displays the month one earlier and re-highlights it, and leaves the range and the other calendar alone |
| Picker.BrowsingKeepsConsistent | lib/daterangepicker/daterangepicker.js:205-217 | browsing keeps a consistent picker consistent, and next then previous (or previous then next) gives back the same picker |
| Picker.Create | lib/daterangepicker/daterangepicker.js:299-347 | both dates default to today when not given, each calendar displays its day's month, and nothing is marked |
| Picker.RenderPicker | lib/daterangepicker/daterangepicker.js:387-399 | rendering keeps dates and months and leaves the picker consistent exactly when the start is not after the end |
| Picker.CreatedPickerConsistent | lib/daterangepicker/daterangepicker.js:299-330 | a created and rendered picker is consistent exactly when the configured start is not after the configured end, and always when no dates are given |
| Picker.StartPastEndPullsEnd | lib/daterangepicker/daterangepicker.js:458-472 | with 1–5 March 2024 selected, choosing 10 March as start makes the range 10–10 March and fires `endDateSelected(10, 10)` and then `startDateSelected(10, 5)` |
| MicroEvent.Listeners | lib/daterangepicker/daterangepicker.js:36-42 | `trigger` calls the listeners bound to the event, in binding order, or none for an event never bound; literal, and characterised by the `MicroEvent.Bind` and `MicroEvent.Unbind` rows |
| MicroEvent.Bind | lib/daterangepicker/daterangepicker.js:26-30 | `bind` appends the listener to that event's listeners and leaves every other event alone |
| MicroEvent.IndexOf | lib/daterangepicker/daterangepicker.js:34 | `indexOf` gives the first position holding the listener, or -1 exactly when it is absent |
| MicroEvent.SpliceOne | lib/daterangepicker/daterangepicker.js:34 | `splice(k, 1)` removes position k and counts a negative k back from the end. A negative k before the first element is clamped to 0, so the first element is removed. Past the end it removes nothing |
| MicroEvent.Unbind | lib/daterangepicker/daterangepicker.js:31-35 | `unbind` as written: an event never bound is left alone, an event whose listeners were all unbound stays empty, and other events are never touched; what it does to a non-empty event is stated by the `MicroEvent.UnbindBound` and `MicroEvent.UnbindUnboundDropsLast` rows |
| MicroEvent.UnbindBound | lib/daterangepicker/daterangepicker.js:31-35 | unbinding a bound listener removes its first binding, keeps the others in order, and removes one copy |
| MicroEvent.UnbindUnboundDropsLast | lib/daterangepicker/daterangepicker.js:34 | as written, unbinding a listener that is not bound removes the event's last listener |
| MicroEvent.UnbindIfBound | lib/daterangepicker/daterangepicker.js:31-35 | the corrected unbind leaves the listeners alone when the listener is not bound |
| MicroEvent.UnbindIfBoundRemovesOne | lib/daterangepicker/daterangepicker.js:26-35 | the corrected unbind removes exactly one binding when there is one and nothing otherwise, and undoes a `bind` of a fresh listener |
| MicroEvent.BindThenUnbind | lib/daterangepicker/daterangepicker.js:26-35 | bind then unbind always restores the listeners as a multiset, and as the same sequence when the listener was not bound before |

## Left out

- Building HTML, the month title and weekday header (`buildCalendarHtml`, `monthTitle`), the preset list markup (`buildPresetsList`), `show`/`hide` positioning, `destroy`, `stopPropagation` and the jQuery click wiring. Day, next/previous and preset clicks are modelled from the values the handlers read.
- The jQuery plugin `$.fn.daterangepicker` and its `DD MMM YYYY` input formatting, the AMD/global loader and the dependency checks. They are glue outside the range logic.
- moment's parsing of option strings, locales and time of day. Dates are already-valid calendar days, so a malformed date input is not modelled. "Today" (`moment()`) is a parameter of `Picker.Create`.
- The public duplicates `updateStartCalendarHighlight`, `updateEndCalendarHighlight` and `highlightRange` (:441-456). They have the same bodies as the private versions modelled by `Picker.UpdateHighlight` and `Picker.HighlightRange`.
- `MicroEvent.Listeners`: `trigger` is modelled as the sequence of listeners it calls. The listeners' effects, `this` binding and arguments belong to the bound code. `in` finding inherited object keys, and listeners bound or unbound during a trigger, are not modelled.
- `FullDate.Format`: only years 0 to 9999, the years the key writes in four digits.
- `Highlight.HighlightCells`: for a start after the end, no lemma covers the case where the five-row grid as written has no cell for the start, such as the 30th of September 2024. There the body's lone-endpoint branches apply as written. Under `Corrected` both cells always exist.
- `Calendars.PreviousClicked`: `subtract` mutating the displayed month in place is not modelled separately. `showMonth` replaces that value immediately.

## Findings

| source | as written | input that shows it | evidently intended | confidence | as-written member | corrected member |
|---|---|---|---|---|---|---|
| lib/daterangepicker/daterangepicker.js:165 | five rows unless the month index six weeks after the grid start is not larger, i.e. five rows for every month but December | September 2024: the 1st is a Sunday, the five-row grid ends on the 29th, and the 30th has no cell, so it cannot be clicked or highlighted | as many rows as the month needs: six exactly when the month runs past the 35th cell | not executed | CalendarGrid.FiveRowsDropSeptember30 | CalendarGrid.CorrectedGridCoversMonth |
| lib/daterangepicker/daterangepicker.js:271-283 | with one endpoint off the grid, the walk marks cells strictly before the end (or after the start) and returns before marking the endpoint's own cell | range 20 February – 25 March 2024 shown in March: cell 28 (25 March) stays unmarked | the visible endpoint's cell is marked, as in the both-visible branch | not executed | Highlight.LoneEndUnmarkedMarch2024 | Highlight.CorrectedHighlightIsSpan |
| lib/daterangepicker/daterangepicker.js:34 | `splice(indexOf(f), 1)` with `indexOf` returning -1 | unbinding a listener that was never bound from an event with listeners [a, b] leaves [a] | unbinding an absent listener changes nothing | not executed | MicroEvent.UnbindUnboundDropsLast | MicroEvent.UnbindIfBound |
