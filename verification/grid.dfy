/** The month grid a Calendar renders (`_getStartDate` and the grid part of
    `render`): weeks start on Monday, the first cell is the Monday on or
    before the 1st, and every cell carries its date and its `grey` and
    `selected` classes. Cells are kept in one sequence in display order;
    week w is cells[7w .. 7w + 7], so cell (w, d) sits at index 7w + d. */
module CalendarGrid {
  import opened Dates
  import opened Wrappers

  /** AsWritten follows the program; Corrected applies the two repairs
      described with `WeeksNeeded` and `Highlight.HighlightCells`. */
  datatype Rules = AsWritten | Corrected

  datatype Cell = Cell(date: ValidDate, grey: bool, selected: bool)

  datatype Grid = Grid(shown: YearMonth, cells: seq<Cell>)

  /** How many days `_getStartDate` steps back from the 1st: none when the
      1st is a Monday, otherwise `(day() || 7) - 1`. */
  function Lead(m: YearMonth): (k: int)
    ensures 0 <= k <= 6
    ensures k == 0 <==> Weekday(First(m)) == 1
    ensures (Weekday(First(m)) - k) % 7 == 1
  {
    LeadFrom(Weekday(First(m)))
  }

  /** The step back from weekday wd (Sunday = 0) to the Monday on or before it. */
  function LeadFrom(wd: int): (k: int)
    requires 0 <= wd < 7
    ensures 0 <= k <= 6
    ensures k == 0 <==> wd == 1
    ensures (wd - k) % 7 == 1
  {
    if wd != 1 then (if wd == 0 then 7 else wd) - 1 else 0
  }

  function GridStart(m: YearMonth): ValidDate {
    Shift(First(m), -Lead(m))
  }

  /** The program's row count: five rows when the day six weeks after the
      grid start has a larger month index than the displayed month. */
  function WeeksToShow(m: YearMonth): nat {
    if Shift(GridStart(m), 42).month > m.index then 5 else 6
  }

  /** The intended row count: a sixth row exactly when the day five weeks
      after the grid start still belongs to the displayed month. */
  function WeeksNeeded(m: YearMonth): nat {
    if MonthOf(Shift(GridStart(m), 35)) == m then 6 else 5
  }

  function Weeks(rules: Rules, m: YearMonth): (n: nat)
    ensures n == 5 || n == 6
  {
    match rules
    case AsWritten => WeeksToShow(m)
    case Corrected => WeeksNeeded(m)
  }

  /** `getClassName`: grey when the month index differs from the displayed
      one, otherwise selected when it is the selected day. */
  function MakeCell(m: YearMonth, selected: Date, date: ValidDate): (c: Cell)
    ensures c.date == date
    ensures c.grey <==> MonthOf(date).index != m.index
    ensures c.selected <==> !c.grey && date == selected
  {
    if date.month != m.index then Cell(date, true, false)
    else Cell(date, false, date == selected)
  }

  function BuildGrid(rules: Rules, m: YearMonth, selected: Date): (g: Grid)
    ensures g.shown == m
    ensures |g.cells| == 7 * Weeks(rules, m)
  {
    var n := Weeks(rules, m);
    Grid(m, seq(7 * n, i requires 0 <= i < 7 * n => MakeCell(m, selected, DateAt(m, i))))
  }

  /** The date of cell i: `rowStartDate` is the day before the grid start,
      and week w, column d adds w * 7 + (d + 1) days to it. */
  function DateAt(m: YearMonth, i: nat): ValidDate {
    Shift(Shift(GridStart(m), -1), (i / 7) * 7 + (i % 7 + 1))
  }

  /** Row w of a grid. */
  function Week(g: Grid, w: nat): seq<Cell>
    requires 7 * w + 7 <= |g.cells|
  {
    g.cells[7 * w .. 7 * w + 7]
  }

  /** `_findCellByDate(x).not('.grey')`: the first non-grey cell showing x. */
  function FindCell(g: Grid, x: Date): (r: Option<nat>)
    ensures r.Some? ==> r.value < |g.cells| && !g.cells[r.value].grey && g.cells[r.value].date == x
    ensures r.None? ==> forall i :: 0 <= i < |g.cells| ==> g.cells[i].grey || g.cells[i].date != x
  {
    FindFrom(g, x, 0)
  }

  function FindFrom(g: Grid, x: Date, from: nat): (r: Option<nat>)
    requires from <= |g.cells|
    ensures r.Some? ==> from <= r.value < |g.cells| && !g.cells[r.value].grey && g.cells[r.value].date == x
    ensures r.None? ==> forall i :: from <= i < |g.cells| ==> g.cells[i].grey || g.cells[i].date != x
    decreases |g.cells| - from
  {
    if from == |g.cells| then None
    else if !g.cells[from].grey && g.cells[from].date == x then Some(from)
    else FindFrom(g, x, from + 1)
  }

  // ---------------------------------------------------------------------
  // Grid start.

  /** The grid starts on the Monday on or before the 1st, at most six days
      earlier, and on the 1st itself exactly when the 1st is a Monday. */
  lemma GridStartIsMonday(m: YearMonth)
    ensures Weekday(GridStart(m)) == 1
    ensures !Before(First(m), GridStart(m))
    ensures 0 <= DayNumber(First(m)) - DayNumber(GridStart(m)) <= 6
    ensures GridStart(m) == First(m) <==> Weekday(First(m)) == 1
  {
    GridStartWeekday(m);
    GridStartDistance(m);
  }

  lemma GridStartWeekday(m: YearMonth)
    ensures Weekday(GridStart(m)) == 1
  {
    WeekdayShift(First(m), -Lead(m));
  }

  lemma GridStartDistance(m: YearMonth)
    ensures !Before(First(m), GridStart(m))
    ensures 0 <= DayNumber(First(m)) - DayNumber(GridStart(m)) <= 6
    ensures GridStart(m) == First(m) <==> Weekday(First(m)) == 1
  {
    var f, k := First(m), Lead(m);
    assert GridStart(m) == Shift(f, -k);
    StepBack(f, k);
  }

  /** Stepping back k days from f, for 0 <= k <= 6. */
  lemma StepBack(f: ValidDate, k: int)
    requires 0 <= k <= 6
    ensures !Before(f, Shift(f, -k))
    ensures DayNumber(Shift(f, -k)) == DayNumber(f) - k
    ensures Shift(f, -k) == f <==> k == 0
  {
    DayNumberShift(f, -k);
    BeforeIsDayNumberOrder(f, Shift(f, -k));
  }

  // ---------------------------------------------------------------------
  // Cell dates.

  /** Cell i shows the grid start plus i days, i.e. the 1st plus i - Lead days. */
  lemma CellDate(rules: Rules, m: YearMonth, sel: Date, i: int)
    requires 0 <= i < 7 * Weeks(rules, m)
    ensures BuildGrid(rules, m, sel).cells[i].date == Shift(GridStart(m), i)
    ensures BuildGrid(rules, m, sel).cells[i].date == Shift(First(m), i - Lead(m))
  {
    assert BuildGrid(rules, m, sel).cells[i].date == DateAt(m, i);
    DateAtOffset(m, i);
  }

  lemma DateAtOffset(m: YearMonth, i: nat)
    ensures DateAt(m, i) == Shift(GridStart(m), i)
    ensures DateAt(m, i) == Shift(First(m), i - Lead(m))
  {
    BackOneThenRowColumn(GridStart(m), i);
    GridOffset(m, i);
  }

  lemma BackOneThenRowColumn(x: ValidDate, i: nat)
    ensures Shift(Shift(x, -1), (i / 7) * 7 + (i % 7 + 1)) == Shift(x, i)
  {
    RowColumn(i);
    ShiftAdd(x, -1, i + 1);
  }

  lemma RowColumn(i: nat)
    ensures (i / 7) * 7 + (i % 7 + 1) == i + 1
  {
  }

  /** Cell (w, d) is gridStart + 7w + d and falls on weekday d + 1 (Monday
      first, Sunday in column 6). */
  lemma CellAtWeekAndDay(rules: Rules, m: YearMonth, sel: Date, w: nat, d: nat)
    requires w < Weeks(rules, m) && d < 7
    ensures 7 * w + d < |BuildGrid(rules, m, sel).cells|
    ensures Week(BuildGrid(rules, m, sel), w)[d].date == Shift(GridStart(m), 7 * w + d)
    ensures Weekday(Week(BuildGrid(rules, m, sel), w)[d].date) == (d + 1) % 7
  {
    var g := BuildGrid(rules, m, sel);
    var i := 7 * w + d;
    assert |g.cells| == 7 * Weeks(rules, m);
    assert Week(g, w)[d] == g.cells[i];
    CellDate(rules, m, sel, i);
    var x := Shift(GridStart(m), i);
    assert g.cells[i].date == x;
    MondayFirst(m, w, d);
    assert Weekday(x) == (d + 1) % 7;
  }

  lemma MondayFirst(m: YearMonth, w: nat, d: nat)
    ensures Weekday(Shift(GridStart(m), 7 * w + d)) == (d + 1) % 7
  {
    GridStartWeekday(m);
    FromMonday(GridStart(m), w, d);
  }

  /** Counting 7w + d days on from a Monday lands on weekday d + 1. */
  lemma FromMonday(x: ValidDate, w: nat, d: nat)
    requires Weekday(x) == 1
    ensures Weekday(Shift(x, 7 * w + d)) == (d + 1) % 7
  {
    WeekdayShift(x, 7 * w + d);
    WeekPeriod(d + 1, w);
  }

  lemma WeekPeriod(x: int, w: int)
    ensures (x + 7 * w) % 7 == x % 7
  {
    var q := x / 7;
    assert x == 7 * q + x % 7;
    assert x + 7 * w == 7 * (q + w) + x % 7;
  }

  /** Cell dates are contiguous: each cell is the day after the previous one,
      so no day is skipped between them. */
  lemma CellsContiguous(rules: Rules, m: YearMonth, sel: Date, i: int)
    requires 0 <= i && i + 1 < 7 * Weeks(rules, m)
    ensures BuildGrid(rules, m, sel).cells[i + 1].date == Next(BuildGrid(rules, m, sel).cells[i].date)
    ensures forall x: ValidDate :: Before(BuildGrid(rules, m, sel).cells[i].date, x) ==>
      !Before(x, BuildGrid(rules, m, sel).cells[i + 1].date)
  {
    var g := BuildGrid(rules, m, sel);
    assert g.cells[i].date == DateAt(m, i);
    assert g.cells[i + 1].date == DateAt(m, i + 1);
    DateAtNext(m, i);
    forall x: ValidDate | Before(g.cells[i].date, x)
      ensures !Before(x, g.cells[i + 1].date)
    {
      NextIsSuccessor(g.cells[i].date, x);
    }
  }

  lemma DateAtNext(m: YearMonth, i: nat)
    ensures DateAt(m, i + 1) == Next(DateAt(m, i))
  {
    DateAtOffset(m, i);
    DateAtOffset(m, i + 1);
    ShiftStep(GridStart(m), i);
  }

  /** Display order is calendar order, so no date appears twice. */
  lemma CellsIncreasing(rules: Rules, m: YearMonth, sel: Date, i: int, j: int)
    requires 0 <= i < 7 * Weeks(rules, m) && 0 <= j < 7 * Weeks(rules, m)
    ensures i < j <==> Before(BuildGrid(rules, m, sel).cells[i].date, BuildGrid(rules, m, sel).cells[j].date)
    ensures i == j <==> BuildGrid(rules, m, sel).cells[i].date == BuildGrid(rules, m, sel).cells[j].date
  {
    var g := BuildGrid(rules, m, sel);
    CellDate(rules, m, sel, i);
    CellDate(rules, m, sel, j);
    DayNumberShift(GridStart(m), i);
    DayNumberShift(GridStart(m), j);
    BeforeIsDayNumberOrder(g.cells[i].date, g.cells[j].date);
  }

  /** Where the displayed month sits on the grid: cell i is non-grey exactly
      when Lead <= i < Lead + days-in-month, and then it shows day i - Lead + 1;
      grey cells are exactly those of another month. */
  lemma CellRegion(rules: Rules, m: YearMonth, sel: Date, i: int)
    requires 0 <= i < 7 * Weeks(rules, m)
    ensures !BuildGrid(rules, m, sel).cells[i].grey <==> Lead(m) <= i < Lead(m) + DaysInMonth(m.year, m.index)
    ensures !BuildGrid(rules, m, sel).cells[i].grey ==> BuildGrid(rules, m, sel).cells[i].date == Date(m.year, m.index, i - Lead(m) + 1)
    ensures BuildGrid(rules, m, sel).cells[i].grey <==> MonthOf(BuildGrid(rules, m, sel).cells[i].date) != m
  {
    var g := BuildGrid(rules, m, sel);
    var j := i - Lead(m);
    assert i < 42;
    assert g.cells[i] == MakeCell(m, sel, DateAt(m, i));
    DateAtOffset(m, i);
    CellClasses(m, sel, j);
  }

  /** The classes of the day j days after the 1st, for the days a grid shows. */
  lemma CellClasses(m: YearMonth, sel: Date, j: int)
    requires -6 <= j < 42
    ensures !MakeCell(m, sel, Shift(First(m), j)).grey <==> 0 <= j < DaysInMonth(m.year, m.index)
    ensures !MakeCell(m, sel, Shift(First(m), j)).grey ==> Shift(First(m), j) == Date(m.year, m.index, j + 1)
    ensures MakeCell(m, sel, Shift(First(m), j)).grey <==> MonthOf(Shift(First(m), j)) != m
    ensures MakeCell(m, sel, Shift(First(m), j)).date == Shift(First(m), j)
  {
    OffsetRegion(m, j);
  }

  /** The days from 28 before the 1st to 55 after it: the displayed month's
      own days, then the next month, before them the previous month. */
  lemma OffsetRegion(m: YearMonth, j: int)
    requires -28 <= j < 56
    ensures 0 <= j < DaysInMonth(m.year, m.index) ==> Shift(First(m), j) == Date(m.year, m.index, j + 1)
    ensures DaysInMonth(m.year, m.index) <= j ==> MonthOf(Shift(First(m), j)) == NextMonth(m)
    ensures j < 0 ==> MonthOf(Shift(First(m), j)) == PrevMonth(m)
    ensures j < 0 || DaysInMonth(m.year, m.index) <= j ==> Shift(First(m), j).month != m.index
  {
    var n := DaysInMonth(m.year, m.index);
    if j < 0 {
      ShiftIntoPrevMonth(m, j);
    } else if j < n {
      ShiftWithinMonth(m, j);
    } else {
      ShiftIntoNextMonth(m, j);
    }
  }

  /** `_findCellByDate(x).not('.grey')` on a rendered grid: the cell of day
      x.day when x is in the displayed month and the grid reaches it. */
  lemma FindCellInGrid(rules: Rules, m: YearMonth, sel: Date, x: ValidDate)
    ensures FindCell(BuildGrid(rules, m, sel), x) ==
      if MonthOf(x) == m && Lead(m) + x.day - 1 < 7 * Weeks(rules, m)
      then Some(Lead(m) + x.day - 1) else None
  {
    if MonthOf(x) == m && Lead(m) + x.day - 1 < 7 * Weeks(rules, m) {
      FindCellHit(rules, m, sel, x);
    }
    if FindCell(BuildGrid(rules, m, sel), x).Some? {
      FindCellFound(rules, m, sel, x);
    }
  }

  lemma FindCellHit(rules: Rules, m: YearMonth, sel: Date, x: ValidDate)
    requires MonthOf(x) == m && Lead(m) + x.day - 1 < 7 * Weeks(rules, m)
    ensures FindCell(BuildGrid(rules, m, sel), x).Some?
  {
    var g := BuildGrid(rules, m, sel);
    var k := Lead(m) + x.day - 1;
    CellRegion(rules, m, sel, k);
    assert !g.cells[k].grey && g.cells[k].date == x;
  }

  lemma FindCellFound(rules: Rules, m: YearMonth, sel: Date, x: ValidDate)
    requires FindCell(BuildGrid(rules, m, sel), x).Some?
    ensures MonthOf(x) == m && FindCell(BuildGrid(rules, m, sel), x).value == Lead(m) + x.day - 1
  {
    var g := BuildGrid(rules, m, sel);
    var v := FindCell(g, x).value;
    CellRegion(rules, m, sel, v);
    assert g.cells[v].date == Date(m.year, m.index, v - Lead(m) + 1);
  }

  // ---------------------------------------------------------------------
  // Selection.

  /** A cell is selected iff it is non-grey and shows the selected day, and
      at most one cell is selected. */
  lemma SelectedCell(rules: Rules, m: YearMonth, sel: Date, i: int, j: int)
    requires 0 <= i < 7 * Weeks(rules, m) && 0 <= j < 7 * Weeks(rules, m)
    ensures BuildGrid(rules, m, sel).cells[i].selected <==>
      !BuildGrid(rules, m, sel).cells[i].grey && BuildGrid(rules, m, sel).cells[i].date == sel
    ensures BuildGrid(rules, m, sel).cells[i].selected && BuildGrid(rules, m, sel).cells[j].selected ==> i == j
  {
    CellsIncreasing(rules, m, sel, i, j);
  }

  // ---------------------------------------------------------------------
  // Row counts.

  /** The program's rule gives five rows for January to November and six
      for December: six weeks after the grid start is always next month. */
  lemma WeeksToShowRule(m: YearMonth)
    ensures WeeksToShow(m) == if m.index == 11 then 6 else 5
  {
    var x := Shift(GridStart(m), 42);
    assert WeeksToShow(m) == if x.month > m.index then 5 else 6;
    GridOffset(m, 42);
    OffsetRegion(m, 42 - Lead(m));
    assert MonthOf(x) == NextMonth(m);
  }

  /** Counting from the grid start is counting from the 1st, Lead days fewer. */
  lemma GridOffset(m: YearMonth, n: int)
    ensures Shift(GridStart(m), n) == Shift(First(m), n - Lead(m))
  {
    assert GridStart(m) == Shift(First(m), -Lead(m));
    ShiftAdd(First(m), -Lead(m), n);
  }

  /** The intended rule gives six rows exactly when the month runs past the
      35th cell. */
  lemma WeeksNeededRule(m: YearMonth)
    ensures WeeksNeeded(m) == if Lead(m) + DaysInMonth(m.year, m.index) > 35 then 6 else 5
  {
    GridOffset(m, 35);
    OffsetRegion(m, 35 - Lead(m));
  }

  /** With the corrected row count every day of the displayed month has a
      non-grey cell, and a sixth row is added only when five would drop one. */
  lemma CorrectedGridCoversMonth(m: YearMonth, sel: Date, x: ValidDate)
    requires MonthOf(x) == m
    ensures FindCell(BuildGrid(Corrected, m, sel), x) == Some(Lead(m) + x.day - 1)
    ensures WeeksNeeded(m) == 6 <==> Lead(m) + DaysInMonth(m.year, m.index) - 1 >= 35
  {
    WeeksNeededRule(m);
    FindCellInGrid(Corrected, m, sel, x);
  }

  /** The program's row count drops the last days of every month from
      January to November that runs past the 35th cell. */
  lemma FiveRowsDropLastDays(m: YearMonth, sel: Date, x: ValidDate)
    requires m.index < 11 && MonthOf(x) == m && Lead(m) + x.day - 1 >= 35
    ensures FindCell(BuildGrid(AsWritten, m, sel), x) == None
  {
    WeeksToShowRule(m);
    FindCellInGrid(AsWritten, m, sel, x);
  }

  /** September 2024 starts on a Sunday, so its five-row grid ends on the
      29th and the 30th has no cell. */
  lemma FiveRowsDropSeptember30(m: YearMonth, sel: Date)
    requires m == YearMonth(2024, 8)
    ensures Lead(m) == 6
    ensures |BuildGrid(AsWritten, m, sel).cells| == 35
    ensures FindCell(BuildGrid(AsWritten, m, sel), Date(2024, 8, 30)) == None
  {
    SeptemberStartsOnSunday(m);
    WeeksToShowRule(m);
    FiveRowsDropLastDays(m, sel, Date(2024, 8, 30));
  }

  lemma SeptemberStartsOnSunday(m: YearMonth)
    requires m == YearMonth(2024, 8)
    ensures Weekday(First(m)) == 0 && Lead(m) == 6
  {
  }
}
