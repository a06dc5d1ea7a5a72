/** Range highlighting (`Calendar.highlightCells`): which cells of a rendered
    grid get the `inRange` class for a (start, end) pair. The jQuery walks
    over rows and cells (`prevAll`, `nextAll`, `nextUntil`) are linear order
    on cell positions: row r holds positions 7r .. 7r + 6. Every call first
    clears all marks, so the result is a fresh set of positions. */
module Highlight {
  import opened Dates
  import opened Wrappers
  import opened CalendarGrid

  predicate OnGrid(g: Grid, k: int) {
    0 <= k < |g.cells|
  }

  /** Non-grey cells at positions lo <= k < hi. */
  function NonGreyIn(g: Grid, lo: int, hi: int): set<nat> {
    set k: nat | lo <= k < hi && k < |g.cells| && !g.cells[k].grey
  }

  /** First position of the row holding position k, and one past its last. */
  function RowStart(k: nat): nat { 7 * (k / 7) }
  function RowEnd(k: nat): nat { 7 * (k / 7) + 7 }

  /** Both endpoint cells visible, start at i and end at j. In one row,
      `startCell.nextUntil(endCell)` takes the following cells up to the end
      cell (to the end of the row when the end cell does not follow) without
      a grey filter. Across rows, the rows strictly after the start row and
      before the end row (every later row when the end row does not follow)
      plus the rest of the start row and the front of the end row, non-grey
      only. */
  function FillBetween(g: Grid, i: nat, j: nat): set<nat> {
    if i / 7 == j / 7 then
      set k: nat | i < k < (if i < j then j else RowEnd(i)) && OnGrid(g, k)
    else
      (set k: nat | k < |g.cells| && !g.cells[k].grey && i / 7 < k / 7 && (k / 7 < j / 7 || j / 7 < i / 7))
      + NonGreyIn(g, i + 1, RowEnd(i))
      + NonGreyIn(g, RowStart(j), j)
  }

  /** `highlightCells(startDate, endDate)` on grid g. Under AsWritten a lone
      visible endpoint is left unmarked, because the branch returns before
      the endpoint cells are marked; Corrected marks it. */
  function HighlightCells(rules: Rules, g: Grid, s: ValidDate, e: ValidDate): (marks: set<nat>)
    ensures forall k :: k in marks ==> k < |g.cells|
  {
    if s == e then {}
    else if Before(First(g.shown), First(MonthOf(s))) then {}
    else if After(First(g.shown), First(MonthOf(e))) then {}
    else
      match (FindCell(g, s), FindCell(g, e))
      case (None, None) => NonGreyIn(g, 0, |g.cells|)
      case (None, Some(j)) => NonGreyIn(g, 0, if rules.Corrected? then j + 1 else j)
      case (Some(i), None) => NonGreyIn(g, if rules.Corrected? then i else i + 1, |g.cells|)
      case (Some(i), Some(j)) => FillBetween(g, i, j) + {j, i}
  }

  /** Reference meaning of a highlighted range: the days of the displayed
      month (non-grey cells) that lie between s and e inclusive. */
  function Span(g: Grid, s: Date, e: Date): set<nat> {
    set k: nat | k < |g.cells| && !g.cells[k].grey && !Before(g.cells[k].date, s) && !Before(e, g.cells[k].date)
  }

  // ---------------------------------------------------------------------
  // Helpers about rows and about where the range endpoints fall.

  lemma RowBounds(i: nat, k: nat)
    ensures i / 7 < k / 7 <==> RowEnd(i) <= k
    ensures k / 7 < i / 7 <==> k < RowStart(i)
  {
  }

  /** On a rendered grid a non-grey cell lies on or after s exactly when its
      position is on or after s's position (s in the displayed month), always
      when s is in an earlier month, never when s is in a later one. */
  lemma NonGreyVersusDate(rules: Rules, m: YearMonth, sel: Date, k: nat, x: ValidDate)
    requires k < 7 * Weeks(rules, m) && !BuildGrid(rules, m, sel).cells[k].grey
    ensures MonthOf(x) == m ==>
      (Before(BuildGrid(rules, m, sel).cells[k].date, x) <==> k < Lead(m) + x.day - 1)
    ensures MonthOf(x) == m ==>
      (Before(x, BuildGrid(rules, m, sel).cells[k].date) <==> Lead(m) + x.day - 1 < k)
    ensures MonthNumber(MonthOf(x)) < MonthNumber(m) ==> Before(x, BuildGrid(rules, m, sel).cells[k].date)
    ensures MonthNumber(m) < MonthNumber(MonthOf(x)) ==> Before(BuildGrid(rules, m, sel).cells[k].date, x)
  {
    CellRegion(rules, m, sel, k);
  }

  /** `monthToDisplay.diff(d.clone().date(1))` compares months. */
  lemma FirstsCompareMonths(a: YearMonth, b: YearMonth)
    ensures Before(First(a), First(b)) <==> MonthNumber(a) < MonthNumber(b)
  {
  }

  /** With s before e, a start that has no cell while the end has one lies
      in an earlier month (a truncated start would come after the end). */
  lemma AbsentStartIsEarlier(rules: Rules, m: YearMonth, sel: Date, s: ValidDate, e: ValidDate)
    requires Before(s, e)
    requires FindCell(BuildGrid(rules, m, sel), s).None? && FindCell(BuildGrid(rules, m, sel), e).Some?
    ensures MonthOf(e) == m && MonthNumber(MonthOf(s)) < MonthNumber(m)
  {
    FindCellInGrid(rules, m, sel, s);
    FindCellInGrid(rules, m, sel, e);
  }

  lemma AbsentEndIsLater(rules: Rules, m: YearMonth, sel: Date, s: ValidDate, e: ValidDate)
    requires Before(s, e)
    requires FindCell(BuildGrid(rules, m, sel), s).Some? && FindCell(BuildGrid(rules, m, sel), e).None?
    ensures MonthOf(s) == m
    ensures MonthNumber(m) < MonthNumber(MonthOf(e)) ||
            (MonthOf(e) == m && Lead(m) + e.day - 1 >= |BuildGrid(rules, m, sel).cells|)
  {
    FindCellInGrid(rules, m, sel, s);
    FindCellInGrid(rules, m, sel, e);
  }

  // ---------------------------------------------------------------------
  // What the marks mean, case by case (s before e).

  /** When every cell from i to j is non-grey, the both-visible fill plus the
      two endpoint cells is the whole interval i..j. */
  lemma FillBetweenIsInterval(g: Grid, i: nat, j: nat)
    requires i < j < |g.cells|
    requires forall k :: i <= k <= j ==> !g.cells[k].grey
    ensures FillBetween(g, i, j) + {j, i} == NonGreyIn(g, i, j + 1)
  {
    forall k: nat
      ensures k in FillBetween(g, i, j) + {j, i} <==> k in NonGreyIn(g, i, j + 1)
    {
      RowBounds(i, k);
      RowBounds(j, k);
    }
  }

  /** Both endpoints visible: exactly the days of the month from s to e,
      both included, under either rules. */
  lemma HighlightBothVisible(rules: Rules, m: YearMonth, sel: Date, s: ValidDate, e: ValidDate)
    requires Before(s, e)
    requires FindCell(BuildGrid(rules, m, sel), s).Some? && FindCell(BuildGrid(rules, m, sel), e).Some?
    ensures HighlightCells(rules, BuildGrid(rules, m, sel), s, e) == Span(BuildGrid(rules, m, sel), s, e)
  {
    var g := BuildGrid(rules, m, sel);
    FindCellInGrid(rules, m, sel, s);
    FindCellInGrid(rules, m, sel, e);
    var i, j := FindCell(g, s).value, FindCell(g, e).value;
    assert i < j;
    forall k | i <= k <= j
      ensures !g.cells[k].grey
    {
      NonGreyBetween(rules, m, sel, i, j, k);
    }
    FillBetweenIsInterval(g, i, j);
    assert HighlightCells(rules, g, s, e) == NonGreyIn(g, i, j + 1);
    forall k: nat | k < |g.cells| && !g.cells[k].grey
      ensures !Before(g.cells[k].date, s) <==> i <= k
      ensures !Before(e, g.cells[k].date) <==> k <= j
    {
      NonGreyVersusDate(rules, m, sel, k, s);
      NonGreyVersusDate(rules, m, sel, k, e);
    }
  }

  /** Cells between two non-grey cells are non-grey. */
  lemma NonGreyBetween(rules: Rules, m: YearMonth, sel: Date, i: nat, j: nat, k: nat)
    requires i <= k <= j < 7 * Weeks(rules, m)
    requires !BuildGrid(rules, m, sel).cells[i].grey && !BuildGrid(rules, m, sel).cells[j].grey
    ensures !BuildGrid(rules, m, sel).cells[k].grey
  {
    CellRegion(rules, m, sel, i);
    CellRegion(rules, m, sel, j);
    CellRegion(rules, m, sel, k);
  }

  /** Only the end visible: the days of the month strictly before e under
      AsWritten (the end cell itself stays unmarked); through e under
      Corrected, which is the span. */
  lemma HighlightOnlyEndVisible(rules: Rules, m: YearMonth, sel: Date, s: ValidDate, e: ValidDate)
    requires Before(s, e)
    requires FindCell(BuildGrid(rules, m, sel), s).None? && FindCell(BuildGrid(rules, m, sel), e).Some?
    ensures rules == AsWritten ==>
      HighlightCells(rules, BuildGrid(rules, m, sel), s, e) ==
      set k: nat | k < |BuildGrid(rules, m, sel).cells| && !BuildGrid(rules, m, sel).cells[k].grey
                   && Before(BuildGrid(rules, m, sel).cells[k].date, e)
    ensures rules == Corrected ==>
      HighlightCells(rules, BuildGrid(rules, m, sel), s, e) == Span(BuildGrid(rules, m, sel), s, e)
  {
    var g := BuildGrid(rules, m, sel);
    AbsentStartIsEarlier(rules, m, sel, s, e);
    FindCellInGrid(rules, m, sel, e);
    FirstsCompareMonths(m, MonthOf(s));
    FirstsCompareMonths(MonthOf(e), m);
    var j := FindCell(g, e).value;
    var marks := HighlightCells(rules, g, s, e);
    assert marks == NonGreyIn(g, 0, if rules.Corrected? then j + 1 else j);
    forall k: nat | k < |g.cells| && !g.cells[k].grey
      ensures Before(g.cells[k].date, e) <==> k < j
      ensures !Before(e, g.cells[k].date) <==> k <= j
      ensures !Before(g.cells[k].date, s)
    {
      NonGreyVersusDate(rules, m, sel, k, s);
      NonGreyVersusDate(rules, m, sel, k, e);
    }
  }

  /** Only the start visible: the days of the month strictly after s under
      AsWritten; from s on under Corrected, which is the span. */
  lemma HighlightOnlyStartVisible(rules: Rules, m: YearMonth, sel: Date, s: ValidDate, e: ValidDate)
    requires Before(s, e)
    requires FindCell(BuildGrid(rules, m, sel), s).Some? && FindCell(BuildGrid(rules, m, sel), e).None?
    ensures rules == AsWritten ==>
      HighlightCells(rules, BuildGrid(rules, m, sel), s, e) ==
      set k: nat | k < |BuildGrid(rules, m, sel).cells| && !BuildGrid(rules, m, sel).cells[k].grey
                   && Before(s, BuildGrid(rules, m, sel).cells[k].date)
    ensures rules == Corrected ==>
      HighlightCells(rules, BuildGrid(rules, m, sel), s, e) == Span(BuildGrid(rules, m, sel), s, e)
  {
    var g := BuildGrid(rules, m, sel);
    AbsentEndIsLater(rules, m, sel, s, e);
    FindCellInGrid(rules, m, sel, s);
    FirstsCompareMonths(m, MonthOf(s));
    FirstsCompareMonths(MonthOf(e), m);
    var i := FindCell(g, s).value;
    var marks := HighlightCells(rules, g, s, e);
    assert marks == NonGreyIn(g, if rules.Corrected? then i else i + 1, |g.cells|);
    forall k: nat | k < |g.cells| && !g.cells[k].grey
      ensures Before(s, g.cells[k].date) <==> i < k
      ensures !Before(g.cells[k].date, s) <==> i <= k
      ensures !Before(e, g.cells[k].date)
    {
      NonGreyVersusDate(rules, m, sel, k, s);
      NonGreyVersusDate(rules, m, sel, k, e);
    }
  }

  /** Neither endpoint visible: nothing when the displayed month lies outside
      the months of the range, otherwise every day of the month. */
  lemma HighlightNeitherVisible(rules: Rules, m: YearMonth, sel: Date, s: ValidDate, e: ValidDate)
    requires Before(s, e)
    requires FindCell(BuildGrid(rules, m, sel), s).None? && FindCell(BuildGrid(rules, m, sel), e).None?
    ensures HighlightCells(rules, BuildGrid(rules, m, sel), s, e) ==
      if MonthNumber(m) < MonthNumber(MonthOf(s)) || MonthNumber(MonthOf(e)) < MonthNumber(m) then {}
      else set k: nat | k < |BuildGrid(rules, m, sel).cells| && !BuildGrid(rules, m, sel).cells[k].grey
  {
    FirstsCompareMonths(m, MonthOf(s));
    FirstsCompareMonths(MonthOf(e), m);
  }

  // ---------------------------------------------------------------------
  // Inverted pairs (e before s), which an unordered configuration reaches.

  /** An inverted pair marks nothing unless both days lie in the displayed
      month: the two month guards cannot both pass otherwise. */
  lemma HighlightInvertedOtherMonths(rules: Rules, g: Grid, s: ValidDate, e: ValidDate)
    requires Before(e, s)
    requires MonthOf(s) != g.shown || MonthOf(e) != g.shown
    ensures HighlightCells(rules, g, s, e) == {}
  {
    FirstsCompareMonths(g.shown, MonthOf(s));
    FirstsCompareMonths(MonthOf(e), g.shown);
    MonthNumberInjective(g.shown, MonthOf(s));
    MonthNumberInjective(g.shown, MonthOf(e));
  }

  /** The both-visible fill for a start cell i after the end cell j. In one
      row `nextUntil` never meets the end cell, so it runs to the end of the
      row, grey cells included. Across rows every row after the start row is
      filled, and of the end row only the cells up to the end cell. */
  lemma FillBetweenInverted(g: Grid, i: nat, j: nat)
    requires j < i < |g.cells| && !g.cells[i].grey && !g.cells[j].grey
    ensures FillBetween(g, i, j) + {j, i} ==
      if i / 7 == j / 7 then {j} + (set k: nat | i <= k < RowEnd(i) && OnGrid(g, k))
      else NonGreyIn(g, i, |g.cells|) + NonGreyIn(g, RowStart(j), j + 1)
  {
    if i / 7 != j / 7 {
      forall k: nat
        ensures k in FillBetween(g, i, j) + {j, i} <==>
                k in NonGreyIn(g, i, |g.cells|) + NonGreyIn(g, RowStart(j), j + 1)
      {
        RowBounds(i, k);
        RowBounds(j, k);
      }
    }
  }

  /** An inverted pair with both cells on a grid that shows their month:
      the start's cell i comes after the end's cell j (on a rendered grid
      they sit at the positions `FindCellInGrid` gives), and the marks are
      the inverted fill plus both endpoint cells. */
  lemma HighlightInvertedOnGrid(rules: Rules, g: Grid, s: ValidDate, e: ValidDate, i: nat, j: nat)
    requires MonthOf(s) == g.shown && MonthOf(e) == g.shown && j < i
    requires FindCell(g, s) == Some(i) && FindCell(g, e) == Some(j)
    ensures HighlightCells(rules, g, s, e) ==
      if i / 7 == j / 7 then {j} + (set k: nat | i <= k < RowEnd(i) && OnGrid(g, k))
      else NonGreyIn(g, i, |g.cells|) + NonGreyIn(g, RowStart(j), j + 1)
  {
    assert s != e;
    assert !Before(First(g.shown), First(MonthOf(s))) && !After(First(g.shown), First(MonthOf(e)));
    assert HighlightCells(rules, g, s, e) == FillBetween(g, i, j) + {j, i};
    FillBetweenInverted(g, i, j);
  }

  /** February 2024 starts on a Thursday, so the 27th and 28th share the
      row of positions 28..34 with the 1st of March at 32. Highlighting from
      the 28th to the 27th marks that grey cell. */
  lemma InvertedMarksGreyFebruary2024(rules: Rules, m: YearMonth, sel: Date)
    requires m == YearMonth(2024, 1)
    ensures BuildGrid(rules, m, sel).cells[32].grey
    ensures 32 in HighlightCells(rules, BuildGrid(rules, m, sel), Date(2024, 1, 28), Date(2024, 1, 27))
  {
    var g := BuildGrid(rules, m, sel);
    FebruaryPositions(rules, m, sel);
    CellRegion(rules, m, sel, 32);
    HighlightInvertedOnGrid(rules, g, Date(2024, 1, 28), Date(2024, 1, 27), 30, 29);
    assert 32 in set k: nat | 30 <= k < 35 && OnGrid(g, k);
  }

  lemma FebruaryPositions(rules: Rules, m: YearMonth, sel: Date)
    requires m == YearMonth(2024, 1)
    ensures Lead(m) == 3 && DaysInMonth(m.year, m.index) == 29 && 7 * Weeks(rules, m) == 35
    ensures FindCell(BuildGrid(rules, m, sel), Date(2024, 1, 28)) == Some(30)
    ensures FindCell(BuildGrid(rules, m, sel), Date(2024, 1, 27)) == Some(29)
  {
    FebruaryStartsOnThursday(m);
    FebruaryHasFiveRows(rules, m);
    FindCellInGrid(rules, m, sel, Date(2024, 1, 28));
    FindCellInGrid(rules, m, sel, Date(2024, 1, 27));
  }

  lemma FebruaryHasFiveRows(rules: Rules, m: YearMonth)
    requires m == YearMonth(2024, 1)
    ensures Weeks(rules, m) == 5
  {
    FebruaryStartsOnThursday(m);
    WeeksToShowRule(m);
    WeeksNeededRule(m);
  }

  lemma FebruaryStartsOnThursday(m: YearMonth)
    requires m == YearMonth(2024, 1)
    ensures Weekday(First(m)) == 4 && Lead(m) == 3 && DaysInMonth(m.year, m.index) == 29
  {
  }

  /** A range that starts and ends on the same day marks nothing. */
  lemma HighlightSingleDay(rules: Rules, g: Grid, d: ValidDate)
    ensures HighlightCells(rules, g, d, d) == {}
  {
  }

  /** With s on or before e no grey cell is ever marked, under either rules. */
  lemma HighlightNeverGrey(rules: Rules, m: YearMonth, sel: Date, s: ValidDate, e: ValidDate, k: nat)
    requires !Before(e, s)
    requires k in HighlightCells(rules, BuildGrid(rules, m, sel), s, e)
    ensures !BuildGrid(rules, m, sel).cells[k].grey
  {
    var g := BuildGrid(rules, m, sel);
    if s != e {
      match (FindCell(g, s), FindCell(g, e))
      case (Some(_), Some(_)) =>
        HighlightBothVisible(rules, m, sel, s, e);
      case (None, Some(_)) =>
      case (Some(_), None) =>
      case (None, None) =>
    }
  }

  // ---------------------------------------------------------------------
  // The corrected rules mark exactly the span.

  /** With the corrected row count and lone endpoints marked, the marks are
      exactly the days of the displayed month from s to e (none for a
      single-day range). */
  lemma CorrectedHighlightIsSpan(m: YearMonth, sel: Date, s: ValidDate, e: ValidDate)
    requires !Before(e, s)
    ensures HighlightCells(Corrected, BuildGrid(Corrected, m, sel), s, e) ==
      if s == e then {} else Span(BuildGrid(Corrected, m, sel), s, e)
  {
    var g := BuildGrid(Corrected, m, sel);
    if s != e {
      match (FindCell(g, s), FindCell(g, e))
      case (Some(_), Some(_)) =>
        HighlightBothVisible(Corrected, m, sel, s, e);
      case (None, Some(_)) =>
        HighlightOnlyEndVisible(Corrected, m, sel, s, e);
      case (Some(_), None) =>
        HighlightOnlyStartVisible(Corrected, m, sel, s, e);
      case (None, None) =>
        CorrectedNeitherVisible(m, sel, s, e);
    }
  }

  /** On the corrected grid an endpoint without a cell lies outside the
      displayed month, so a range whose endpoints are both absent either
      misses the month or covers all of it. */
  lemma CorrectedNeitherVisible(m: YearMonth, sel: Date, s: ValidDate, e: ValidDate)
    requires Before(s, e)
    requires FindCell(BuildGrid(Corrected, m, sel), s).None? && FindCell(BuildGrid(Corrected, m, sel), e).None?
    ensures HighlightCells(Corrected, BuildGrid(Corrected, m, sel), s, e) == Span(BuildGrid(Corrected, m, sel), s, e)
  {
    var g := BuildGrid(Corrected, m, sel);
    HighlightNeitherVisible(Corrected, m, sel, s, e);
    if MonthOf(s) == m {
      CorrectedGridCoversMonth(m, sel, s);
    }
    if MonthOf(e) == m {
      CorrectedGridCoversMonth(m, sel, e);
    }
    forall k: nat | k < |g.cells| && !g.cells[k].grey
      ensures MonthNumber(MonthOf(s)) < MonthNumber(m) ==> !Before(g.cells[k].date, s)
      ensures MonthNumber(m) < MonthNumber(MonthOf(e)) ==> !Before(e, g.cells[k].date)
      ensures MonthNumber(m) < MonthNumber(MonthOf(s)) ==> Before(g.cells[k].date, s)
      ensures MonthNumber(MonthOf(e)) < MonthNumber(m) ==> Before(e, g.cells[k].date)
    {
      NonGreyVersusDate(Corrected, m, sel, k, s);
      NonGreyVersusDate(Corrected, m, sel, k, e);
    }
  }

  // ---------------------------------------------------------------------
  // The program's lone-endpoint branches.

  /** With the start in an earlier month and the end on the grid, the end's
      own cell belongs to the span but the program does not mark it. */
  lemma AsWrittenLoneEndUnmarked(m: YearMonth, sel: Date, s: ValidDate, e: ValidDate)
    requires Before(s, e) && MonthNumber(MonthOf(s)) < MonthNumber(m) && MonthOf(e) == m
    requires Lead(m) + e.day - 1 < 7 * Weeks(AsWritten, m)
    ensures Lead(m) + e.day - 1 in Span(BuildGrid(AsWritten, m, sel), s, e)
    ensures Lead(m) + e.day - 1 !in HighlightCells(AsWritten, BuildGrid(AsWritten, m, sel), s, e)
  {
    var g := BuildGrid(AsWritten, m, sel);
    var j := Lead(m) + e.day - 1;
    FindCellInGrid(AsWritten, m, sel, s);
    FindCellInGrid(AsWritten, m, sel, e);
    CellRegion(AsWritten, m, sel, j);
    NonGreyVersusDate(AsWritten, m, sel, j, s);
    HighlightOnlyEndVisible(AsWritten, m, sel, s, e);
  }

  /** March 2024 starts on a Friday, so its grid leads with four days of
      February and the 25th sits at position 28 of five rows. For the range
      20 February .. 25 March that cell is in the span and left unmarked. */
  lemma LoneEndUnmarkedMarch2024(m: YearMonth, sel: Date)
    requires m == YearMonth(2024, 2)
    ensures 28 in Span(BuildGrid(AsWritten, m, sel), Date(2024, 1, 20), Date(2024, 2, 25))
    ensures 28 !in HighlightCells(AsWritten, BuildGrid(AsWritten, m, sel), Date(2024, 1, 20), Date(2024, 2, 25))
  {
    MarchStartsOnFriday(m);
    WeeksToShowRule(m);
    AsWrittenLoneEndUnmarked(m, sel, Date(2024, 1, 20), Date(2024, 2, 25));
  }

  lemma MarchStartsOnFriday(m: YearMonth)
    requires m == YearMonth(2024, 2)
    ensures Weekday(First(m)) == 5 && Lead(m) == 4
  {
  }
}
