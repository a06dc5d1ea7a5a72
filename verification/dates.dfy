/** Gregorian date arithmetic as the picker borrows it from moment: every date
    is a local midnight, so a date is a (year, month, day) triple, adding days
    steps through the calendar one day at a time, and `diff` compares calendar
    days. Months are indexed 0..11 as moment's `month()` returns them, and
    weekdays run 0 (Sunday) .. 6 (Saturday) as `day()` returns them. */
module Dates {

  /** A month index: 0 is January, 11 is December. */
  type MonthIndex = i: int | 0 <= i < 12

  predicate IsLeapYear(y: int) {
    y % 4 == 0 && (y % 100 != 0 || y % 400 == 0)
  }

  function DaysInMonth(y: int, m: MonthIndex): (n: int)
    ensures 28 <= n <= 31
    ensures n == 29 <==> m == 1 && IsLeapYear(y)
  {
    if m == 1 then (if IsLeapYear(y) then 29 else 28)
    else if m == 3 || m == 5 || m == 8 || m == 10 then 30
    else 31
  }

  datatype Date = Date(year: int, month: MonthIndex, day: int) {
    predicate Valid() {
      1 <= day <= DaysInMonth(year, month)
    }
  }

  /** A day that exists in the proleptic Gregorian calendar. */
  type ValidDate = d: Date | d.Valid() witness Date(1970, 0, 1)

  /** A displayed month: what `moment([year, month, 1])` denotes. */
  datatype YearMonth = YearMonth(year: int, index: MonthIndex)

  function MonthOf(d: Date): YearMonth {
    YearMonth(d.year, d.month)
  }

  function First(m: YearMonth): ValidDate {
    Date(m.year, m.index, 1)
  }

  /** Months counted from January of year 0; consecutive months differ by one. */
  function MonthNumber(m: YearMonth): int {
    12 * m.year + m.index
  }

  function NextMonth(m: YearMonth): (r: YearMonth)
    ensures MonthNumber(r) == MonthNumber(m) + 1
  {
    if m.index == 11 then YearMonth(m.year + 1, 0) else YearMonth(m.year, m.index + 1)
  }

  function PrevMonth(m: YearMonth): (r: YearMonth)
    ensures MonthNumber(r) == MonthNumber(m) - 1
  {
    if m.index == 0 then YearMonth(m.year - 1, 11) else YearMonth(m.year, m.index - 1)
  }

  lemma MonthNumberInjective(a: YearMonth, b: YearMonth)
    ensures MonthNumber(a) == MonthNumber(b) <==> a == b
  {
    if MonthNumber(a) == MonthNumber(b) {
      assert 12 * (a.year - b.year) == b.index - a.index;
    }
  }

  // ---------------------------------------------------------------------
  // Ordering by calendar day: `a.diff(b) < 0` is Before(a, b).

  predicate Before(a: Date, b: Date) {
    || a.year < b.year
    || (a.year == b.year && a.month < b.month)
    || (a.year == b.year && a.month == b.month && a.day < b.day)
  }

  /** `a.diff(b) > 0`: a is a later day than b. */
  predicate After(a: Date, b: Date) {
    Before(b, a)
  }

  // ---------------------------------------------------------------------
  // Day numbers: days elapsed since 0001-01-01, an independent measure of
  // position in the calendar.

  function DaysBeforeYear(y: int): int {
    365 * (y - 1) + (y - 1) / 4 - (y - 1) / 100 + (y - 1) / 400
  }

  function YearLength(y: int): int {
    if IsLeapYear(y) then 366 else 365
  }

  function DaysBeforeMonth(y: int, m: MonthIndex): int {
    var common :=
      if m == 0 then 0 else if m == 1 then 31 else if m == 2 then 59
      else if m == 3 then 90 else if m == 4 then 120 else if m == 5 then 151
      else if m == 6 then 181 else if m == 7 then 212 else if m == 8 then 243
      else if m == 9 then 273 else if m == 10 then 304 else 334;
    common + (if m >= 2 && IsLeapYear(y) then 1 else 0)
  }

  function DayNumber(d: Date): int {
    DaysBeforeYear(d.year) + DaysBeforeMonth(d.year, d.month) + d.day - 1
  }

  /** moment's `day()`: 0 is Sunday, 1 is Monday, ..., 6 is Saturday. */
  function Weekday(d: Date): (w: int)
    ensures 0 <= w < 7
  {
    (DayNumber(d) + 1) % 7
  }

  lemma YearStep(y: int)
    ensures DaysBeforeYear(y + 1) == DaysBeforeYear(y) + YearLength(y)
  {
    var q4, q100, q400 := y / 4, y / 100, y / 400;
    assert (y - 1) / 4 == (if y % 4 == 0 then q4 - 1 else q4);
    assert (y - 1) / 100 == (if y % 100 == 0 then q100 - 1 else q100);
    assert (y - 1) / 400 == (if y % 400 == 0 then q400 - 1 else q400);
    if y % 400 == 0 {
      assert y % 100 == 0 && y % 4 == 0;
    } else if y % 100 == 0 {
      assert y % 4 == 0;
    }
  }

  lemma MonthStep(y: int, m: MonthIndex)
    requires m < 11
    ensures DaysBeforeMonth(y, m + 1) == DaysBeforeMonth(y, m) + DaysInMonth(y, m)
  {
  }

  // ---------------------------------------------------------------------
  // Day steps: moment's add('days', 1) and subtract('days', 1).

  function Next(d: ValidDate): (r: ValidDate)
    ensures Before(d, r)
  {
    if d.day < DaysInMonth(d.year, d.month) then Date(d.year, d.month, d.day + 1)
    else if d.month < 11 then Date(d.year, d.month + 1, 1)
    else Date(d.year + 1, 0, 1)
  }

  function Prev(d: ValidDate): (r: ValidDate)
    ensures Before(r, d)
  {
    if d.day > 1 then Date(d.year, d.month, d.day - 1)
    else if d.month > 0 then Date(d.year, d.month - 1, DaysInMonth(d.year, d.month - 1))
    else Date(d.year - 1, 11, 31)
  }

  lemma NextPrev(d: ValidDate)
    ensures Prev(Next(d)) == d
    ensures Next(Prev(d)) == d
  {
  }

  /** Next steps to the very next day: no valid day lies strictly between. */
  lemma NextIsSuccessor(d: ValidDate, x: ValidDate)
    ensures Before(d, x) <==> !Before(x, Next(d))
  {
  }

  lemma DayNumberNext(d: ValidDate)
    ensures DayNumber(Next(d)) == DayNumber(d) + 1
  {
    if d.day == DaysInMonth(d.year, d.month) {
      if d.month < 11 {
        MonthStep(d.year, d.month);
      } else {
        YearStep(d.year);
      }
    }
  }

  /** `d.clone().add('days', n)` for n >= 0, `subtract('days', -n)` for n < 0. */
  function Shift(d: ValidDate, n: int): ValidDate
    decreases if n < 0 then -n else n
  {
    if n == 0 then d
    else if n > 0 then Next(Shift(d, n - 1))
    else Prev(Shift(d, n + 1))
  }

  lemma ShiftStep(d: ValidDate, n: int)
    ensures Next(Shift(d, n)) == Shift(d, n + 1)
    ensures Prev(Shift(d, n)) == Shift(d, n - 1)
  {
    if n < 0 {
      NextPrev(Shift(d, n + 1));
    } else if n > 0 {
      NextPrev(Shift(d, n - 1));
    }
  }

  lemma {:induction false} ShiftAdd(d: ValidDate, a: int, b: int)
    ensures Shift(Shift(d, a), b) == Shift(d, a + b)
    decreases if b < 0 then -b else b
  {
    if b > 0 {
      ShiftAdd(d, a, b - 1);
      ShiftStep(d, a + b - 1);
    } else if b < 0 {
      ShiftAdd(d, a, b + 1);
      ShiftStep(d, a + b + 1);
    }
  }

  /** Adding n days moves the day number by exactly n. */
  lemma {:induction false} DayNumberShift(d: ValidDate, n: int)
    ensures DayNumber(Shift(d, n)) == DayNumber(d) + n
    decreases if n < 0 then -n else n
  {
    if n > 0 {
      DayNumberShift(d, n - 1);
      var p := Shift(d, n - 1);
      assert Shift(d, n) == Next(p);
      DayNumberNext(p);
    } else if n < 0 {
      DayNumberShift(d, n + 1);
      var p := Shift(d, n + 1);
      assert Shift(d, n) == Prev(p);
      DayNumberPrev(p);
    }
  }

  lemma DayNumberPrev(d: ValidDate)
    ensures DayNumber(Prev(d)) == DayNumber(d) - 1
  {
    NextPrev(d);
    DayNumberNext(Prev(d));
  }

  lemma WeekdayShift(d: ValidDate, n: int)
    ensures Weekday(Shift(d, n)) == (Weekday(d) + n) % 7
  {
    DayNumberShift(d, n);
    ModSevenAdd(DayNumber(d) + 1, n);
  }

  lemma ModSevenAdd(a: int, n: int)
    ensures (a + n) % 7 == (a % 7 + n) % 7
  {
    var q := a / 7;
    assert a == 7 * q + a % 7;
    assert (a + n) - (a % 7 + n) == 7 * q;
  }

  // ---------------------------------------------------------------------
  // Calendar order agrees with day-number order.

  lemma DayOfYearBound(d: ValidDate)
    ensures 0 <= DaysBeforeMonth(d.year, d.month) + d.day - 1 < YearLength(d.year)
  {
  }

  lemma {:induction false} YearsIncrease(y1: int, y2: int)
    requires y1 < y2
    ensures DaysBeforeYear(y1) + YearLength(y1) <= DaysBeforeYear(y2)
    decreases y2 - y1
  {
    YearStep(y1);
    if y1 + 1 < y2 {
      YearsIncrease(y1 + 1, y2);
    }
  }

  lemma MonthsIncrease(y: int, m1: MonthIndex, m2: MonthIndex)
    requires m1 < m2
    ensures DaysBeforeMonth(y, m1) + DaysInMonth(y, m1) <= DaysBeforeMonth(y, m2)
  {
  }

  lemma BeforeIsDayNumberOrder(a: ValidDate, b: ValidDate)
    ensures Before(a, b) <==> DayNumber(a) < DayNumber(b)
    ensures a == b <==> DayNumber(a) == DayNumber(b)
  {
    if a.year < b.year {
      DayOfYearBound(a);
      DayOfYearBound(b);
      YearsIncrease(a.year, b.year);
    } else if b.year < a.year {
      DayOfYearBound(a);
      DayOfYearBound(b);
      YearsIncrease(b.year, a.year);
    } else if a.month < b.month {
      MonthsIncrease(a.year, a.month, b.month);
    } else if b.month < a.month {
      MonthsIncrease(a.year, b.month, a.month);
    }
  }

  // ---------------------------------------------------------------------
  // Month arithmetic: moment's add('months', n), which keeps the day of the
  // month and clamps it to the length of the target month.

  function AddMonths(d: ValidDate, n: int): (r: ValidDate)
    ensures MonthNumber(MonthOf(r)) == MonthNumber(MonthOf(d)) + n
    ensures r.day == d.day || (r.day < d.day && r.day == DaysInMonth(r.year, r.month))
  {
    var total := 12 * d.year + d.month + n;
    var y, m := total / 12, total % 12;
    Date(y, m, if d.day <= DaysInMonth(y, m) then d.day else DaysInMonth(y, m))
  }

  lemma AddMonthsFromFirst(m: YearMonth)
    ensures AddMonths(First(m), 1) == First(NextMonth(m))
    ensures AddMonths(First(m), -1) == First(PrevMonth(m))
  {
    MonthNumberInjective(MonthOf(AddMonths(First(m), 1)), NextMonth(m));
    MonthNumberInjective(MonthOf(AddMonths(First(m), -1)), PrevMonth(m));
  }

  // ---------------------------------------------------------------------
  // Walking from the 1st of a month.

  lemma {:induction false} ShiftWithinMonth(m: YearMonth, j: int)
    requires 0 <= j < DaysInMonth(m.year, m.index)
    ensures Shift(First(m), j) == Date(m.year, m.index, j + 1)
  {
    if j > 0 {
      ShiftWithinMonth(m, j - 1);
    }
  }

  lemma {:induction false} ShiftIntoNextMonth(m: YearMonth, j: int)
    requires DaysInMonth(m.year, m.index) <= j
    requires j < DaysInMonth(m.year, m.index) + DaysInMonth(NextMonth(m).year, NextMonth(m).index)
    ensures Shift(First(m), j) == Date(NextMonth(m).year, NextMonth(m).index, j - DaysInMonth(m.year, m.index) + 1)
    decreases j
  {
    var n := DaysInMonth(m.year, m.index);
    if j == n {
      ShiftWithinMonth(m, j - 1);
    } else {
      ShiftIntoNextMonth(m, j - 1);
    }
  }

  lemma {:induction false} ShiftIntoPrevMonth(m: YearMonth, j: int)
    requires -DaysInMonth(PrevMonth(m).year, PrevMonth(m).index) <= j < 0
    ensures Shift(First(m), j) == Date(PrevMonth(m).year, PrevMonth(m).index, DaysInMonth(PrevMonth(m).year, PrevMonth(m).index) + j + 1)
    decreases -j
  {
    if j < -1 {
      ShiftIntoPrevMonth(m, j + 1);
    }
  }
}
