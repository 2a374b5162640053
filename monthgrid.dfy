/**
 * The fixed six-week month grid of `getMonthDays` (src/utils/dateUtils.js):
 * the tail of the previous month up to the weekday of the 1st, the whole
 * month, and the head of the next month, 42 cells in all.
 */
module MonthGrid {
  import opened CivilCalendar
  import opened DateFns

  /** One cell of a calendar grid: its day and whether it belongs to the month shown. */
  datatype DayCell = DayCell(date: Day, isCurrentMonth: bool)

  const TotalCells: nat := 42

  /** The month before month `m` of year `y`. */
  function PrevMonth(y: int, m: int): (p: (int, int))
    requires 0 <= m < 12
    ensures 0 <= p.1 < 12
    ensures MonthStart(p.0, p.1) + DaysInMonth(p.0, p.1) == MonthStart(y, m)
  {
    if m == 0 then
      LastMonthStep(y - 1);
      (y - 1, 11)
    else
      MonthStep(y, m - 1);
      (y, m - 1)
  }

  /** The month after month `m` of year `y`. */
  function NextMonth(y: int, m: int): (p: (int, int))
    requires 0 <= m < 12
    ensures 0 <= p.1 < 12
    ensures MonthStart(y, m) + DaysInMonth(y, m) == MonthStart(p.0, p.1)
  {
    if m == 11 then
      LastMonthStep(y);
      (y + 1, 0)
    else
      MonthStep(y, m);
      (y, m + 1)
  }

  /** `new Date(y, m - 1, x)` is day `x` of the previous month. */
  lemma PrevMonthDate(y: int, m: int, x: int)
    requires 0 <= m < 12
    ensures var p := PrevMonth(y, m); MakeDate(y, m - 1, x) == MonthStart(p.0, p.1) + x - 1
  {
    if m == 0 {
      assert NormaliseMonth(y, m - 1) == (y - 1, 11);
    } else {
      assert NormaliseMonth(y, m - 1) == (y, m - 1);
    }
  }

  /** `new Date(y, m + 1, x)` is day `x` of the next month. */
  lemma NextMonthDate(y: int, m: int, x: int)
    requires 0 <= m < 12
    ensures var p := NextMonth(y, m); MakeDate(y, m + 1, x) == MonthStart(p.0, p.1) + x - 1
  {
    if m == 11 {
      assert NormaliseMonth(y, m + 1) == (y + 1, 0);
    } else {
      assert NormaliseMonth(y, m + 1) == (y, m + 1);
    }
  }

  /** Inside its range, the month index is not normalised. */
  lemma MakeDateInMonth(y: int, m: int, x: int)
    requires 0 <= m < 12
    ensures MakeDate(y, m, x) == MonthStart(y, m) + x - 1
  {
    assert NormaliseMonth(y, m) == (y, m);
  }

  /** The idiom `new Date(y, m + 1, 0).getDate()` gives the length of month `m` of the constructor's year. */
  lemma MonthLengthIdiom(y: int, m: int)
    requires 0 <= m < 12
    ensures ToCivil(NewDate(y, m + 1, 0)).date == DaysInMonth(ConstructorYear(y), m)
  {
    var yy := ConstructorYear(y);
    var n := DaysInMonth(yy, m);
    NextMonthDate(yy, m, 0);
    MakeDateInMonth(yy, m, n);
    assert NewDate(y, m + 1, 0) == MakeDate(yy, m, n);
    ToCivilMakeDate(CivilDate(yy, m, n));
  }

  /** The idiom `new Date(y, m, 0).getDate()` gives the length of the month before. */
  lemma PrevMonthLengthIdiom(y: int, m: int)
    requires 0 <= m < 12
    ensures var p := PrevMonth(ConstructorYear(y), m); ToCivil(NewDate(y, m, 0)).date == DaysInMonth(p.0, p.1)
  {
    var yy := ConstructorYear(y);
    var p := PrevMonth(yy, m);
    var n := DaysInMonth(p.0, p.1);
    MakeDateInMonth(yy, m, 0);
    MakeDateInMonth(p.0, p.1, n);
    assert NewDate(y, m, 0) == MakeDate(p.0, p.1, n);
    ToCivilMakeDate(CivilDate(p.0, p.1, n));
  }

  /**
   * For year 0, which is a leap year, the idiom measures February of 1900,
   * which is not: `new Date(0, 2, 0).getDate()` is 28.
   */
  lemma YearZeroFebruary()
    ensures ToCivil(NewDate(0, 2, 0)).date == 28
    ensures DaysInMonth(0, 1) == 29
  {
    MonthLengthIdiom(0, 1);
  }

  /** Day `x` of a month, counted from that month's first day. */
  lemma SegmentDate(y: int, m: int, start: Day, x: int)
    requires 0 <= m < 12 && start == MonthStart(y, m)
    requires 1 <= x <= DaysInMonth(y, m)
    ensures ToCivil(start + x - 1) == CivilDate(y, m, x)
  {
    MakeDateInMonth(y, m, x);
    ToCivilMakeDate(CivilDate(y, m, x));
  }

  /** Counting on from a Sunday, the k-th day falls on weekday k mod 7. */
  lemma WeekdayFromSunday(s: Day, k: int)
    requires Weekday(s) == 0
    ensures Weekday(s + k) == k % 7
  {
  }

  /**
   * The cells are the consecutive days from `first`, flagged exactly on the
   * positions `s .. s + n - 1`.
   */
  ghost predicate Consecutive(days: seq<DayCell>, first: Day, s: int, n: int) {
    forall k :: 0 <= k < |days| ==> days[k] == DayCell(first + k, s <= k < s + n)
  }

  /**
   * The month `getMonthDays(date)` lays out: the month of `date`, in the year
   * that the constructor makes of `date`'s year.
   */
  function GridMonth(date: Day): (p: (int, int))
    ensures 0 <= p.1 < 12
  {
    var c := ToCivil(date);
    (ConstructorYear(c.year), c.month)
  }

  /**
   * The grid in closed form: the 42 consecutive days from the Sunday on or
   * before the 1st of the grid's month, flagged on that month's own days.
   */
  function MonthGridOf(date: Day): (g: seq<DayCell>)
    ensures |g| == TotalCells
  {
    var (y, m) := GridMonth(date);
    var first := MonthStart(y, m);
    var s := Weekday(first);
    var n := DaysInMonth(y, m);
    seq(TotalCells, k => DayCell(StartOfWeek(first) + k, s <= k < s + n))
  }

  /** Consecutive cells from the grid's first Sunday, flagged on the month, are the grid. */
  lemma ConsecutiveIsGrid(date: Day, days: seq<DayCell>)
    requires |days| == TotalCells
    requires var (y, m) := GridMonth(date); var first := MonthStart(y, m);
      Consecutive(days, StartOfWeek(first), Weekday(first), DaysInMonth(y, m))
    ensures days == MonthGridOf(date)
  {
    var g := MonthGridOf(date);
    assert forall k :: 0 <= k < |days| ==> days[k] == g[k];
  }

  /**
   * The month fits in the grid with room to spare (the weekday of the 1st is
   * at most 6 and a month has at most 31 days), its cells are exactly the
   * positions from the weekday of the 1st on, and neighbouring cells are
   * neighbouring days.
   */
  lemma GridLayout(date: Day)
    ensures var days := MonthGridOf(date); var (y, m) := GridMonth(date);
      var s := Weekday(MonthStart(y, m)); var n := DaysInMonth(y, m);
      && s + n < |days|
      && (forall k :: 0 <= k < |days| ==> (days[k].isCurrentMonth <==> s <= k < s + n))
      && (forall k :: 0 <= k < |days| - 1 ==> days[k + 1].date == days[k].date + 1)
  {
    var days := MonthGridOf(date);
    assert forall k :: 0 <= k < |days| - 1 ==> days[k + 1].date == days[k].date + 1;
  }

  /** Counting on from the Sunday that opens the grid puts each cell on the weekday of its column. */
  lemma GridWeekdays(date: Day)
    ensures var days := MonthGridOf(date);
      forall k :: 0 <= k < |days| ==> Weekday(days[k].date) == k % 7
  {
    var days := MonthGridOf(date);
    var (y, m) := GridMonth(date);
    var first := StartOfWeek(MonthStart(y, m));
    assert Weekday(first) == 0;
    forall k | 0 <= k < |days|
      ensures Weekday(days[k].date) == k % 7
    {
      assert days[k].date == first + k;
      WeekdayFromSunday(first, k);
    }
  }

  /**
   * The flagged cells are the days of the month of `firstDayOfMonth`, that is
   * of `new Date(year, month, 1)`; outside the years 0 to 99 that is the month
   * of `date` itself.
   */
  lemma GridFlags(date: Day)
    ensures var days := MonthGridOf(date); var c := ToCivil(date);
      forall k :: 0 <= k < |days| ==> days[k].isCurrentMonth == IsSameMonth(days[k].date, NewDate(c.year, c.month, 1))
    ensures var days := MonthGridOf(date); var c := ToCivil(date);
      !(0 <= c.year <= 99) ==> forall k :: 0 <= k < |days| ==> days[k].isCurrentMonth == IsSameMonth(days[k].date, date)
  {
    var days := MonthGridOf(date);
    var c := ToCivil(date);
    var (y, m) := GridMonth(date);
    var f := NewDate(c.year, c.month, 1);
    var n := DaysInMonth(y, m);
    MakeDateInMonth(y, m, 1);
    MakeDateInMonth(y, m, n);
    ToCivilMakeDate(CivilDate(y, m, 1));
    assert StartOfMonth(f) == f && EndOfMonth(f) == f + n - 1;
    MakeDateToCivil(date);
    forall k | 0 <= k < |days|
      ensures days[k].isCurrentMonth == IsSameMonth(days[k].date, f)
    {
      SameMonthIffWithin(days[k].date, f);
    }
  }

  /** Cell `k` of the grid is `k - s` days from the 1st of its month, `s` being the weekday of the 1st. */
  lemma GridCellDate(date: Day)
    ensures var days := MonthGridOf(date); var (y, m) := GridMonth(date); var first := MonthStart(y, m);
      forall k :: 0 <= k < |days| ==> days[k].date == first + k - Weekday(first)
  {
  }

  /** The day `x - 1` days after the 1st of month `m` of year `y` is date `x` of that month. */
  lemma DayOfMonth(d: Day, y: int, m: int, x: int)
    requires 0 <= m < 12 && 1 <= x <= DaysInMonth(y, m)
    requires d == MonthStart(y, m) + x - 1
    ensures ToCivil(d) == CivilDate(y, m, x)
  {
    SegmentDate(y, m, MonthStart(y, m), x);
  }

  /** Cell `k` of a run of a month's days that starts at position `base` is date `k - base + 1`. */
  lemma RunCell(d: Day, base: int, y: int, m: int, k: int)
    requires 0 <= m < 12 && base <= k < base + DaysInMonth(y, m)
    requires d == MonthStart(y, m) + k - base
    ensures ToCivil(d) == CivilDate(y, m, k - base + 1)
  {
    DayOfMonth(d, y, m, k - base + 1);
  }

  /** The leading cells are the last days of the previous month. */
  lemma GridPrevDates(date: Day)
    ensures var days := MonthGridOf(date); var (y, m) := GridMonth(date);
      var s := Weekday(MonthStart(y, m)); var p := PrevMonth(y, m);
      forall k :: 0 <= k < s && k < |days| ==>
        ToCivil(days[k].date) == CivilDate(p.0, p.1, DaysInMonth(p.0, p.1) - s + 1 + k)
  {
    var days := MonthGridOf(date);
    var (y, m) := GridMonth(date);
    var s := Weekday(MonthStart(y, m));
    var p := PrevMonth(y, m);
    var n := DaysInMonth(p.0, p.1);
    GridCellDate(date);
    forall k | 0 <= k < s && k < |days|
      ensures ToCivil(days[k].date) == CivilDate(p.0, p.1, n - s + 1 + k)
    {
      RunCell(days[k].date, s - n, p.0, p.1, k);
    }
  }

  /** The flagged cells are the month's days 1, 2, … in order. */
  lemma GridMonthDates(date: Day)
    ensures var days := MonthGridOf(date); var (y, m) := GridMonth(date);
      var s := Weekday(MonthStart(y, m)); var n := DaysInMonth(y, m);
      forall k :: s <= k < s + n && k < |days| ==> ToCivil(days[k].date) == CivilDate(y, m, k - s + 1)
  {
    var days := MonthGridOf(date);
    var (y, m) := GridMonth(date);
    var s := Weekday(MonthStart(y, m));
    var n := DaysInMonth(y, m);
    GridCellDate(date);
    forall k | s <= k < s + n && k < |days|
      ensures ToCivil(days[k].date) == CivilDate(y, m, k - s + 1)
    {
      RunCell(days[k].date, s, y, m, k);
    }
  }

  /** The trailing cells are the first days of the next month. */
  lemma GridNextDates(date: Day)
    ensures var days := MonthGridOf(date); var (y, m) := GridMonth(date);
      var s := Weekday(MonthStart(y, m)); var n := DaysInMonth(y, m); var p := NextMonth(y, m);
      forall k :: s + n <= k < |days| ==> ToCivil(days[k].date) == CivilDate(p.0, p.1, k - s - n + 1)
  {
    var days := MonthGridOf(date);
    var (y, m) := GridMonth(date);
    var s := Weekday(MonthStart(y, m));
    var n := DaysInMonth(y, m);
    var p := NextMonth(y, m);
    GridCellDate(date);
    forall k | s + n <= k < |days|
      ensures ToCivil(days[k].date) == CivilDate(p.0, p.1, k - s - n + 1)
    {
      RunCell(days[k].date, s + n, p.0, p.1, k);
    }
  }

  /**
   * For a date in the years 0 to 99 the grid shows the same month of the
   * 1900s: no cell lies in the month of `date`, none is even in its year.
   */
  lemma TwoDigitYearGrid(date: Day)
    requires 0 <= ToCivil(date).year <= 99
    ensures var days := MonthGridOf(date);
      forall k :: 0 <= k < |days| ==>
        ToCivil(days[k].date).year >= 1899 && !IsSameMonth(days[k].date, date)
  {
    var days := MonthGridOf(date);
    var (y, m) := GridMonth(date);
    var s := Weekday(MonthStart(y, m));
    var n := DaysInMonth(y, m);
    GridPrevDates(date);
    GridMonthDates(date);
    GridNextDates(date);
    forall k | 0 <= k < |days|
      ensures ToCivil(days[k].date).year >= 1899
    {
      if k < s {
        assert ToCivil(days[k].date).year == PrevMonth(y, m).0;
      } else if k < s + n {
        assert ToCivil(days[k].date).year == y;
      } else {
        assert ToCivil(days[k].date).year == NextMonth(y, m).0;
      }
    }
  }

  /**
   * `getMonthDays(date)`, built as the source builds it: the previous month's
   * tail, the month itself and the next month's head, one cell at a time.
   * The result is the closed-form grid, whose properties the lemmas above state.
   */
  method GetMonthDays(date: Day) returns (days: seq<DayCell>)
    ensures days == MonthGridOf(date)
  {
    var c := ToCivil(date);
    var year, month := c.year, c.month;
    ghost var y := ConstructorYear(year);

    var firstDayOfMonth := NewDate(year, month, 1);
    var startDay := Weekday(firstDayOfMonth);

    var daysInMonth := ToCivil(NewDate(year, month + 1, 0)).date;
    var daysInPrevMonth := ToCivil(NewDate(year, month, 0)).date;
    MonthLengthIdiom(year, month);
    PrevMonthLengthIdiom(year, month);
    MakeDateInMonth(y, month, 1);
    assert firstDayOfMonth == MonthStart(y, month);
    ghost var shown := StartOfWeek(firstDayOfMonth);
    ghost var prev := PrevMonth(y, month);
    assert MonthStart(prev.0, prev.1) + daysInPrevMonth == firstDayOfMonth;

    days := [];

    // Previous month's tail
    var i := startDay - 1;
    while i >= 0
      invariant -1 <= i < startDay
      invariant |days| == startDay - 1 - i
      invariant Consecutive(days, shown, startDay, daysInMonth)
    {
      PrevMonthDate(y, month, daysInPrevMonth - i);
      days := days + [DayCell(NewDate(year, month - 1, daysInPrevMonth - i), false)];
      i := i - 1;
    }

    // Current month
    for i := 1 to daysInMonth + 1
      invariant |days| == startDay + i - 1
      invariant Consecutive(days, shown, startDay, daysInMonth)
    {
      MakeDateInMonth(y, month, i);
      days := days + [DayCell(NewDate(year, month, i), true)];
    }

    // Next month's head
    while |days| < TotalCells
      invariant startDay + daysInMonth <= |days| <= TotalCells
      invariant Consecutive(days, shown, startDay, daysInMonth)
      decreases TotalCells - |days|
    {
      var nextDay := |days| - (startDay + daysInMonth) + 1;
      NextMonthDate(y, month, nextDay);
      days := days + [DayCell(NewDate(year, month + 1, nextDay), false)];
    }

    ConsecutiveIsGrid(date, days);
  }
}
