/**
 * The date-fns helpers the calendar uses, on day numbers: `startOfWeek` and
 * `endOfWeek` with the library's default Sunday start, `startOfMonth`,
 * `endOfMonth` and `isSameMonth`.  Times of day are not modelled: every
 * helper returns the day its JavaScript counterpart falls on.
 */
module DateFns {
  import opened CivilCalendar

  /** The Sunday on or before `d`. */
  function StartOfWeek(d: Day): (s: Day)
    ensures s <= d < s + 7
    ensures Weekday(s) == 0
  {
    d - Weekday(d)
  }

  /** The Saturday on or after `d`. */
  function EndOfWeek(d: Day): (e: Day)
    ensures d <= e < d + 7
    ensures Weekday(e) == 6
    ensures StartOfWeek(e) == StartOfWeek(d)
  {
    StartOfWeek(d) + 6
  }

  /** The 1st of the month that `d` falls in. */
  function StartOfMonth(d: Day): (s: Day)
    ensures s <= d
    ensures var c := ToCivil(d); ToCivil(s) == CivilDate(c.year, c.month, 1)
  {
    var c := ToCivil(d);
    MakeDateToCivil(d);
    ToCivilMakeDate(CivilDate(c.year, c.month, 1));
    MakeDate(c.year, c.month, 1)
  }

  /** The last day of the month that `d` falls in. */
  function EndOfMonth(d: Day): (e: Day)
    ensures d <= e
    ensures var c := ToCivil(d); ToCivil(e) == CivilDate(c.year, c.month, DaysInMonth(c.year, c.month))
  {
    var c := ToCivil(d);
    MakeDateToCivil(d);
    ToCivilMakeDate(CivilDate(c.year, c.month, DaysInMonth(c.year, c.month)));
    MakeDate(c.year, c.month, DaysInMonth(c.year, c.month))
  }

  predicate IsSameMonth(a: Day, b: Day) {
    ToCivil(a).year == ToCivil(b).year && ToCivil(a).month == ToCivil(b).month
  }

  /** A month is one unbroken run of days, as long as the calendar says. */
  lemma MonthLength(d: Day)
    ensures var c := ToCivil(d); EndOfMonth(d) - StartOfMonth(d) + 1 == DaysInMonth(c.year, c.month)
  {
  }

  /** `x` is in the month of `d` exactly when it lies between that month's first and last day. */
  lemma SameMonthIffWithin(x: Day, d: Day)
    ensures IsSameMonth(x, d) <==> StartOfMonth(d) <= x <= EndOfMonth(d)
  {
    var c := ToCivil(d);
    if StartOfMonth(d) <= x <= EndOfMonth(d) {
      var cx := CivilDate(c.year, c.month, x - StartOfMonth(d) + 1);
      assert MakeDate(cx.year, cx.month, cx.date) == x;
      ToCivilMakeDate(cx);
    }
    MakeDateToCivil(x);
  }
}
