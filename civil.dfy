/**
 * The proleptic Gregorian calendar on integer day numbers.
 *
 * A calendar day is an integer: day 0 is 1970-01-01, negative days lie before it.
 * Months are numbered 0 (January) to 11 (December), years are unbounded, and day
 * arithmetic is integer arithmetic.  `MakeDate` is ECMAScript's MakeDay, the day
 * of a (year, month, date) triple, with months and dates outside their range
 * overflowing into the neighbouring months and years; `setDate` and the `date-fns`
 * helpers count days this way.  `ToCivil` is its inverse, the triple that
 * `getFullYear`, `getMonth` and `getDate` read back.  The constructor
 * `new Date(year, month, date)` is `NewDate`: MakeDay after reading a year from 0
 * to 99 as 1900 + year.
 */
module CivilCalendar {

  /** A calendar day, counted from 1970-01-01. */
  type Day = int

  predicate IsLeapYear(y: int) {
    y % 4 == 0 && (y % 100 != 0 || y % 400 == 0)
  }

  function DaysInYear(y: int): (n: int)
    ensures n == 365 || n == 366
    ensures n == 366 <==> IsLeapYear(y)
  {
    if IsLeapYear(y) then 366 else 365
  }

  /** Length of month `m` of year `y` (0 = January). */
  function DaysInMonth(y: int, m: int): (n: int)
    requires 0 <= m < 12
    ensures 28 <= n <= 31
    ensures m == 1 ==> (n == 29 <==> IsLeapYear(y))
  {
    if m == 1 then (if IsLeapYear(y) then 29 else 28)
    else if m == 3 || m == 5 || m == 8 || m == 10 then 30
    else 31
  }

  /** The day of January 1st of year `y`: the lengths of the years between it and 1970, counted off. */
  function YearStart(y: int): Day
    decreases if y >= 1970 then y - 1970 else 1970 - y
  {
    if y == 1970 then 0
    else if y > 1970 then YearStart(y - 1) + DaysInYear(y - 1)
    else YearStart(y + 1) - DaysInYear(y)
  }

  /** Days of year `y` that come before the 1st of month `m`. */
  function DaysBeforeMonth(y: int, m: int): int
    requires 0 <= m < 12
  {
    var common :=
      if m == 0 then 0 else if m == 1 then 31 else if m == 2 then 59
      else if m == 3 then 90 else if m == 4 then 120 else if m == 5 then 151
      else if m == 6 then 181 else if m == 7 then 212 else if m == 8 then 243
      else if m == 9 then 273 else if m == 10 then 304 else 334;
    common + (if m >= 2 && IsLeapYear(y) then 1 else 0)
  }

  /** The day of the 1st of month `m` of year `y`. */
  function MonthStart(y: int, m: int): Day
    requires 0 <= m < 12
  {
    YearStart(y) + DaysBeforeMonth(y, m)
  }

  /**
   * The day of year `y`, month `m`, date `d` (ECMAScript's MakeDay): the month
   * index is normalised by floor division into a year and a month, and the
   * date is an offset (in days) from the 1st of that month, so date 0 is the
   * last day of the previous month.
   */
  function MakeDate(y: int, m: int, d: int): Day {
    var (ny, nm) := NormaliseMonth(y, m);
    MonthStart(ny, nm) + d - 1
  }

  /** Month `m` of year `y` as a month of the range 0 .. 11 of an adjusted year. */
  function NormaliseMonth(y: int, m: int): (p: (int, int))
    ensures 0 <= p.1 < 12
    ensures 12 * p.0 + p.1 == 12 * y + m
    decreases if m < 0 then 12 - m else m
  {
    if 0 <= m < 12 then (y, m)
    else if m >= 12 then NormaliseMonth(y + 1, m - 12)
    else NormaliseMonth(y - 1, m + 12)
  }

  /** The year that `new Date(year, month, date)` uses: a year from 0 to 99 is read as 1900 + year. */
  function ConstructorYear(y: int): int {
    if 0 <= y <= 99 then 1900 + y else y
  }

  /** The day that `new Date(y, m, d)` denotes. */
  function NewDate(y: int, m: int, d: int): Day {
    MakeDate(ConstructorYear(y), m, d)
  }

  /** A (year, month, date) triple as JavaScript's getters report it. */
  datatype CivilDate = CivilDate(year: int, month: int, date: int)

  predicate ValidCivil(c: CivilDate) {
    0 <= c.month < 12 && 1 <= c.date <= DaysInMonth(c.year, c.month)
  }

  /** Day of the week, 0 = Sunday … 6 = Saturday (JavaScript's getDay); 1970-01-01 was a Thursday. */
  function Weekday(d: Day): (w: int)
    ensures 0 <= w < 7
  {
    (d + 4) % 7
  }

  /** Consecutive years abut: year `y + 1` starts right after the last day of year `y`. */
  lemma YearStep(y: int)
    ensures YearStart(y + 1) == YearStart(y) + DaysInYear(y)
  {
  }

  lemma MonthStep(y: int, m: int)
    requires 0 <= m < 11
    ensures MonthStart(y, m + 1) == MonthStart(y, m) + DaysInMonth(y, m)
  {
  }

  lemma LastMonthStep(y: int)
    ensures MonthStart(y + 1, 0) == MonthStart(y, 11) + DaysInMonth(y, 11)
  {
    YearStep(y);
  }

  /** Walks forwards from year `y` until day offset `r` falls inside a year. */
  function YearUp(y: int, r: int): (int, int)
    requires r >= 0
    decreases r
  {
    if r < DaysInYear(y) then (y, r) else YearUp(y + 1, r - DaysInYear(y))
  }

  lemma {:induction false} YearUpLands(y: int, r: int)
    requires r >= 0
    ensures var p := YearUp(y, r); YearStart(p.0) + p.1 == YearStart(y) + r && 0 <= p.1 < DaysInYear(p.0)
    decreases r
  {
    if r >= DaysInYear(y) {
      YearStep(y);
      YearUpLands(y + 1, r - DaysInYear(y));
    }
  }

  /** Walks backwards from year `y` until the negative day offset `r` falls inside a year. */
  function YearDown(y: int, r: int): (int, int)
    requires r < 0
    decreases -r
  {
    var r' := r + DaysInYear(y - 1);
    if r' >= 0 then (y - 1, r') else YearDown(y - 1, r')
  }

  lemma {:induction false} YearDownLands(y: int, r: int)
    requires r < 0
    ensures var p := YearDown(y, r); YearStart(p.0) + p.1 == YearStart(y) + r && 0 <= p.1 < DaysInYear(p.0)
    decreases -r
  {
    YearStep(y - 1);
    var r' := r + DaysInYear(y - 1);
    if r' < 0 {
      YearDownLands(y - 1, r');
    }
  }

  /** Walks through the months of year `y`, from month `m`, until offset `r` falls inside a month. */
  function MonthWalk(y: int, m: int, r: int): (p: (int, int))
    requires 0 <= m < 12
    ensures m <= p.0 < 12
    decreases 12 - m
  {
    if r < DaysInMonth(y, m) || m == 11 then (m, r) else MonthWalk(y, m + 1, r - DaysInMonth(y, m))
  }

  /** December ends the year. */
  lemma YearEndsWithDecember(y: int)
    ensures DaysBeforeMonth(y, 11) + DaysInMonth(y, 11) == DaysInYear(y)
  {
  }

  lemma {:induction false} MonthWalkLands(y: int, m: int, r: int)
    requires 0 <= m < 12 && r >= 0
    requires DaysBeforeMonth(y, m) + r < DaysInYear(y)
    ensures var p := MonthWalk(y, m, r);
      0 <= p.1 < DaysInMonth(y, p.0) && MonthStart(y, p.0) + p.1 == MonthStart(y, m) + r
    decreases 12 - m
  {
    if m == 11 {
      YearEndsWithDecember(y);
    } else if r >= DaysInMonth(y, m) {
      MonthStep(y, m);
      MonthWalkLands(y, m + 1, r - DaysInMonth(y, m));
    }
  }

  /** The calendar date of day `d`: the inverse of `MakeDate` on valid triples. */
  function ToCivil(d: Day): (c: CivilDate)
    ensures 0 <= c.month < 12
  {
    var (y, r) := if d >= 0 then YearUp(1970, d) else YearDown(1970, d);
    var (m, rm) := MonthWalk(y, 0, r);
    CivilDate(y, m, rm + 1)
  }

  /** Every day is the day of its own calendar date, and that date is a valid one. */
  lemma MakeDateToCivil(d: Day)
    ensures ValidCivil(ToCivil(d))
    ensures var c := ToCivil(d); MakeDate(c.year, c.month, c.date) == d
  {
    var (y, r) := if d >= 0 then YearUp(1970, d) else YearDown(1970, d);
    if d >= 0 { YearUpLands(1970, d); } else { YearDownLands(1970, d); }
    MonthWalkLands(y, 0, r);
    var (m, rm) := MonthWalk(y, 0, r);
    assert NormaliseMonth(y, m) == (y, m);
  }

  /** Months in one sequence: month k is month k % 12 of year k / 12. */
  function MonthNumberStart(k: int): Day {
    MonthStart(k / 12, k % 12)
  }

  lemma MonthNumberStep(k: int)
    ensures MonthNumberStart(k + 1) == MonthNumberStart(k) + DaysInMonth(k / 12, k % 12)
  {
    if k % 12 < 11 {
      assert (k + 1) / 12 == k / 12 && (k + 1) % 12 == k % 12 + 1;
      MonthStep(k / 12, k % 12);
    } else {
      assert (k + 1) / 12 == k / 12 + 1 && (k + 1) % 12 == 0;
      LastMonthStep(k / 12);
    }
  }

  /** A sequence of starts with positive gaps between neighbours: each gap ends before any later start. */
  lemma {:induction false} StepsMonotone(start: int -> int, len: int -> int, k: int, j: int)
    requires forall i :: start(i + 1) == start(i) + len(i)
    requires forall i :: len(i) > 0
    requires k < j
    ensures start(k) + len(k) <= start(j)
    decreases j - k
  {
    if k + 1 < j {
      StepsMonotone(start, len, k + 1, j);
    }
  }

  /** Every month ends before any later month starts. */
  lemma MonthNumberMonotone(k: int, j: int)
    requires k < j
    ensures MonthNumberStart(k) + DaysInMonth(k / 12, k % 12) <= MonthNumberStart(j)
  {
    var len := (i: int) => DaysInMonth(i / 12, i % 12);
    forall i ensures MonthNumberStart(i + 1) == MonthNumberStart(i) + len(i) {
      MonthNumberStep(i);
    }
    StepsMonotone(MonthNumberStart, len, k, j);
  }

  /** Two valid triples that denote the same day are the same triple. */
  lemma MakeDateInjective(a: CivilDate, b: CivilDate)
    requires ValidCivil(a) && ValidCivil(b)
    requires MakeDate(a.year, a.month, a.date) == MakeDate(b.year, b.month, b.date)
    ensures a == b
  {
    var ka, kb := 12 * a.year + a.month, 12 * b.year + b.month;
    assert ka / 12 == a.year && ka % 12 == a.month;
    assert kb / 12 == b.year && kb % 12 == b.month;
    if ka < kb {
      MonthNumberMonotone(ka, kb);
    } else if kb < ka {
      MonthNumberMonotone(kb, ka);
    }
    assert ka == kb;
  }

  /** Round trip: reading back the date of a valid triple gives the triple. */
  lemma ToCivilMakeDate(c: CivilDate)
    requires ValidCivil(c)
    ensures ToCivil(MakeDate(c.year, c.month, c.date)) == c
  {
    MakeDateToCivil(MakeDate(c.year, c.month, c.date));
    MakeDateInjective(ToCivil(MakeDate(c.year, c.month, c.date)), c);
  }

  /**
   * Reading back the date of `new Date(y, m, d)`: the triple itself, except that
   * a year from 0 to 99 comes back as 1900 + year.
   */
  lemma ToCivilNewDate(c: CivilDate)
    requires 0 <= c.month < 12 && 1 <= c.date <= DaysInMonth(ConstructorYear(c.year), c.month)
    ensures ToCivil(NewDate(c.year, c.month, c.date)) == CivilDate(ConstructorYear(c.year), c.month, c.date)
    ensures !(0 <= c.year <= 99) ==> ToCivil(NewDate(c.year, c.month, c.date)) == c
  {
    ToCivilMakeDate(CivilDate(ConstructorYear(c.year), c.month, c.date));
  }

  /**
   * Two valid triples give the same `new Date(…)` exactly when they agree once
   * their years are read as the constructor reads them: the years 50 and 1950
   * name the same day.
   */
  lemma NewDateSameDay(a: CivilDate, b: CivilDate)
    requires ValidCivil(a.(year := ConstructorYear(a.year))) && ValidCivil(b.(year := ConstructorYear(b.year)))
    ensures NewDate(a.year, a.month, a.date) == NewDate(b.year, b.month, b.date) <==>
              a.(year := ConstructorYear(a.year)) == b.(year := ConstructorYear(b.year))
  {
    var a', b' := a.(year := ConstructorYear(a.year)), b.(year := ConstructorYear(b.year));
    if NewDate(a.year, a.month, a.date) == NewDate(b.year, b.month, b.date) {
      MakeDateInjective(a', b');
    }
  }

  /* Anchoring the weekday: 1970-01-01 and later dates checked against the calendar. */

  /** The leap years among the years 1 .. n, for n >= 0. */
  function LeapCount(n: int): int {
    n / 4 - n / 100 + n / 400
  }

  lemma LeapCountStep(n: int)
    requires n >= 0
    ensures LeapCount(n + 1) == LeapCount(n) + (if IsLeapYear(n + 1) then 1 else 0)
  {
    DivStep4(n);
    DivStep100(n);
    DivStep400(n);
    var x := n + 1;
    if x % 400 == 0 {
      assert x == 400 * (x / 400);
      assert x == 100 * (4 * (x / 400)) && x == 4 * (100 * (x / 400));
    } else if x % 100 == 0 {
      assert x == 100 * (x / 100);
      assert x == 4 * (25 * (x / 100));
    }
  }

  /* Division by 4, 100 and 400 steps up by one exactly at the multiples. */

  lemma DivStep4(n: int)
    requires n >= 0
    ensures (n + 1) / 4 == n / 4 + (if (n + 1) % 4 == 0 then 1 else 0)
  {
  }

  lemma DivStep100(n: int)
    requires n >= 0
    ensures (n + 1) / 100 == n / 100 + (if (n + 1) % 100 == 0 then 1 else 0)
  {
  }

  lemma DivStep400(n: int)
    requires n >= 0
    ensures (n + 1) / 400 == n / 400 + (if (n + 1) % 400 == 0 then 1 else 0)
  {
  }

  /** From 1970 on, a year starts 365 days per year plus one per leap year after 1970-01-01. */
  lemma {:induction false} YearStartClosed(y: int)
    requires y >= 1970
    ensures YearStart(y) == 365 * (y - 1970) + LeapCount(y - 1) - LeapCount(1969)
    decreases y - 1970
  {
    if y > 1970 {
      YearStartClosed(y - 1);
      LeapCountStep(y - 2);
    }
  }

  /** The day of January 1st of a year from 1970 on, in closed form. */
  lemma NewYearDay(y: int)
    requires y >= 1970
    ensures MakeDate(y, 0, 1) == 365 * (y - 1970) + LeapCount(y - 1) - LeapCount(1969)
  {
    assert NormaliseMonth(y, 0) == (y, 0);
    YearStartClosed(y);
  }

  /** `getDay` on known dates: 1970-01-01 was a Thursday and 2000-01-01 a Saturday. */
  lemma KnownWeekdays()
    ensures Weekday(MakeDate(1970, 0, 1)) == 4
    ensures Weekday(MakeDate(2000, 0, 1)) == 6
  {
    assert NormaliseMonth(1970, 0) == (1970, 0);
    NewYearDay(2000);
    assert LeapCount(1999) - LeapCount(1969) == 7;
    assert MakeDate(2000, 0, 1) == 10957;
  }

  /** 2024-05-01 was a Wednesday. */
  lemma MayDay2024()
    ensures Weekday(MakeDate(2024, 4, 1)) == 3
  {
    NewYearDay(2024);
    DayOfYear(2024, 4, 1);
    assert LeapCount(2023) - LeapCount(1969) == 13;
    assert MakeDate(2024, 0, 1) == 19723;
  }

  /** A date of a year is counted from that year's January 1st. */
  lemma DayOfYear(y: int, m: int, d: int)
    requires 0 <= m < 12
    ensures MakeDate(y, m, d) == MakeDate(y, 0, 1) + DaysBeforeMonth(y, m) + d - 1
  {
    assert NormaliseMonth(y, m) == (y, m);
    assert NormaliseMonth(y, 0) == (y, 0);
  }

}
