/**
 * The `Calendar` component (src/components/Calendar.jsx): the visible grid of
 * weeks, navigation by week or by thirty days, and the state handlers that
 * store, warn about and move events.
 */
module CalendarView {
  import opened Optional
  import opened CivilCalendar
  import opened DateFns
  import opened MonthGrid
  import opened Events

  /* ---------------------------------------------------------------------- */
  /* The grid of weeks (generateCalendar)                                   */
  /* ---------------------------------------------------------------------- */

  /** First day shown: the Sunday of the current week, or of the week holding the 1st. */
  function ViewStart(currentDate: Day, isWeeklyView: bool): (s: Day)
    ensures Weekday(s) == 0
    ensures isWeeklyView ==> s <= currentDate < s + 7
    ensures !isWeeklyView ==> s <= StartOfMonth(currentDate) < s + 7
  {
    if isWeeklyView then StartOfWeek(currentDate) else StartOfWeek(StartOfMonth(currentDate))
  }

  /** Last day shown: six days on in week view, the Saturday after the month's last day otherwise. */
  function ViewEnd(currentDate: Day, isWeeklyView: bool): (e: Day)
    ensures Weekday(e) == 6
    ensures isWeeklyView ==> currentDate <= e < currentDate + 7
    ensures !isWeeklyView ==> EndOfMonth(currentDate) <= e < EndOfMonth(currentDate) + 7
  {
    if isWeeklyView then ViewStart(currentDate, true) + 6 else EndOfWeek(EndOfMonth(currentDate))
  }

  /** A cell as `generateCalendar` builds it: flagged when it lies in the month of `currentDate`. */
  function CellOf(d: Day, currentDate: Day): DayCell {
    DayCell(d, IsSameMonth(d, currentDate))
  }

  /** Seven consecutive cells from `first`. */
  function WeekFrom(first: Day, currentDate: Day): (week: seq<DayCell>)
    ensures |week| == 7
  {
    seq(7, i => CellOf(first + i, currentDate))
  }

  /** The shown range is whole weeks, Sunday to Saturday; a month needs four to six of them. */
  lemma ViewSpan(currentDate: Day, isWeeklyView: bool)
    ensures var span := ViewEnd(currentDate, isWeeklyView) + 1 - ViewStart(currentDate, isWeeklyView);
      && span % 7 == 0
      && (isWeeklyView ==> span == 7)
      && (!isWeeklyView ==> 28 <= span <= 42)
  {
    var a, b := ViewStart(currentDate, isWeeklyView), ViewEnd(currentDate, isWeeklyView);
    WholeWeeks(a, b);
    if isWeeklyView {
      assert b == a + 6;
    } else {
      MonthLength(currentDate);
      MonthSpan(a, StartOfMonth(currentDate), EndOfMonth(currentDate), b);
    }
  }

  /** A month of 28 to 31 days, widened to whole weeks on both sides, spans four to six weeks. */
  lemma MonthSpan(a: int, s: int, e: int, b: int)
    requires a <= s < a + 7 && e <= b < e + 7 && 28 <= e + 1 - s <= 31
    requires (b + 1 - a) % 7 == 0
    ensures 28 <= b + 1 - a <= 42
  {
    AtMostSixWeeks(b + 1 - a);
  }

  lemma AtMostSixWeeks(n: int)
    requires n % 7 == 0 && n <= 43
    ensures n <= 42
  {
  }

  /** From a Sunday to a Saturday is a whole number of weeks. */
  lemma WholeWeeks(a: Day, b: Day)
    requires Weekday(a) == 0 && Weekday(b) == 6
    ensures (b + 1 - a) % 7 == 0
  {
    var p, q := (a + 4) / 7, (b + 4) / 7;
    assert a + 4 == 7 * p && b + 4 == 7 * q + 6;
    assert b + 1 - a == 7 * (q - p + 1);
  }

  /** `count` rows of seven consecutive cells, the first starting at `start`. */
  function WeeksFrom(start: Day, count: nat, currentDate: Day): (weeks: seq<seq<DayCell>>)
    ensures |weeks| == count
    ensures forall w :: 0 <= w < count ==> weeks[w] == WeekFrom(start + 7 * w, currentDate)
  {
    seq(count, w => WeekFrom(start + 7 * w, currentDate))
  }

  lemma WeeksFromCell(start: Day, count: nat, currentDate: Day, w: int, i: int)
    requires 0 <= w < count && 0 <= i < 7
    ensures WeeksFrom(start, count, currentDate)[w][i] == CellOf(start + 7 * w + i, currentDate)
  {
    assert WeeksFrom(start, count, currentDate)[w] == WeekFrom(start + 7 * w, currentDate);
  }

  /** Seven cells, each the cell of its day counted from `first`, are the week from `first`. */
  lemma IsWeekFrom(first: Day, currentDate: Day, week: seq<DayCell>)
    requires |week| == 7
    requires forall j :: 0 <= j < 7 ==> week[j] == CellOf(first + j, currentDate)
    ensures week == WeekFrom(first, currentDate)
  {
  }

  lemma WeeksFromSnoc(start: Day, count: nat, currentDate: Day)
    ensures WeeksFrom(start, count + 1, currentDate) ==
              WeeksFrom(start, count, currentDate) + [WeekFrom(start + 7 * count, currentDate)]
  {
    var longer, shorter := WeeksFrom(start, count + 1, currentDate), WeeksFrom(start, count, currentDate);
    assert forall w :: 0 <= w < count ==> longer[w] == shorter[w];
  }

  /** Number of rows shown. */
  function ViewRows(currentDate: Day, isWeeklyView: bool): (n: nat)
    ensures 7 * n == ViewEnd(currentDate, isWeeklyView) + 1 - ViewStart(currentDate, isWeeklyView)
  {
    ViewSpan(currentDate, isWeeklyView);
    (ViewEnd(currentDate, isWeeklyView) + 1 - ViewStart(currentDate, isWeeklyView)) / 7
  }

  /** The weeks the view shows, in closed form. */
  function CalendarWeeksOf(currentDate: Day, isWeeklyView: bool): seq<seq<DayCell>> {
    WeeksFrom(ViewStart(currentDate, isWeeklyView), ViewRows(currentDate, isWeeklyView), currentDate)
  }

  /**
   * `generateCalendar()`: rows of seven days from `ViewStart` through
   * `ViewEnd`, one row only in week view.
   */
  method GenerateCalendar(currentDate: Day, isWeeklyView: bool) returns (weeks: seq<seq<DayCell>>)
    ensures weeks == CalendarWeeksOf(currentDate, isWeeklyView)
  {
    var start := ViewStart(currentDate, isWeeklyView);
    var end := ViewEnd(currentDate, isWeeklyView);
    ghost var rows := ViewRows(currentDate, isWeeklyView);

    var day := start;
    weeks := [];

    while day <= end
      invariant 0 <= |weeks| <= rows
      invariant day == start + 7 * |weeks|
      invariant isWeeklyView ==> |weeks| == 0
      invariant weeks == WeeksFrom(start, |weeks|, currentDate)
      decreases end - day
    {
      ghost var first := day;
      var week: seq<DayCell> := [];
      for i := 0 to 7
        invariant |week| == i && day == first + i
        invariant forall j :: 0 <= j < i ==> week[j] == CellOf(first + j, currentDate)
      {
        week := week + [DayCell(day, IsSameMonth(day, currentDate))];
        day := day + 1;
      }
      IsWeekFrom(first, currentDate, week);
      WeeksFromSnoc(start, |weeks|, currentDate);
      weeks := weeks + [week];
      if isWeeklyView {
        break;
      }
    }
  }

  /** Cell `i` of row `w` of the view. */
  lemma CellAt(currentDate: Day, isWeeklyView: bool, w: int, i: int)
    requires 0 <= w < ViewRows(currentDate, isWeeklyView) && 0 <= i < 7
    ensures CalendarWeeksOf(currentDate, isWeeklyView)[w][i] ==
              CellOf(ViewStart(currentDate, isWeeklyView) + 7 * w + i, currentDate)
  {
    WeeksFromCell(ViewStart(currentDate, isWeeklyView), ViewRows(currentDate, isWeeklyView), currentDate, w, i);
  }

  /** Rows from a Sunday: consecutive days, each in the column of its weekday. */
  lemma WeeksFromSunday(start: Day, count: nat, currentDate: Day)
    requires Weekday(start) == 0
    ensures var weeks := WeeksFrom(start, count, currentDate);
      forall w: int, i: int :: 0 <= w < count && 0 <= i < 7 ==>
        && weeks[w][i].date == start + 7 * w + i
        && Weekday(weeks[w][i].date) == i
  {
    var weeks: seq<seq<DayCell>> := WeeksFrom(start, count, currentDate);
    forall w: int, i: int | 0 <= w < count && 0 <= i < 7
      ensures weeks[w][i].date == start + 7 * w + i
      ensures Weekday(weeks[w][i].date) == i
    {
      assert weeks[w][i] == WeekFrom(start + 7 * w, currentDate)[i] == CellOf(start + 7 * w + i, currentDate);
      MonthGrid.WeekdayFromSunday(start, 7 * w + i);
    }
  }

  /** Every row runs Sunday to Saturday and the rows follow each other without gaps. */
  lemma CalendarRows(currentDate: Day, isWeeklyView: bool)
    ensures var weeks := CalendarWeeksOf(currentDate, isWeeklyView);
      && |weeks| >= 1
      && weeks[0][0].date == ViewStart(currentDate, isWeeklyView)
      && weeks[|weeks| - 1][6].date == ViewEnd(currentDate, isWeeklyView)
      && forall w: int, i: int :: 0 <= w < |weeks| && 0 <= i < 7 ==>
           && weeks[w][i].date == weeks[0][0].date + 7 * w + i
           && Weekday(weeks[w][i].date) == i
  {
    var start, rows := ViewStart(currentDate, isWeeklyView), ViewRows(currentDate, isWeeklyView);
    ViewSpan(currentDate, isWeeklyView);
    WeeksFromSunday(start, rows, currentDate);
  }

  /** Week view: one row, the week that holds the current date. */
  lemma WeekViewShowsCurrentWeek(currentDate: Day)
    ensures var weeks := CalendarWeeksOf(currentDate, true);
      && |weeks| == 1
      && weeks[0][0].date <= currentDate <= weeks[0][6].date
  {
    CellAt(currentDate, true, 0, 0);
    CellAt(currentDate, true, 0, 6);
  }

  /**
   * Month view: four to six rows, from on or before the 1st to on or after the
   * month's last day.
   */
  lemma MonthViewShowsMonth(currentDate: Day)
    ensures var weeks := CalendarWeeksOf(currentDate, false);
      && 4 <= |weeks| <= 6
      && weeks[0][0].date <= StartOfMonth(currentDate)
      && EndOfMonth(currentDate) <= weeks[|weeks| - 1][6].date
  {
    ViewSpan(currentDate, false);
    var rows := ViewRows(currentDate, false);
    FourToSixRows(rows);
    var weeks: seq<seq<DayCell>> := CalendarWeeksOf(currentDate, false);
    CellAt(currentDate, false, 0, 0);
    CellAt(currentDate, false, rows - 1, 6);
  }

  lemma FourToSixRows(n: nat)
    requires 28 <= 7 * n <= 42
    ensures 4 <= n <= 6
  {
  }

  /** In month view a cell is flagged exactly when its day lies within the month. */
  lemma MonthViewFlagsMonth(currentDate: Day)
    ensures var weeks := CalendarWeeksOf(currentDate, false);
      forall w: int, i: int :: 0 <= w < |weeks| && 0 <= i < 7 ==>
        (weeks[w][i].isCurrentMonth <==>
           StartOfMonth(currentDate) <= weeks[w][i].date <= EndOfMonth(currentDate))
  {
    var weeks: seq<seq<DayCell>> := CalendarWeeksOf(currentDate, false);
    forall w: int, i: int | 0 <= w < |weeks| && 0 <= i < 7
      ensures weeks[w][i].isCurrentMonth <==>
                StartOfMonth(currentDate) <= weeks[w][i].date <= EndOfMonth(currentDate)
    {
      CellAt(currentDate, false, w, i);
      SameMonthIffWithin(weeks[w][i].date, currentDate);
    }
  }

  /**
   * The month view's rows are the leading rows of `getMonthDays`'s 42-cell
   * grid for the same date: both start on the same Sunday and flag the same
   * days.  In the years 0 to 99 they part: `getMonthDays` lays out the month
   * of the 1900s (MonthGrid.TwoDigitYearGrid), while `date-fns` keeps the year.
   */
  lemma MonthViewAgreesWithMonthGrid(currentDate: Day)
    requires !(0 <= ToCivil(currentDate).year <= 99)
    ensures var weeks := CalendarWeeksOf(currentDate, false);
      var grid := MonthGridOf(currentDate);
      forall w: int, i: int :: 0 <= w < |weeks| && 0 <= i < 7 ==> 7 * w + i < |grid| && weeks[w][i] == grid[7 * w + i]
  {
    ViewSpan(currentDate, false);
    var rows := ViewRows(currentDate, false);
    var weeks: seq<seq<DayCell>> := CalendarWeeksOf(currentDate, false);
    var grid := MonthGridOf(currentDate);
    forall w: int, i: int | 0 <= w < |weeks| && 0 <= i < 7
      ensures 7 * w + i < |grid| && weeks[w][i] == grid[7 * w + i]
    {
      assert 7 * w + i < 7 * rows;
      CellAt(currentDate, false, w, i);
      GridCellAt(currentDate, 7 * w + i);
    }
  }

  /** Cell `k` of `getMonthDays`'s grid is the cell of the `k`-th day from its first Sunday. */
  lemma GridCellAt(currentDate: Day, k: int)
    requires !(0 <= ToCivil(currentDate).year <= 99)
    requires 0 <= k < TotalCells
    ensures MonthGridOf(currentDate)[k] == CellOf(StartOfWeek(StartOfMonth(currentDate)) + k, currentDate)
  {
    var grid := MonthGridOf(currentDate);
    var c := ToCivil(currentDate);
    assert GridMonth(currentDate) == (c.year, c.month);
    MonthGrid.MakeDateInMonth(c.year, c.month, 1);
    assert StartOfMonth(currentDate) == MonthStart(c.year, c.month);
    MonthLength(currentDate);
    SameMonthIffWithin(grid[k].date, currentDate);
  }

  /* ---------------------------------------------------------------------- */
  /* Navigation (goToNext, goToPrev)                                        */
  /* ---------------------------------------------------------------------- */

  /** Days moved by one press of Next or Prev. */
  function NavigationStep(isWeeklyView: bool): (n: int)
    ensures n == 7 || n == 30
    ensures n == 7 <==> isWeeklyView
  {
    if isWeeklyView then 7 else 30
  }

  /** In week view, Next shows exactly the following week. */
  lemma WeeklyNextShowsNextWeek(currentDate: Day)
    ensures ViewStart(currentDate + NavigationStep(true), true) == ViewStart(currentDate, true) + 7
  {
  }

  /** In month view, thirty days on from January 31st is in March: February is never shown. */
  lemma MonthlyNextSkipsFebruary(year: int)
    ensures ToCivil(MakeDate(year, 0, 31) + NavigationStep(false)) ==
              CivilDate(year, 2, if IsLeapYear(year) then 1 else 2)
  {
    var x := if IsLeapYear(year) then 1 else 2;
    MonthStep(year, 0);
    MonthStep(year, 1);
    MonthGrid.MakeDateInMonth(year, 0, 31);
    MonthGrid.MakeDateInMonth(year, 2, x);
    ToCivilMakeDate(CivilDate(year, 2, x));
  }

  /** In month view, thirty days on from January 1st is still January: Next shows the same month again. */
  lemma MonthlyNextCanStay(year: int)
    ensures ToCivil(MakeDate(year, 0, 1) + NavigationStep(false)) == CivilDate(year, 0, 31)
  {
    MonthGrid.MakeDateInMonth(year, 0, 1);
    MonthGrid.MakeDateInMonth(year, 0, 31);
    ToCivilMakeDate(CivilDate(year, 0, 31));
  }

  /* ---------------------------------------------------------------------- */
  /* Component state                                                        */
  /* ---------------------------------------------------------------------- */

  /** The state of the `Calendar` component. */
  class Calendar {
    var currentDate: Day
    var events: seq<Event>
    var selectedDate: Option<Day>
    var conflictWarning: string
    var filterText: string
    var isWeeklyView: bool

    /** Initial state: month view of `today`, no events, no modal open. */
    constructor (today: Day)
      ensures currentDate == today && events == [] && selectedDate == None
      ensures conflictWarning == "" && filterText == "" && !isWeeklyView
    {
      currentDate := today;
      events := [];
      selectedDate := None;
      conflictWarning := "";
      filterText := "";
      isWeeklyView := false;
    }

    method GoToNext()
      modifies this`currentDate
      ensures currentDate == old(currentDate) + NavigationStep(isWeeklyView)
    {
      currentDate := currentDate + (if isWeeklyView then 7 else 30);
    }

    method GoToPrev()
      modifies this`currentDate
      ensures currentDate == old(currentDate) - NavigationStep(isWeeklyView)
    {
      currentDate := currentDate - (if isWeeklyView then 7 else 30);
    }

    /** The view toggle button. */
    method ToggleView()
      modifies this`isWeeklyView
      ensures isWeeklyView == !old(isWeeklyView)
    {
      isWeeklyView := !isWeeklyView;
    }

    /** The search box. */
    method SetFilterText(text: string)
      modifies this`filterText
      ensures filterText == text
    {
      filterText := text;
    }

    method OpenModal(date: Day)
      modifies this`selectedDate, this`conflictWarning
      ensures selectedDate == Some(date) && conflictWarning == ""
    {
      selectedDate := Some(date);
      conflictWarning := "";
    }

    method CloseModal()
      modifies this`selectedDate, this`conflictWarning
      ensures selectedDate == None && conflictWarning == ""
    {
      selectedDate := None;
      conflictWarning := "";
    }

    /**
     * `saveEvent(event, recurrence)`: appends the event, or its occurrences,
     * after the stored events; each new event is checked against the events
     * stored before the call, and a clash sets the warning.
     */
    method SaveEvent(event: Event, recurrence: Option<Recurrence>)
      modifies this`events, this`conflictWarning
      ensures events == old(events) + NewEvents(event, recurrence)
      ensures conflictWarning == SaveWarning(old(events), event, recurrence, old(conflictWarning))
    {
      var newEvents: seq<Event> := [];
      if recurrence.Some? && recurrence.value.count != 0 {
        var rec := recurrence.value;
        var interval := RepeatInterval(rec);
        var i := 0;
        while i < rec.count
          invariant 0 <= i && (rec.count > 0 ==> i <= rec.count) && (rec.count <= 0 ==> i == 0)
          invariant newEvents == Occurrences(event, interval, i)
          invariant events == old(events)
          invariant conflictWarning ==
                      if AnyConflict(events, newEvents) then RecurringConflictWarning else old(conflictWarning)
        {
          var repeatedEvent := event.(date := event.date + i * interval);
          if CheckConflict(events, repeatedEvent) {
            conflictWarning := RecurringConflictWarning;
          }
          AnyConflictSnoc(events, newEvents, repeatedEvent);
          assert Occurrences(event, interval, i + 1) == newEvents + [repeatedEvent];
          newEvents := newEvents + [repeatedEvent];
          i := i + 1;
        }
      } else {
        if CheckConflict(events, event) {
          conflictWarning := EventConflictWarning;
        }
        AnyConflictSnoc(events, newEvents, event);
        newEvents := newEvents + [event];
      }
      events := events + newEvents;
    }

    /**
     * `onDragEnd`: moves the event at `draggableIndex` to `destination`
     * unless the move clashes; `alerted` is whether the refusal alert is shown.
     */
    method OnDragEnd(draggableIndex: int, destination: Option<Day>) returns (alerted: bool)
      modifies this`events
      ensures events == Drop(old(events), draggableIndex, destination)
      ensures alerted <==> destination.Some? && 0 <= draggableIndex < |old(events)|
                           && !Movable(old(events), draggableIndex, destination)
    {
      alerted := false;
      if destination.None? {
        return;
      }
      if !(0 <= draggableIndex < |events|) {
        return;
      }
      var draggedEvent := events[draggableIndex];
      var updatedEvent := draggedEvent.(date := destination.value);
      if CheckConflict(events, updatedEvent) {
        alerted := true;
        return;
      }
      var updatedEvents := events;
      updatedEvents := updatedEvents[draggableIndex := updatedEvent];
      events := updatedEvents;
    }

    /** The `dayEvents` of the cell for `cellDate`. */
    function DayEventsAt(cellDate: Day): seq<IndexedEvent>
      reads this
    {
      DayEvents(events, cellDate, filterText)
    }

    /** The `existingEvents` handed to the open modal. */
    function ExistingEvents(): seq<Event>
      reads this
      requires selectedDate.Some?
    {
      EventsOn(events, selectedDate.value)
    }
  }
}
