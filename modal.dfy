/**
 * The `EventModal` component (src/components/EventModal.jsx): the form for
 * one selected day, its submit, edit and delete handlers, and the
 * Google Calendar date-range text of `formatForGoogle`.
 */
module Modal {
  import opened Optional
  import opened CivilCalendar
  import opened Text
  import opened Events
  import opened CalendarView

  /* ---------------------------------------------------------------------- */
  /* The recurrence request                                                 */
  /* ---------------------------------------------------------------------- */

  /** The recurrence selector: "none" or one of the four kinds. */
  datatype FormRecurrence = NoRepeat | Repeat(kind: RepeatKind)

  /**
   * The `recurrence` object the submit hands to `saveEvent`: null for no
   * repetition; otherwise the kind and count, with the interval only for custom.
   */
  function RecurrenceRequest(recurrenceType: FormRecurrence, recurrenceCount: int, customInterval: int): (r: Option<Recurrence>)
    ensures r.None? <==> recurrenceType.NoRepeat?
    ensures r.Some? ==> r.value.kind == recurrenceType.kind && r.value.count == recurrenceCount
    ensures r.Some? ==> (r.value.interval.Some? <==> r.value.kind == Custom)
    ensures r.Some? && r.value.interval.Some? ==> r.value.interval.value == customInterval
  {
    match recurrenceType
    case NoRepeat => None
    case Repeat(kind) => Some(Recurrence(kind, recurrenceCount, if kind == Custom then Some(customInterval) else None))
  }

  /** Days between occurrences as the form offers them: daily, weekly, "monthly" (30 days) or every X days. */
  function FormInterval(kind: RepeatKind, customInterval: int): int {
    match kind
    case Daily => 1
    case Weekly => 7
    case Monthly => 30
    case Custom => customInterval
  }

  /**
   * What a submitted form adds: one event when no repetition is chosen or the
   * count is 0; otherwise `count` copies (none for a negative count), the i-th
   * moved `i * interval` days on.
   */
  lemma SubmittedOccurrences(e: Event, recurrenceType: FormRecurrence, recurrenceCount: int, customInterval: int)
    ensures var r := NewEvents(e, RecurrenceRequest(recurrenceType, recurrenceCount, customInterval));
      if recurrenceType.NoRepeat? || recurrenceCount == 0 then r == [e]
      else
        && |r| == (if recurrenceCount > 0 then recurrenceCount else 0)
        && forall i :: 0 <= i < |r| ==>
             r[i] == e.(date := e.date + i * FormInterval(recurrenceType.kind, customInterval))
  {
  }

  /* ---------------------------------------------------------------------- */
  /* The form                                                               */
  /* ---------------------------------------------------------------------- */

  const ModalConflictWarning: string :=
    "\U{26A0}\U{FE0F} Event conflict: Another event is already scheduled at this time."

  /** How a submit ended. */
  datatype SubmitOutcome =
    | Rejected   // another event of the day has the same time: nothing is stored
    | Edited     // the matching events were replaced
    | Added      // the event, or its occurrences, were appended
    | Unmatched  // the edit index names no event, but the day has none left: nothing is replaced
    | Failed     // the edit index names no event and the day still has some (the source throws here)

  /** The state of the `EventModal` component. */
  class EventModal {
    var title: string
    var time: string
    var description: string
    var editIndex: Option<nat>
    var recurrenceType: FormRecurrence
    var customInterval: int
    var recurrenceCount: int
    var conflictWarning: string

    /** The form as it is first shown and after every change of the selected day. */
    predicate IsBlank()
      reads this
    {
      && title == "" && time == "" && description == "" && editIndex == None
      && recurrenceType == NoRepeat && customInterval == 2 && recurrenceCount == 3
      && conflictWarning == ""
    }

    constructor ()
      ensures IsBlank()
    {
      title, time, description := "", "", "";
      editIndex := None;
      recurrenceType := NoRepeat;
      customInterval, recurrenceCount := 2, 3;
      conflictWarning := "";
    }

    /** The effect that runs whenever `selectedDate` changes. */
    method ResetForm()
      modifies this
      ensures IsBlank()
    {
      title, time, description := "", "", "";
      editIndex := None;
      recurrenceType := NoRepeat;
      customInterval, recurrenceCount := 2, 3;
      conflictWarning := "";
    }

    /** `handleEdit(index)`: loads event `index` of the day into the form. */
    method HandleEdit(cal: Calendar, index: nat)
      requires cal.selectedDate.Some? && index < |cal.ExistingEvents()|
      modifies this`title, this`time, this`description, this`editIndex, this`conflictWarning
      ensures var e := cal.ExistingEvents()[index];
        title == e.title && time == e.time && description == e.description
      ensures editIndex == Some(index) && conflictWarning == ""
    {
      var event := cal.ExistingEvents()[index];
      title := event.title;
      time := event.time;
      description := event.description;
      editIndex := Some(index);
      conflictWarning := "";
    }

    /** `handleDelete(index)`: removes every stored event of the day with that event's title and time. */
    method HandleDelete(cal: Calendar, index: nat)
      requires cal.selectedDate.Some? && index < |cal.ExistingEvents()|
      modifies cal`events
      ensures var target := old(cal.ExistingEvents())[index];
        cal.events == RemoveSlot(old(cal.events), cal.selectedDate.value, target.title, target.time)
    {
      var eventToDelete := cal.ExistingEvents()[index];
      cal.events := RemoveSlot(cal.events, cal.selectedDate.value, eventToDelete.title, eventToDelete.time);
    }

    /**
     * `handleSubmit`: refuses a time already taken on the day (by any event
     * but the one being edited); otherwise replaces the edited event's
     * matches, or saves the new event with its recurrence, and closes the
     * modal, which clears the calendar's warning.
     */
    method HandleSubmit(cal: Calendar) returns (outcome: SubmitOutcome)
      requires cal.selectedDate.Some?
      modifies this`conflictWarning, cal`events, cal`conflictWarning, cal`selectedDate
      ensures var day := old(cal.selectedDate.value);
        var existing := EventsOn(old(cal.events), day);
        var event := Event(title, time, description, day);
        && (ModalConflict(existing, editIndex, time, day) <==> outcome == Rejected)
        && (outcome == Rejected ==>
              && conflictWarning == ModalConflictWarning
              && cal.events == old(cal.events) && cal.selectedDate == old(cal.selectedDate)
              && cal.conflictWarning == old(cal.conflictWarning))
        && (outcome == Edited <==>
              !ModalConflict(existing, editIndex, time, day) && editIndex.Some? && editIndex.value < |existing|)
        && (outcome == Edited ==>
              var target := existing[editIndex.value];
              cal.events == ReplaceInSlot(old(cal.events), day, target.title, target.time, event))
        && (outcome == Added <==> !ModalConflict(existing, editIndex, time, day) && editIndex.None?)
        && (outcome == Added ==>
              cal.events == old(cal.events) +
                            NewEvents(event, RecurrenceRequest(recurrenceType, recurrenceCount, customInterval)))
        && (outcome == Unmatched <==>
              !ModalConflict(existing, editIndex, time, day) && editIndex.Some? && editIndex.value >= |existing|
              && existing == [])
        && (outcome == Unmatched ==> cal.events == old(cal.events))
        && (outcome == Edited || outcome == Added || outcome == Unmatched ==>
              cal.selectedDate == None && cal.conflictWarning == "")
        && (outcome == Failed <==>
              !ModalConflict(existing, editIndex, time, day) && editIndex.Some? && editIndex.value >= |existing|
              && existing != [])
        && (outcome == Failed ==>
              cal.events == old(cal.events) && cal.selectedDate == old(cal.selectedDate)
              && cal.conflictWarning == old(cal.conflictWarning))
        && (outcome != Rejected ==> conflictWarning == old(conflictWarning))
    {
      var day := cal.selectedDate.value;
      var event := Event(title, time, description, day);
      var existing := cal.ExistingEvents();

      var isConflict := ModalConflict(existing, editIndex, time, day);
      if isConflict {
        conflictWarning := ModalConflictWarning;
        return Rejected;
      }

      if editIndex.Some? {
        if editIndex.value >= |existing| {
          if existing != [] {
            return Failed;
          }
          // No stored event is on the day, so the map's first test fails for every event
          // and the missing entry is never read.
          outcome := Unmatched;
        } else {
          var target := existing[editIndex.value];
          cal.events := ReplaceInSlot(cal.events, day, target.title, target.time, event);
          outcome := Edited;
        }
      } else {
        var recurrence := RecurrenceRequest(recurrenceType, recurrenceCount, customInterval);
        cal.SaveEvent(event, recurrence);
        outcome := Added;
      }

      cal.CloseModal();
    }
  }

  /* ---------------------------------------------------------------------- */
  /* formatForGoogle                                                        */
  /* ---------------------------------------------------------------------- */

  /** `pad(n)`: a leading "0" below ten, the plain number otherwise. */
  function Pad(n: int): string {
    if n < 10 then "0" + IntToString(n) else IntToString(n)
  }

  /** Year, month (1-12) and date of `d`, written as the source writes them. */
  function DateStamp(d: Day): string {
    var c := ToCivil(d);
    IntToString(c.year) + Pad(c.month + 1) + Pad(c.date)
  }

  /** JavaScript's text for a missing array element in a template literal. */
  const Undefined: string := "undefined"

  /**
   * `formatForGoogle(date, timeStr)`: "<stamp>T<hour><minute>00/<stamp>T<hour+1><minute>00".
   * A missing time means 09:00; the hour and minute are the text on either
   * side of the first colon, and only the end hour is parsed, incremented and padded.
   */
  function FormatForGoogle(d: Day, timeStr: Option<string>): string {
    GoogleRange(DateStamp(d), timeStr)
  }

  /** The range text for a date already written as `stamp`. */
  function GoogleRange(stamp: string, timeStr: Option<string>): string {
    var parts := if timeStr.Some? then Split(timeStr.value, ':') else ["09", "00"];
    var hour := parts[0];
    var minute := if |parts| >= 2 then parts[1] else Undefined;
    var endHour := PadStart2(NumberToString(AddOne(ParseInt(hour))));
    RangeText(stamp, hour, minute, endHour)
  }

  /** "<stamp>T<hour><minute>00/<stamp>T<endHour><minute>00". */
  function RangeText(stamp: string, hour: string, minute: string, endHour: string): string {
    (stamp + "T" + hour + minute + "00") + "/" + (stamp + "T" + endHour + minute + "00")
  }

  /** A number below 100 in the two-digit form that a time input shows. */
  function TwoDigits(n: nat): (s: string)
    requires n < 100
    ensures |s| == 2 && AllDigits(s) && DigitsValue(s) == n
  {
    NatToStringValue(n);
    if n < 10 then
      var s := "0" + NatToString(n);
      assert s[..1] == "0";
      s
    else
      NatToStringLength(n, 2);
      NatToString(n)
  }

  /** `pad` writes the months and dates of a calendar date with two digits. */
  lemma PadIsTwoDigits(n: nat)
    requires 1 <= n < 100
    ensures Pad(n) == TwoDigits(n)
  {
    if n >= 10 {
      NatToStringLength(n, 2);
    }
  }

  /** The stamp is the year followed by the two-digit month and date. */
  lemma DateStampShape(d: Day)
    ensures var c := ToCivil(d);
      ValidCivil(c) && DateStamp(d) == IntToString(c.year) + TwoDigits(c.month + 1) + TwoDigits(c.date)
  {
    var c := ToCivil(d);
    MakeDateToCivil(d);
    PadIsTwoDigits(c.month + 1);
    PadIsTwoDigits(c.date);
  }

  /** `parseInt` reads a two-digit number back. */
  lemma ParseTwoDigits(n: nat)
    requires n < 100
    ensures ParseInt(TwoDigits(n)) == Finite(n)
  {
    var s := TwoDigits(n);
    assert !IsJsSpace(s[0]) && s[0] != '-' && s[0] != '+';
    assert DigitRun(s) == 2 by {
      assert IsDigit(s[0]) && IsDigit(s[1]);
      assert s[1..][1..] == [];
    }
    assert s[..2] == s;
  }

  /** The end hour is printed with two digits. */
  lemma PadStartTwoDigits(n: nat)
    requires n < 100
    ensures PadStart2(NatToString(n)) == TwoDigits(n)
  {
    if n >= 10 {
      NatToStringLength(n, 2);
    }
  }

  /**
   * An input time "HH:MM" gives a range of one hour on the same day: the end
   * hour is the start hour plus one, printed with two digits.
   */
  lemma GoogleRangeForTime(stamp: string, h: nat, m: nat)
    requires h < 24 && m < 60
    ensures GoogleRange(stamp, Some(TwoDigits(h) + ":" + TwoDigits(m))) ==
              RangeText(stamp, TwoDigits(h), TwoDigits(m), TwoDigits(h + 1))
  {
    var hh, mm := TwoDigits(h), TwoDigits(m);
    assert ':' !in hh && ':' !in mm by {
      assert forall i :: 0 <= i < 2 ==> IsDigit(hh[i]) && IsDigit(mm[i]);
    }
    assert hh + ":" + mm == hh + [':'] + mm;
    SplitOnce(hh, mm, ':');
    ParseTwoDigits(h);
    PadStartTwoDigits(h + 1);
    var endHour := PadStart2(NumberToString(AddOne(ParseInt(hh))));
    assert endHour == TwoDigits(h + 1);
  }

  /**
   * The whole text for a day and an input time "HH:MM": the day's year,
   * two-digit month and date, then the hour from HH:MM to HH+1.
   */
  lemma FormatForGoogleForTime(d: Day, h: nat, m: nat)
    requires h < 24 && m < 60
    ensures var c := ToCivil(d);
      && ValidCivil(c)
      && FormatForGoogle(d, Some(TwoDigits(h) + ":" + TwoDigits(m))) ==
           RangeText(IntToString(c.year) + TwoDigits(c.month + 1) + TwoDigits(c.date),
                     TwoDigits(h), TwoDigits(m), TwoDigits(h + 1))
  {
    DateStampShape(d);
    GoogleRangeForTime(DateStamp(d), h, m);
  }

  /** No time given: 09:00 to 10:00. */
  lemma GoogleDefaultRange(stamp: string)
    ensures GoogleRange(stamp, None) == RangeText(stamp, "09", "00", "10")
  {
    assert ParseInt("09") == Finite(9) by {
      ParseTwoDigits(9);
      assert TwoDigits(9) == "09";
    }
    assert NatToString(10) == "10";
  }

  /** A time in the 23rd hour ends at hour "24" of the same day: the end does not roll over. */
  lemma GoogleLateHourEndsAt24(stamp: string, m: nat)
    requires m < 60
    ensures GoogleRange(stamp, Some("23:" + TwoDigits(m))) == RangeText(stamp, "23", TwoDigits(m), "24")
  {
    var mm := TwoDigits(m);
    assert TwoDigits(23) == "23";
    assert TwoDigits(24) == "24";
    assert "23:" + mm == TwoDigits(23) + ":" + mm;
    GoogleRangeForTime(stamp, 23, m);
  }

  /**
   * An event saved without a time has time "", which splits into one empty
   * piece: the minute is undefined and the end hour is NaN.
   */
  lemma GoogleEmptyTime(stamp: string)
    ensures GoogleRange(stamp, Some("")) == RangeText(stamp, "", Undefined, "NaN")
  {
  }
}
