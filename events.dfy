/**
 * The calendar's event list and the pure operations on it: the conflict
 * test of `checkConflict`, recurrence expansion for `saveEvent`, the guarded
 * positional overwrite of `onDragEnd`, the match-based edit and delete of the
 * event modal, the modal's own conflict test, and the per-day search filter.
 *
 * Every operation is a transformation of an ordered sequence of events; the
 * handlers that apply them to component state are in CalendarView and Modal.
 */
module Events {
  import opened Optional
  import opened CivilCalendar
  import opened Text

  /** An event as the calendar stores it; an empty `time` means no time was entered. */
  datatype Event = Event(title: string, time: string, description: string, date: Day)

  /* ---------------------------------------------------------------------- */
  /* Conflicts (Calendar.jsx, checkConflict)                                */
  /* ---------------------------------------------------------------------- */

  /**
   * The test `checkConflict` applies to one stored event: the same day, the
   * same time text (two empty times are the same text) and a different title.
   */
  predicate Clashes(stored: Event, candidate: Event) {
    stored.date == candidate.date && stored.time == candidate.time && stored.title != candidate.title
  }

  /** `events.some(e => Clashes(e, candidate))`. */
  function CheckConflict(events: seq<Event>, candidate: Event): (r: bool)
    ensures r <==> exists i :: 0 <= i < |events| && Clashes(events[i], candidate)
  {
    if events == [] then false
    else
      var rest := CheckConflict(events[1..], candidate);
      assert forall i :: 1 <= i < |events| ==> events[i] == events[1..][i - 1];
      Clashes(events[0], candidate) || rest
  }

  /** Inserting an event with the candidate's own title never changes the verdict. */
  lemma SameTitleNeverConflicts(before: seq<Event>, e: Event, after: seq<Event>, candidate: Event)
    requires e.title == candidate.title
    ensures CheckConflict(before + [e] + after, candidate) == CheckConflict(before + after, candidate)
  {
    var all, rest := before + [e] + after, before + after;
    if CheckConflict(all, candidate) {
      var i :| 0 <= i < |all| && Clashes(all[i], candidate);
      if i < |before| {
        assert rest[i] == all[i];
      } else {
        assert rest[i - 1] == all[i];
      }
    }
    if CheckConflict(rest, candidate) {
      var i :| 0 <= i < |rest| && Clashes(rest[i], candidate);
      if i < |before| {
        assert all[i] == rest[i];
      } else {
        assert all[i + 1] == rest[i];
      }
    }
  }

  /** Two events without a time, on the same day and with different titles, clash: "" equals "". */
  lemma EmptyTimesClash(d: Day, a: string, b: string)
    requires a != b
    ensures CheckConflict([Event(a, "", "", d)], Event(b, "", "", d))
  {
    assert Clashes([Event(a, "", "", d)][0], Event(b, "", "", d));
  }

  /** No two events of the list clash: the invariant the conflict checks try to keep. */
  predicate ConflictFree(events: seq<Event>) {
    forall i, j :: 0 <= i < |events| && 0 <= j < |events| ==> !Clashes(events[i], events[j])
  }

  /* ---------------------------------------------------------------------- */
  /* Recurrence expansion (Calendar.jsx, saveEvent)                         */
  /* ---------------------------------------------------------------------- */

  datatype RepeatKind = Daily | Weekly | Monthly | Custom

  /** The recurrence object the modal hands to `saveEvent`; `interval` is null except for custom. */
  datatype Recurrence = Recurrence(kind: RepeatKind, count: int, interval: Option<int>)

  /** Days between occurrences: 1, 7 and 30, or the custom value (a null one counts as 0, as `i * null` does). */
  function RepeatInterval(r: Recurrence): int {
    match r.kind
    case Daily => 1
    case Weekly => 7
    case Monthly => 30
    case Custom => if r.interval.Some? then r.interval.value else 0
  }

  /** `recurrence?.type && recurrence.count`: only a recurrence with a non-zero count is expanded. */
  predicate Expands(rec: Option<Recurrence>) {
    rec.Some? && rec.value.count != 0
  }

  /** The first `count` occurrences of `e`, `interval` days apart. */
  function Occurrences(e: Event, interval: int, count: int): (r: seq<Event>)
    ensures |r| == if count > 0 then count else 0
    ensures forall i :: 0 <= i < |r| ==> r[i] == e.(date := e.date + i * interval)
    decreases count
  {
    if count <= 0 then []
    else Occurrences(e, interval, count - 1) + [e.(date := e.date + (count - 1) * interval)]
  }

  /** The events `saveEvent` appends for `e` and `rec`, in generation order. */
  function NewEvents(e: Event, rec: Option<Recurrence>): seq<Event> {
    if Expands(rec) then Occurrences(e, RepeatInterval(rec.value), rec.value.count) else [e]
  }

  /** Expansion yields `count` occurrences `interval` days apart, each a copy of `e` but for its date. */
  lemma NewEventsShape(e: Event, rec: Option<Recurrence>)
    ensures var r := NewEvents(e, rec);
      && (Expands(rec) ==> |r| == if rec.value.count > 0 then rec.value.count else 0)
      && (!Expands(rec) ==> r == [e])
      && forall i :: 0 <= i < |r| ==>
           && r[i].title == e.title && r[i].time == e.time && r[i].description == e.description
           && r[i].date == e.date + i * (if Expands(rec) then RepeatInterval(rec.value) else 0)
  {
  }

  /** Some of the new events clashes with a stored one (the new events are not checked against each other). */
  predicate AnyConflict(events: seq<Event>, news: seq<Event>) {
    exists k :: 0 <= k < |news| && CheckConflict(events, news[k])
  }

  /** One more new event: a conflict overall is one among the earlier ones or one for it. */
  lemma AnyConflictSnoc(events: seq<Event>, news: seq<Event>, x: Event)
    ensures AnyConflict(events, news + [x]) <==> AnyConflict(events, news) || CheckConflict(events, x)
  {
    var all := news + [x];
    assert all[|news|] == x;
    assert forall k :: 0 <= k < |news| ==> all[k] == news[k];
  }

  const RecurringConflictWarning: string := "Warning: Recurring event conflict detected."
  const EventConflictWarning: string := "Warning: Event conflict detected."

  /**
   * The warning after `saveEvent`: on a conflict of any new event with a stored
   * one, the recurring or the single-event message; otherwise unchanged.
   */
  function SaveWarning(events: seq<Event>, e: Event, rec: Option<Recurrence>, previous: string): (w: string)
    ensures AnyConflict(events, NewEvents(e, rec)) ==>
              w == if Expands(rec) then RecurringConflictWarning else EventConflictWarning
    ensures !AnyConflict(events, NewEvents(e, rec)) ==> w == previous
  {
    if !Expands(rec) then
      assert NewEvents(e, rec)[0] == e;
      if CheckConflict(events, e) then EventConflictWarning else previous
    else if AnyConflict(events, NewEvents(e, rec)) then RecurringConflictWarning
    else previous
  }

  /** Example: a custom recurrence every 3 days, 3 times, from 2024-05-01. */
  lemma GymExample()
    ensures var gym := Event("Gym", "", "", MakeDate(2024, 4, 1));
      var r := NewEvents(gym, Some(Recurrence(Custom, 3, Some(3))));
      |r| == 3 && r[0].date == MakeDate(2024, 4, 1) && r[1].date == MakeDate(2024, 4, 4)
      && r[2].date == MakeDate(2024, 4, 7)
  {
  }

  /* ---------------------------------------------------------------------- */
  /* Drag and drop (Calendar.jsx, onDragEnd)                                */
  /* ---------------------------------------------------------------------- */

  /** A drop takes effect: it has a destination, an event at the index, and the moved event clashes with none. */
  predicate Movable(events: seq<Event>, index: int, destination: Option<Day>) {
    && destination.Some?
    && 0 <= index < |events|
    && !CheckConflict(events, events[index].(date := destination.value))
  }

  /** The list after dropping the event at `index` on `destination`. */
  function Drop(events: seq<Event>, index: int, destination: Option<Day>): (r: seq<Event>)
    ensures |r| == |events|
    ensures forall j :: 0 <= j < |events| && j != index ==> r[j] == events[j]
    ensures Movable(events, index, destination) ==> r[index] == events[index].(date := destination.value)
    ensures !Movable(events, index, destination) ==> r == events
  {
    if destination.None? then events
    else if !(0 <= index < |events|) then events
    else
      var moved := events[index].(date := destination.value);
      if CheckConflict(events, moved) then events else events[index := moved]
  }

  /** A drop never introduces a clash. */
  lemma DropKeepsConflictFree(events: seq<Event>, index: int, destination: Option<Day>)
    requires ConflictFree(events)
    ensures ConflictFree(Drop(events, index, destination))
  {
    var r := Drop(events, index, destination);
    if Movable(events, index, destination) {
      forall i, j | 0 <= i < |r| && 0 <= j < |r|
        ensures !Clashes(r[i], r[j])
      {
        if i == index && j != index {
          assert !Clashes(events[j], r[index]);
        } else if j == index && i != index {
          assert !Clashes(events[i], r[index]);
        }
      }
    }
  }

  /* ---------------------------------------------------------------------- */
  /* The event modal's list operations (EventModal.jsx)                      */
  /* ---------------------------------------------------------------------- */

  /** `events.filter(e => same day as day)`: the modal's `existingEvents`. */
  function EventsOn(events: seq<Event>, day: Day): (r: seq<Event>)
    ensures |r| <= |events|
    ensures forall k :: 0 <= k < |r| ==> r[k] in events && r[k].date == day
    ensures forall i :: 0 <= i < |events| && events[i].date == day ==> events[i] in r
  {
    if events == [] then []
    else
      var rest := EventsOn(events[1..], day);
      assert forall i :: 1 <= i < |events| ==> events[i] == events[1..][i - 1];
      if events[0].date == day then [events[0]] + rest else rest
  }

  /** The filter works piecewise: the day's events of a concatenation are those of each part, in order. */
  lemma {:induction false} EventsOnAppend(a: seq<Event>, b: seq<Event>, day: Day)
    ensures EventsOn(a + b, day) == EventsOn(a, day) + EventsOn(b, day)
  {
    if a == [] {
      assert a + b == b;
    } else {
      assert (a + b)[0] == a[0] && (a + b)[1..] == a[1..] + b;
      EventsOnAppend(a[1..], b, day);
    }
  }

  /** A one-event list keeps its event exactly when it is on the day. */
  lemma EventsOnSingle(e: Event, day: Day)
    ensures EventsOn([e], day) == if e.date == day then [e] else []
  {
    assert [e][1..] == [];
  }

  /** Two events of the day, stored in that order, are listed in that order. */
  lemma EventsOnKeepsOrder(a: Event, b: Event, day: Day)
    requires a.date == day && b.date == day
    ensures EventsOn([a, b], day) == [a, b]
  {
    assert [a, b] == [a] + [b];
    EventsOnAppend([a], [b], day);
    EventsOnSingle(a, day);
    EventsOnSingle(b, day);
  }

  /**
   * The modal's test: some existing event other than the one at `editIndex`
   * has the same time text on the same day.  Titles are not compared.
   */
  function ModalConflict(existing: seq<Event>, editIndex: Option<nat>, time: string, day: Day): (r: bool)
    ensures r <==> exists idx :: 0 <= idx < |existing| && editIndex != Some(idx)
                                 && existing[idx].time == time && existing[idx].date == day
  {
    if existing == [] then false
    else
      var n := |existing| - 1;
      var rest := ModalConflict(existing[..n], editIndex, time, day);
      assert forall idx :: 0 <= idx < n ==> existing[idx] == existing[..n][idx];
      rest || (editIndex != Some(n) && existing[n].time == time && existing[n].date == day)
  }

  /**
   * Example: with "Standup" at 09:00 stored on a day, adding "Sync" at 09:00 on
   * that day is refused by the modal, although `checkConflict` alone would only warn.
   */
  lemma ModalRefusesSameTimeAdd(d: Day)
    ensures var stored := [Event("Standup", "09:00", "", d)];
      var sync := Event("Sync", "09:00", "", d);
      && CheckConflict(stored, sync)
      && ModalConflict(EventsOn(stored, d), None, sync.time, d)
  {
    var stored := [Event("Standup", "09:00", "", d)];
    assert Clashes(stored[0], Event("Sync", "09:00", "", d));
    assert EventsOn(stored, d)[0] == stored[0];
  }

  /** The three fields by which edit and delete recognise an event. */
  predicate InSlot(e: Event, day: Day, title: string, time: string) {
    e.date == day && e.title == title && e.time == time
  }

  /** `prev.map(e => InSlot(e, …) ? replacement : e)`: the edit. */
  function ReplaceInSlot(events: seq<Event>, day: Day, title: string, time: string, replacement: Event): (r: seq<Event>)
    ensures |r| == |events|
    ensures forall i :: 0 <= i < |events| ==>
              r[i] == if InSlot(events[i], day, title, time) then replacement else events[i]
  {
    if events == [] then []
    else
      var head := if InSlot(events[0], day, title, time) then replacement else events[0];
      [head] + ReplaceInSlot(events[1..], day, title, time, replacement)
  }

  /** With no stored event on the day, the edit's map replaces nothing, whatever title and time it looks for. */
  lemma ReplaceOnEmptyDay(events: seq<Event>, day: Day, title: string, time: string, replacement: Event)
    requires EventsOn(events, day) == []
    ensures ReplaceInSlot(events, day, title, time, replacement) == events
  {
  }

  /** `prev.filter(e => !InSlot(e, …))`: the delete. */
  function RemoveSlot(events: seq<Event>, day: Day, title: string, time: string): (r: seq<Event>)
    ensures |r| <= |events|
    ensures forall k :: 0 <= k < |r| ==> r[k] in events && !InSlot(r[k], day, title, time)
    ensures forall i :: 0 <= i < |events| && !InSlot(events[i], day, title, time) ==> events[i] in r
  {
    if events == [] then []
    else
      var rest := RemoveSlot(events[1..], day, title, time);
      assert forall i :: 1 <= i < |events| ==> events[i] == events[1..][i - 1];
      if InSlot(events[0], day, title, time) then rest else [events[0]] + rest
  }

  /** Delete works piecewise, so the kept events stay in their original order. */
  lemma {:induction false} RemoveSlotAppend(a: seq<Event>, b: seq<Event>, day: Day, title: string, time: string)
    ensures RemoveSlot(a + b, day, title, time) == RemoveSlot(a, day, title, time) + RemoveSlot(b, day, title, time)
  {
    if a != [] {
      var ab := a + b;
      assert ab[0] == a[0] && ab[1..] == a[1..] + b;
      RemoveSlotHead(ab, day, title, time);
      RemoveSlotHead(a, day, title, time);
      RemoveSlotAppend(a[1..], b, day, title, time);
      var h := if InSlot(a[0], day, title, time) then [] else [a[0]];
      var r1, rb := RemoveSlot(a[1..], day, title, time), RemoveSlot(b, day, title, time);
      assert h + (r1 + rb) == (h + r1) + rb;
    } else {
      assert a + b == b;
    }
  }

  /** Delete on a non-empty list: the head is kept unless it is in the slot, then the rest follows. */
  lemma RemoveSlotHead(s: seq<Event>, day: Day, title: string, time: string)
    requires s != []
    ensures RemoveSlot(s, day, title, time) ==
              (if InSlot(s[0], day, title, time) then [] else [s[0]]) + RemoveSlot(s[1..], day, title, time)
  {
    if InSlot(s[0], day, title, time) {
      assert [] + RemoveSlot(s[1..], day, title, time) == RemoveSlot(s[1..], day, title, time);
    }
  }

  /** Delete of a list with no event in the slot leaves it as it is. */
  lemma {:induction false} RemoveSlotNoMatch(events: seq<Event>, day: Day, title: string, time: string)
    requires forall i :: 0 <= i < |events| ==> !InSlot(events[i], day, title, time)
    ensures RemoveSlot(events, day, title, time) == events
  {
    if events != [] {
      RemoveSlotNoMatch(events[1..], day, title, time);
      assert [events[0]] + events[1..] == events;
    }
  }

  /** Delete removes every event of the slot: the kept ones are the others, counted exactly. */
  lemma {:induction false} RemoveSlotCount(events: seq<Event>, day: Day, title: string, time: string)
    ensures |RemoveSlot(events, day, title, time)| == |events| - SlotCount(events, day, title, time)
  {
    if events != [] {
      RemoveSlotCount(events[1..], day, title, time);
    }
  }

  /** How many events of the list are in the slot. */
  function SlotCount(events: seq<Event>, day: Day, title: string, time: string): nat {
    if events == [] then 0
    else (if InSlot(events[0], day, title, time) then 1 else 0) + SlotCount(events[1..], day, title, time)
  }

  /** The modal's test is stricter than `checkConflict` on its day: a candidate it lets through clashes with no stored event. */
  lemma ModalCheckCoversConflict(events: seq<Event>, e: Event)
    requires !ModalConflict(EventsOn(events, e.date), None, e.time, e.date)
    ensures !CheckConflict(events, e)
  {
    var existing := EventsOn(events, e.date);
    forall i | 0 <= i < |events|
      ensures !Clashes(events[i], e)
    {
      if events[i].date == e.date {
        assert events[i] in existing;
        var idx :| 0 <= idx < |existing| && existing[idx] == events[i];
        assert existing[idx].time != e.time;
      }
    }
  }

  /** An add the modal lets through, without recurrence, keeps the list free of clashes. */
  lemma ModalAddKeepsConflictFree(events: seq<Event>, e: Event)
    requires ConflictFree(events)
    requires !ModalConflict(EventsOn(events, e.date), None, e.time, e.date)
    ensures ConflictFree(events + NewEvents(e, None))
  {
    ModalCheckCoversConflict(events, e);
    var r := events + [e];
    assert NewEvents(e, None) == [e];
    forall i, j | 0 <= i < |r| && 0 <= j < |r|
      ensures !Clashes(r[i], r[j])
    {
      if i < |events| && j == |events| {
        assert !Clashes(events[i], e);
      } else if j < |events| && i == |events| {
        assert !Clashes(events[j], e);
      }
    }
  }

  /** An edit the modal lets through keeps the list free of clashes. */
  lemma ModalEditKeepsConflictFree(events: seq<Event>, day: Day, editIndex: nat, replacement: Event)
    requires ConflictFree(events)
    requires editIndex < |EventsOn(events, day)|
    requires replacement.date == day
    requires !ModalConflict(EventsOn(events, day), Some(editIndex), replacement.time, day)
    ensures var old_ := EventsOn(events, day)[editIndex];
      ConflictFree(ReplaceInSlot(events, day, old_.title, old_.time, replacement))
  {
    var existing := EventsOn(events, day);
    var target := existing[editIndex];
    var r := ReplaceInSlot(events, day, target.title, target.time, replacement);
    forall i, j | 0 <= i < |r| && 0 <= j < |r|
      ensures !Clashes(r[i], r[j])
    {
      var ini, inj := InSlot(events[i], day, target.title, target.time), InSlot(events[j], day, target.title, target.time);
      if ini && !inj {
        NotClashingReplacement(existing, editIndex, target, replacement, events[j], day);
      } else if inj && !ini {
        NotClashingReplacement(existing, editIndex, target, replacement, events[i], day);
      }
    }
  }

  /** An event on the day, outside the edited slot, has a time the modal would have refused. */
  lemma NotClashingReplacement(existing: seq<Event>, editIndex: nat, target: Event, replacement: Event, e: Event, day: Day)
    requires editIndex < |existing| && target == existing[editIndex]
    requires replacement.date == day
    requires !ModalConflict(existing, Some(editIndex), replacement.time, day)
    requires e.date == day ==> e in existing
    requires !InSlot(e, day, target.title, target.time)
    ensures !Clashes(e, replacement) && !Clashes(replacement, e)
  {
    if e.date == day {
      var idx :| 0 <= idx < |existing| && existing[idx] == e;
      assert idx != editIndex;
      assert e.time != replacement.time;
    }
  }

  /** A delete keeps the list free of clashes. */
  lemma DeleteKeepsConflictFree(events: seq<Event>, day: Day, title: string, time: string)
    requires ConflictFree(events)
    ensures ConflictFree(RemoveSlot(events, day, title, time))
  {
    var r := RemoveSlot(events, day, title, time);
    forall i, j | 0 <= i < |r| && 0 <= j < |r|
      ensures !Clashes(r[i], r[j])
    {
      var a :| 0 <= a < |events| && events[a] == r[i];
      var b :| 0 <= b < |events| && events[b] == r[j];
    }
  }

  /**
   * Conflicts on a recurrence are advisory: an add the modal accepts can
   * still append an occurrence that clashes with a stored event.
   */
  lemma RecurrenceMayClash()
    ensures var stored := [Event("Standup", "09:00", "", 1)];
      var e := Event("Sync", "09:00", "", 0);
      var rec := Some(Recurrence(Daily, 2, None));
      && ConflictFree(stored)
      && !ModalConflict(EventsOn(stored, e.date), None, e.time, e.date)
      && AnyConflict(stored, NewEvents(e, rec))
      && !ConflictFree(stored + NewEvents(e, rec))
  {
    var stored := [Event("Standup", "09:00", "", 1)];
    var e := Event("Sync", "09:00", "", 0);
    var news := NewEvents(e, Some(Recurrence(Daily, 2, None)));
    assert news[1] == Event("Sync", "09:00", "", 1);
    assert Clashes(stored[0], news[1]);
    assert CheckConflict(stored, news[1]);
    assert (stored + news)[0] == stored[0] && (stored + news)[2] == news[1];
    assert Clashes((stored + news)[0], (stored + news)[2]);
    assert EventsOn(stored, 0) == [];
  }

  /* ---------------------------------------------------------------------- */
  /* The day filter (Calendar.jsx, dayEvents)                                */
  /* ---------------------------------------------------------------------- */

  /** An event together with its position in the whole list (the drag id). */
  datatype IndexedEvent = IndexedEvent(event: Event, index: nat)

  /** The filter: on the day, and the lower-cased title or description contains the lower-cased search text. */
  predicate Shown(e: Event, day: Day, filterText: string) {
    && e.date == day
    && (Includes(ToLower(e.title), ToLower(filterText)) || Includes(ToLower(e.description), ToLower(filterText)))
  }

  /** `events.map((e, idx) => ({...e, index: idx})).filter(e => Shown(e, …))`. */
  function DayEvents(events: seq<Event>, day: Day, filterText: string): (r: seq<IndexedEvent>)
    ensures forall k :: 0 <= k < |r| ==>
              r[k].index < |events| && r[k].event == events[r[k].index] && Shown(r[k].event, day, filterText)
    ensures forall i :: 0 <= i < |events| && Shown(events[i], day, filterText) ==>
              exists k :: 0 <= k < |r| && r[k].index == i
    ensures forall k, l :: 0 <= k < l < |r| ==> r[k].index < r[l].index
  {
    if events == [] then []
    else
      var n := |events| - 1;
      var prefix := DayEvents(events[..n], day, filterText);
      DayEventsStep(events, day, filterText, prefix);
      if Shown(events[n], day, filterText) then prefix + [IndexedEvent(events[n], n)] else prefix
  }

  /** The three promises of `DayEvents` about a result `r` for `events`. */
  ghost predicate IndexedFilter(r: seq<IndexedEvent>, events: seq<Event>, day: Day, filterText: string) {
    && (forall k :: 0 <= k < |r| ==>
          r[k].index < |events| && r[k].event == events[r[k].index] && Shown(r[k].event, day, filterText))
    && (forall i :: 0 <= i < |events| && Shown(events[i], day, filterText) ==>
          exists k :: 0 <= k < |r| && r[k].index == i)
    && (forall k, l :: 0 <= k < l < |r| ==> r[k].index < r[l].index)
  }

  /** One more event: the filtered prefix, followed by the last event when it is shown. */
  lemma DayEventsStep(events: seq<Event>, day: Day, filterText: string, prefix: seq<IndexedEvent>)
    requires events != []
    requires IndexedFilter(prefix, events[..|events| - 1], day, filterText)
    ensures var n := |events| - 1;
      IndexedFilter(if Shown(events[n], day, filterText) then prefix + [IndexedEvent(events[n], n)] else prefix,
                    events, day, filterText)
  {
    var n := |events| - 1;
    if Shown(events[n], day, filterText) {
      ShownStep(events, day, filterText, prefix);
    } else {
      HiddenStep(events, day, filterText, prefix);
    }
  }

  /** The last event is shown: it follows the filtered prefix with index n. */
  lemma ShownStep(events: seq<Event>, day: Day, filterText: string, prefix: seq<IndexedEvent>)
    requires events != [] && Shown(events[|events| - 1], day, filterText)
    requires IndexedFilter(prefix, events[..|events| - 1], day, filterText)
    ensures IndexedFilter(prefix + [IndexedEvent(events[|events| - 1], |events| - 1)], events, day, filterText)
  {
    var n := |events| - 1;
    var front := events[..n];
    var r := prefix + [IndexedEvent(events[n], n)];
    forall k | 0 <= k < |r|
      ensures r[k].index < |events| && r[k].event == events[r[k].index] && Shown(r[k].event, day, filterText)
    {
      if k < |prefix| {
        assert r[k] == prefix[k];
        assert front[prefix[k].index] == events[prefix[k].index];
      }
    }
    forall i | 0 <= i < |events| && Shown(events[i], day, filterText)
      ensures exists k :: 0 <= k < |r| && r[k].index == i
    {
      if i < n {
        assert front[i] == events[i];
        var k :| 0 <= k < |prefix| && prefix[k].index == i;
        assert r[k] == prefix[k];
      } else {
        assert r[|prefix|].index == i;
      }
    }
    forall k, l | 0 <= k < l < |r|
      ensures r[k].index < r[l].index
    {
      assert r[k] == prefix[k];
      if l < |prefix| {
        assert r[l] == prefix[l];
      }
    }
  }

  /** The last event is hidden: the filtered prefix is the whole result. */
  lemma HiddenStep(events: seq<Event>, day: Day, filterText: string, prefix: seq<IndexedEvent>)
    requires events != [] && !Shown(events[|events| - 1], day, filterText)
    requires IndexedFilter(prefix, events[..|events| - 1], day, filterText)
    ensures IndexedFilter(prefix, events, day, filterText)
  {
    var n := |events| - 1;
    var front := events[..n];
    forall k | 0 <= k < |prefix|
      ensures prefix[k].index < |events| && prefix[k].event == events[prefix[k].index]
    {
      assert front[prefix[k].index] == events[prefix[k].index];
    }
    forall i | 0 <= i < |events| && Shown(events[i], day, filterText)
      ensures exists k :: 0 <= k < |prefix| && prefix[k].index == i
    {
      assert front[i] == events[i];
    }
  }

  /** With an empty search text the filter keeps exactly the events of the day. */
  lemma EmptyFilterKeepsDay(events: seq<Event>, day: Day)
    ensures var r := DayEvents(events, day, "");
      forall i :: 0 <= i < |events| ==> ((exists k :: 0 <= k < |r| && r[k].index == i) <==> events[i].date == day)
  {
    assert ToLower("") == "";
    forall e: Event {
      IncludesEmpty(ToLower(e.title));
    }
  }
}
