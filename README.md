# Event calendar: a verified model of its scheduling logic

This project models the scheduling core of a small React event calendar (hemakotha/custom-event-calendar) and proves properties of the model. Three parts are covered:

- **The `Calendar` component** (`src/components/Calendar.jsx`):
  - the visible grid of weeks;
  - navigation;
  - the event list;
  - the conflict check;
  - saving with recurrence;
  - drag and drop;
  - the per-day search filter.
- **The `EventModal` component** (`src/components/EventModal.jsx`):
  - the form, its reset on a change of day, edit, delete and submit;
  - the Google Calendar date-range formatter.
- **The `getMonthDays` helper** (`src/utils/dateUtils.js`), which builds a 42-cell month grid.

Dates are whole days. A `Day` is an integer with day 0 = 1970-01-01, which was a Thursday. A proleptic Gregorian calendar connects day numbers to (year, month 0-11, date) in module `CivilCalendar`. `MakeDate(y, m, d)` is ECMAScript's MakeDay: it normalises out-of-range months and dates the way `setDate` and the Date constructor do. `ToCivil` is its inverse, the triple that `getFullYear`, `getMonth` and `getDate` read back (`MakeDateToCivil`, `ToCivilMakeDate`). The constructor `new Date(y, m, d)` is `NewDate`, which first reads a year from 0 to 99 as 1900 + year (`ConstructorYear`). `Weekday` follows `getDay`, with 0 = Sunday. The `date-fns` helpers the calendar uses are functions over this calendar, in module `DateFns`: `startOfWeek` (Sunday start), `endOfWeek`, `startOfMonth`, `endOfMonth` and `isSameMonth`.

Module layout:

| module | contents |
|---|---|
| `Optional` | the `Option` datatype, for JavaScript's `null` and `undefined` |
| `CivilCalendar` | leap years, month lengths, day numbers ↔ civil dates |
| `DateFns` | week and month boundaries, same-month test |
| `Text` | lower-casing, `includes`, `split`, `parseInt`, number printing, `padStart` |
| `Events` | the event record and the pure list operations |
| `MonthGrid` | `getMonthDays` and its closed form |
| `CalendarView` | `generateCalendar`, navigation, and `class Calendar` (the component's state and handlers) |
| `Modal` | `class EventModal` (the form and its handlers) and `formatForGoogle` |

Shape of the model:

- **Component state.** Each component's state is a class whose fields are its `useState` variables. Each handler is a method that changes only the fields it sets.
- **Grid builders.** `generateCalendar` and `getMonthDays` are methods with the source's loops. Each is proved equal to a closed-form function (`CalendarWeeksOf`, `MonthGridOf`), and the lemmas state the grid properties about those functions.

### Behaviours of the code worth knowing

- **Empty times clash.** `checkConflict` compares the `time` strings as they are. So two events on the same day without a time clash when their titles differ (`Events.EmptyTimesClash`).
- **Edit and delete act on every match.** Edit replaces every stored event that has the edited event's (day, title, time), not only the first. Delete removes every such event.
- **The modal blocks adds too.** The modal's own check compares only the time, with no title test, and it applies to adds as well as edits. So a second event at the same time as an existing one on that day is refused by the modal, although `checkConflict` alone would only warn (`Events.ModalRefusesSameTimeAdd`).
- **`isCurrentMonth` in week view.** In week view, `generateCalendar` flags a cell by `isSameMonth`, the same as in month view, so a week that crosses a month boundary has unflagged cells. The rendering ignores the flag in week view (`CalendarView.CellAt`).
- **Two-digit years.** `getMonthDays` hands `getFullYear()` back to `new Date(year, …)`, which reads a year from 0 to 99 as 1900 + year. For a date in such a year the grid shows the month of 1900 + year, and no cell lies in the date's own month (`MonthGrid.TwoDigitYearGrid`). Year 0 is a leap year but 1900 is not, so `new Date(0, 2, 0).getDate()` is 28 (`MonthGrid.YearZeroFebruary`). `generateCalendar` uses `date-fns`, which counts days without this reading, so the two grids agree only outside those years.
- **The save warning does not survive an add.** An add from the modal calls `saveEvent` and then `onClose`. `onClose` clears the calendar's warning, so a warning set by `saveEvent` on that path ends up empty (`Modal.EventModal.HandleSubmit`).

Other observed behaviours:

- **Navigation by 30 days** can skip a month (`CalendarView.MonthlyNextSkipsFebruary`) or stay in the same month (`CalendarView.MonthlyNextCanStay`).
- **The end hour of `formatForGoogle`** is not wrapped: 23:xx ends at hour "24" (`Modal.GoogleLateHourEndsAt24`). `formatForGoogle` is defined in `EventModal.jsx` but not called in the files this model covers.

## Model

| member | source | states |
|---|---|---|
| CivilCalendar.DaysInMonth | src/utils/dateUtils.js:8-9 | months have 28 to 31 days; February has 29 exactly in leap years |
| CivilCalendar.NormaliseMonth | src/utils/dateUtils.js:18 | an out-of-range month index is carried into the year as `new Date(y, m, d)` does: the result is in 0..11 and denotes the same month |
| CivilCalendar.MakeDate | src/components/Calendar.jsx:55 | MakeDay, the day count that `setDate` and `date-fns` use; its properties are the lemmas below |
| CivilCalendar.ToCivil | src/utils/dateUtils.js:2-3 | the triple `getFullYear`, `getMonth`, `getDate` read back; the month is in 0..11 (validity and inversion in MakeDateToCivil, ToCivilMakeDate) |
| CivilCalendar.MakeDateToCivil | src/utils/dateUtils.js:2-3 | every day number has a valid triple read back by the getters, and MakeDay of that triple is the day again |
| CivilCalendar.ToCivilMakeDate | src/components/Calendar.jsx:55 | the getters read back every valid triple from its MakeDay day |
| CivilCalendar.MakeDateInjective | src/components/Calendar.jsx:55 | under MakeDay, distinct valid triples are distinct days |
| CivilCalendar.ConstructorYear | src/utils/dateUtils.js:5 | the year the Date constructor uses: 0..99 become 1900..1999, every other year is kept (modelled directly; see ToCivilNewDate) |
| CivilCalendar.NewDate | src/utils/dateUtils.js:5 | `new Date(y, m, d)`: MakeDay of the constructor's year (see ToCivilNewDate, NewDateSameDay) |
| CivilCalendar.ToCivilNewDate | src/utils/dateUtils.js:5 | the getters read back `new Date(y, m, d)` as (1900 + y, m, d) for y in 0..99 and as (y, m, d) otherwise |
| CivilCalendar.NewDateSameDay | src/utils/dateUtils.js:5 | two valid triples give the same `new Date` exactly when they agree once the years are read as the constructor reads them, so years 50 and 1950 give the same day |
| CivilCalendar.Weekday | src/utils/dateUtils.js:6 | the weekday of a day is in 0..6 |
| CivilCalendar.YearStartClosed | src/utils/dateUtils.js:6 | from 1970 on, a year starts 365 days per year plus one per leap year after 1970-01-01 |
| CivilCalendar.KnownWeekdays | src/utils/dateUtils.js:6 | `getDay` numbers from Sunday = 0: 1970-01-01 is a Thursday (4) and 2000-01-01 a Saturday (6) |
| CivilCalendar.MayDay2024 | src/utils/dateUtils.js:6 | 2024-05-01 is a Wednesday (3) |
| DateFns.StartOfWeek | src/components/Calendar.jsx:42 | the Sunday on or before a day, within the six days before it |
| DateFns.EndOfWeek | src/components/Calendar.jsx:43 | the Saturday on or after a day, in the same Sunday-started week |
| DateFns.StartOfMonth | src/components/Calendar.jsx:42 | the 1st of the day's month, on or before the day |
| DateFns.EndOfMonth | src/components/Calendar.jsx:43 | the last day of the day's month, on or after the day |
| DateFns.IsSameMonth | src/components/Calendar.jsx:53 | same year and month of the two days (characterised by SameMonthIffWithin) |
| DateFns.SameMonthIffWithin | src/components/Calendar.jsx:53 | `isSameMonth(x, d)` holds exactly when x lies between the first and the last day of d's month |
| MonthGrid.MonthLengthIdiom | src/utils/dateUtils.js:8 | `new Date(y, m + 1, 0).getDate()` is the length of month m of the constructor's year for y |
| MonthGrid.PrevMonthLengthIdiom | src/utils/dateUtils.js:9 | `new Date(y, m, 0).getDate()` is the length of the month before month m of the constructor's year for y |
| MonthGrid.YearZeroFebruary | src/utils/dateUtils.js:8 | for year 0, a leap year, the idiom gives 28: it measures February of 1900 |
| MonthGrid.GetMonthDays | src/utils/dateUtils.js:1-41 | the three loops (previous month's tail, the month, the next month's head up to 42 cells), with every date built by `new Date`, build exactly the closed-form grid MonthGridOf |
| MonthGrid.GridMonth | src/utils/dateUtils.js:2-5 | the month the grid lays out: the date's month, in the constructor's year for the date's year |
| MonthGrid.MonthGridOf | src/utils/dateUtils.js:11 | the grid always has 42 cells |
| MonthGrid.GridLayout | src/utils/dateUtils.js:16-38 | the month fits with room to spare, so the fill loop always runs; exactly the positions from the weekday of the 1st through that plus the month's length are flagged; neighbouring cells are neighbouring days |
| MonthGrid.GridPrevDates | src/utils/dateUtils.js:15-21 | the first startDay cells are the previous month's last startDay days in ascending order, ending at its last day |
| MonthGrid.GridMonthDates | src/utils/dateUtils.js:23-29 | the next daysInMonth cells are days 1, 2, … daysInMonth of the month |
| MonthGrid.GridNextDates | src/utils/dateUtils.js:31-38 | the remaining cells are the next month's days 1, 2, 3, … |
| MonthGrid.GridFlags | src/utils/dateUtils.js:19-36 | a cell is flagged exactly when it is in the same month as `new Date(year, month, 1)`; outside the years 0..99 that is the month of the given date |
| MonthGrid.TwoDigitYearGrid | src/utils/dateUtils.js:2-5 | for a date in the years 0..99 every cell lies in 1899 or later, and none is in the date's own month |
| MonthGrid.GridWeekdays | src/utils/dateUtils.js:13-40 | cell k falls on weekday k mod 7, so the grid lines up under Sun … Sat |
| CalendarView.ViewStart | src/components/Calendar.jsx:42 | `start` is a Sunday; in week view within the six days before the current date, in month view within the six days before the 1st |
| CalendarView.ViewEnd | src/components/Calendar.jsx:43 | `end` is a Saturday; in week view within the six days after the current date, in month view within the six days after the month's last day |
| CalendarView.ViewSpan | src/components/Calendar.jsx:42-43 | the shown range is whole weeks: 7 days in week view, 28 to 42 in month view |
| CalendarView.GenerateCalendar | src/components/Calendar.jsx:41-62 | the nested loops build exactly CalendarWeeksOf: rows of seven cells from the first shown Sunday, one row in week view |
| CalendarView.CellAt | src/components/Calendar.jsx:50-55 | cell i of row w is the day `start + 7w + i`, flagged by `isSameMonth` with the current date in week view and month view alike |
| CalendarView.CalendarRows | src/components/Calendar.jsx:45-59 | at least one row; the first cell is the view's start and the last its end; cells are consecutive days across rows, each in the column of its weekday |
| CalendarView.WeekViewShowsCurrentWeek | src/components/Calendar.jsx:42-58 | week view shows exactly one row, the Sunday-to-Saturday week holding the current date |
| CalendarView.MonthViewShowsMonth | src/components/Calendar.jsx:42-43 | month view has four to six rows, from on or before the 1st to on or after the month's last day |
| CalendarView.MonthViewFlagsMonth | src/components/Calendar.jsx:53 | in month view a cell is flagged exactly when its day lies within the current month |
| CalendarView.MonthViewAgreesWithMonthGrid | src/components/Calendar.jsx:41-62 | outside the years 0..99, the month view's cells are the leading cells of the getMonthDays grid, dates and flags alike |
| CalendarView.WeeklyNextShowsNextWeek | src/components/Calendar.jsx:66-70 | in week view Next shows the following week |
| CalendarView.MonthlyNextSkipsFebruary | src/components/Calendar.jsx:66-70 | in month view Next from January 31st lands in March, skipping February |
| CalendarView.MonthlyNextCanStay | src/components/Calendar.jsx:66-70 | in month view Next from January 1st stays in January |
| CalendarView.Calendar.constructor | src/components/Calendar.jsx:16-21 | the initial state: today's date, no events, no day selected, no warning, empty filter, month view |
| CalendarView.Calendar.GoToNext | src/components/Calendar.jsx:66-70 | the current date moves on by the view's step and nothing else changes |
| CalendarView.Calendar.GoToPrev | src/components/Calendar.jsx:72-76 | the current date moves back by the view's step and nothing else changes, so Prev after Next in the same view restores the date |
| CalendarView.Calendar.ToggleView | src/components/Calendar.jsx:151-152 | the view flips and the current date is kept |
| CalendarView.Calendar.SetFilterText | src/components/Calendar.jsx:164 | the search text is replaced |
| CalendarView.Calendar.OpenModal | src/components/Calendar.jsx:78-81 | the day is selected and the warning cleared |
| CalendarView.Calendar.CloseModal | src/components/Calendar.jsx:83-86 | the selection and the warning are cleared |
| CalendarView.Calendar.SaveEvent | src/components/Calendar.jsx:97-122 | the stored events are kept in order and followed by NewEvents (the occurrences, or the one event); the warning is the recurring or single message when some new event clashes with a stored one, and is unchanged otherwise |
| CalendarView.Calendar.DayEventsAt | src/components/Calendar.jsx:182-190 | a cell's `dayEvents`: DayEvents of the stored events, the cell's day and the search text |
| CalendarView.Calendar.ExistingEvents | src/components/Calendar.jsx:237-239 | the modal's `existingEvents`: EventsOn of the stored events and the selected day |
| CalendarView.Calendar.OnDragEnd | src/components/Calendar.jsx:124-141 | the list becomes Drop(...); the alert is raised exactly when there is a destination and an event at the index but the move clashes |
| Events.CheckConflict | src/components/Calendar.jsx:88-95 | true exactly when some stored event has the same day, the same time text and a different title |
| Events.SameTitleNeverConflicts | src/components/Calendar.jsx:93 | an event with the candidate's own title (the candidate itself included) never changes the verdict |
| Events.EmptyTimesClash | src/components/Calendar.jsx:92 | two untimed events on the same day with different titles clash |
| Events.Occurrences | src/components/Calendar.jsx:104-113 | count occurrences (none for a non-positive count), the i-th a copy of the event dated i·interval days after it |
| Events.NewEvents | src/components/Calendar.jsx:97-121 | the one event, or its occurrences for an expanding recurrence (NewEventsShape states their count, dates and fields) |
| Events.NewEventsShape | src/components/Calendar.jsx:97-121 | with a non-zero count, exactly count events, i·interval days apart; otherwise exactly the event; all non-date fields copied |
| Events.AnyConflictSnoc | src/components/Calendar.jsx:109-112 | a conflict among the new events so far plus one more is a conflict among the earlier ones or one for the new event |
| Events.SaveWarning | src/components/Calendar.jsx:109-118 | the recurring or the single-event warning exactly when some new event clashes with a stored one; the previous warning otherwise |
| Events.GymExample | src/components/Calendar.jsx:101-113 | a custom recurrence every 3 days, 3 times, from 2024-05-01 gives May 1st, 4th and 7th |
| Events.Drop | src/components/Calendar.jsx:124-141 | length and every other position unchanged; a drop with a destination, a valid index and no clash redates that one event; otherwise the list is unchanged |
| Events.DropKeepsConflictFree | src/components/Calendar.jsx:133-140 | a drop never introduces a clash into a clash-free list |
| Events.EventsOn | src/components/Calendar.jsx:237-239 | the existing events of the modal are stored events of that day, and every stored event of that day is among them |
| Events.EventsOnAppend | src/components/Calendar.jsx:237-239 | the filter works piecewise: the day's events of a concatenation are those of the first part followed by those of the second |
| Events.EventsOnSingle | src/components/Calendar.jsx:237-239 | one event is kept exactly when it is on the day |
| Events.EventsOnKeepsOrder | src/components/Calendar.jsx:237-239 | two events of the day are listed in their stored order |
| Events.ModalConflict | src/components/EventModal.jsx:34-38 | true exactly when some existing event other than the one at editIndex has the same time on the day; titles are not compared |
| Events.ModalRefusesSameTimeAdd | src/components/EventModal.jsx:34-43 | with "Standup" at 09:00 stored, adding "Sync" at 09:00 the same day is refused by the modal, though checkConflict would only warn |
| Events.ReplaceInSlot | src/components/EventModal.jsx:48-55 | the length is kept; every event matching (day, title, time) becomes the new event and every other one is unchanged |
| Events.RemoveSlot | src/components/EventModal.jsx:83-92 | the kept events are stored events outside the slot, and every stored event outside the slot is kept |
| Events.RemoveSlotAppend | src/components/EventModal.jsx:83-92 | delete works piecewise over a concatenation, so the kept events stay in their original order |
| Events.RemoveSlotNoMatch | src/components/EventModal.jsx:83-92 | a list with no event in the slot is unchanged |
| Events.RemoveSlotCount | src/components/EventModal.jsx:83-92 | delete removes exactly the events in the slot, every one of them |
| Events.ModalCheckCoversConflict | src/components/EventModal.jsx:34-43 | an add the modal lets through has no checkConflict clash |
| Events.ModalAddKeepsConflictFree | src/components/EventModal.jsx:34-67 | a non-recurring add the modal lets through keeps the list clash-free |
| Events.ModalEditKeepsConflictFree | src/components/EventModal.jsx:34-56 | an edit the modal lets through keeps the list clash-free |
| Events.DeleteKeepsConflictFree | src/components/EventModal.jsx:81-93 | a delete keeps the list clash-free |
| Events.RecurrenceMayClash | src/components/Calendar.jsx:109-112 | conflicts on a recurrence are advisory: an accepted add can still store a clashing occurrence |
| Events.DayEvents | src/components/Calendar.jsx:182-190 | each kept event carries its original index and passes the day-and-text filter; every such event is kept; the kept events are in index order |
| Events.EmptyFilterKeepsDay | src/components/Calendar.jsx:182-190 | with an empty search text the filter keeps exactly the events of the day |
| Text.ToLower | src/components/Calendar.jsx:187-188 | the length is kept and every character is lower-cased |
| Text.Includes | src/components/Calendar.jsx:187-188 | true exactly when the text occurs at some position |
| Text.NatToStringValue | src/components/EventModal.jsx:95-97 | reading back a printed number gives the number |
| Text.ParseInt | src/components/EventModal.jsx:99 | base-ten `parseInt`: skip leading white space, one sign, the longest run of digits, NaN for no digits (see ParseIntToString) |
| Text.ParseIntToString | src/components/EventModal.jsx:99 | parseInt reads back what the number printer writes |
| Text.PadStart2 | src/components/EventModal.jsx:99 | a text shorter than 2 is left-padded with zeros to length 2; a longer one is unchanged |
| Text.Split | src/components/EventModal.jsx:97 | the pieces hold no separator and join back to the text |
| Text.SplitOnce | src/components/EventModal.jsx:97 | "HH:MM" splits into its hour and minute |
| Modal.RecurrenceRequest | src/components/EventModal.jsx:57-65 | null exactly for "none"; otherwise the chosen kind and count, with an interval exactly for custom, and that interval is the form's value |
| Modal.SubmittedOccurrences | src/components/EventModal.jsx:57-66 | a submitted add stores the one event for "none" or count 0; otherwise count events, 1, 7, 30 or the custom number of days apart |
| Modal.EventModal.constructor | src/components/EventModal.jsx:4-11 | the form starts blank: empty texts, no edit index, "none", interval 2, count 3, no warning |
| Modal.EventModal.ResetForm | src/components/EventModal.jsx:13-22 | a change of day resets every field to its default |
| Modal.EventModal.HandleEdit | src/components/EventModal.jsx:72-79 | loads title, time and description of the chosen existing event, sets the edit index to it and clears the warning |
| Modal.EventModal.HandleDelete | src/components/EventModal.jsx:81-93 | the stored events become RemoveSlot of the chosen event's (day, title, time) |
| Modal.EventModal.HandleSubmit | src/components/EventModal.jsx:24-70 | rejected exactly on a modal conflict, setting the warning and changing nothing else; otherwise an edit replaces the slot's events, or an add stores NewEvents of the recurrence request; an edit whose index names no entry on a day with no stored event left replaces nothing; after each of these the modal is closed and the calendar's warning is empty; an edit whose index names no entry on a day that still has events is the source's crash |
| Events.ReplaceOnEmptyDay | src/components/EventModal.jsx:48-55 | on a day with no stored event, the edit's map replaces nothing, whatever title and time it looks for, so the missing entry is never read |
| Modal.Pad | src/components/EventModal.jsx:95 | `pad`: a leading "0" below ten (see PadIsTwoDigits) |
| Modal.DateStamp | src/components/EventModal.jsx:98 | the year, padded month and padded date of the getters (see DateStampShape) |
| Modal.FormatForGoogle | src/components/EventModal.jsx:94-102 | the range text for a day and an optional time (see FormatForGoogleForTime) |
| Modal.GoogleRange | src/components/EventModal.jsx:97-101 | the range text for a written date and an optional time (see GoogleRangeForTime, GoogleDefaultRange) |
| Modal.FormatForGoogleForTime | src/components/EventModal.jsx:94-102 | for a valid "HH:MM" time, the link runs from HHMM00 to (HH+1)MM00 on the year, two-digit month and two-digit date the getters read back |
| Modal.TwoDigits | src/components/EventModal.jsx:95 | a number below 100 as two digits that read back as the number |
| Modal.PadIsTwoDigits | src/components/EventModal.jsx:95 | `pad` writes a month or date number with two digits |
| Modal.DateStampShape | src/components/EventModal.jsx:98 | the date part is the year followed by the two-digit 1-based month and the two-digit date |
| Modal.GoogleRangeForTime | src/components/EventModal.jsx:94-102 | for "HH:MM" the range runs from HHMM00 to (HH+1)MM00 on the same date, the end hour with two digits |
| Modal.GoogleDefaultRange | src/components/EventModal.jsx:97 | without a time the range is 09:00 to 10:00 |
| Modal.GoogleLateHourEndsAt24 | src/components/EventModal.jsx:99-100 | a time in hour 23 ends at hour "24": the end is not wrapped |
| Modal.GoogleEmptyTime | src/components/EventModal.jsx:97-100 | an empty time gives an "undefined" minute and a "NaN" end hour |

## Left out

- **localStorage:** the hydration and persistence of events (Calendar.jsx:25-39) is browser I/O. The store is the `events` field.
- **App.jsx, JSX rendering and styling:** layout only. This includes the dimming of out-of-month cells, the headings and the lists of existing events.
- **React's state scheduling** (`useState` updates applied at the next render, functional `setEvents`): each handler is one sequential transition of the component's fields.
- **The modal's props:** `existingEvents` is recomputed from the calendar's state (`Calendar.ExistingEvents`) and not held as a separate copy.
- **The `react-beautiful-dnd` gesture** is not modelled. A drop is the pair (dragged index, optional destination day).
  - The parsing of `draggableId` and `droppableId` strings is not modelled.
  - The browser `alert` is the `alerted` result of `OnDragEnd`.
- **JavaScript `Date` below the day:**
  - Times of day, time zones and daylight-saving shifts are not modelled. Dates are whole days.
  - The millisecond arithmetic of recurrence (Calendar.jsx:107) is whole-day addition.
  - `toDateString` equality is day equality.
- Events.RepeatInterval: a custom interval left null makes every occurrence fall on the base day (JavaScript's `i * null` is 0). Non-integer intervals are not modelled, because the integer days of the model cannot hold fractions.
- Events.Occurrences: fractional repeat counts typed into the number field are not modelled. Counts are integers; a negative count appends nothing, as the `for` loop does.
- **The range of a JavaScript Date:** a Date holds at most 100,000,000 days either side of 1970-01-01. Outside that range the constructor gives an invalid date whose getters return NaN. Day numbers in the model are unbounded integers, so every MakeDateToCivil, ToCivilNewDate and grid lemma also speaks of days no Date can hold.
- **`isToday`:** it depends on the wall clock.
- **The `format(currentDate, 'MMMM yyyy')` heading:** display only.
- Text.ToLower: lower-cases ASCII letters only; JavaScript's full Unicode case mapping is not modelled.
- Text.ParseInt: reads base ten only. The `0x` prefix and Unicode white space beyond the ASCII space characters are not modelled. `FormatForGoogle` accepts any text, so a time such as "0x10:00" or one with a leading no-break space gets a different end hour in the model than in JavaScript. In the application such times do not occur: the time comes from a `type="time"` field (EventModal.jsx:148), and `formatForGoogle` is not called in the files this model covers. Numbers are unbounded integers (`Text.JsNumber`): JavaScript's double rounding above 2^53 and its exponent form from 1e21 on (`String(1e21)` is "1e+21") are not modelled, so `ParseIntToString` holds of JavaScript only below 1e21.
- **Missing descriptions:** an event without a description (`e.description?.` in the filter) is not distinguished from one with an empty description. Events always carry a string.
- Modal.EventModal.HandleSubmit: an edit index can stop naming an existing event (edit entry i, then delete an entry of that day). If the day has no stored event left, the map's first test fails for every event, nothing throws, and the model returns `Unmatched` with the events unchanged and the modal closed. If some event of the day remains, the map reads the missing entry and the source throws. That throw happens inside the `setEvents` updater, so the handler still calls `onClose()` and the dialog closes; React then throws during the next render. The model abstracts this crash as `Failed` with no change to any field.
- **Browser form validation** (the `required` title and the `min={1}` number fields) happens before submit. The model accepts any title, count and interval.
