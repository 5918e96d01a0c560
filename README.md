# Schedule: month holidays, event records and the session event list

This project models the two pieces of sequential logic in the scheduling
application (a Streamlit calendar with events and to-dos):

- **utils.py.** `get_holidays_for_month` finds the first and last day of the month
  that contains a date. The last day is the first of the next month
  minus one day, and December rolls over to January of the next year. It
  then walks the month day by day and collects, in order, the ISO 8601
  rendering (`YYYY-MM-DD`, the extended calendar date format of section
  4.1.2.2 of ISO 8601:2004) of each day the holiday predicate accepts.
  `serialize_events_for_period` turns stored events into five-field records
  `{id, title, start, end, description}` with ISO 8601 timestamps.
- **schedule_app.py.** This page keeps its events in a list held by the
  browser session. Saving needs a non-empty title. It fixes the end one hour
  after the start and gives the new event the id "list length plus one".
  Deleting keeps every event whose id differs from the clicked one. After a
  delete the next id can repeat one still in use. A later delete of that id
  then removes both events. `ScheduleApp.DeleteThenSaveRepeatsId` proves this.

Modules:

- `Wrappers` (wrappers.dfy) holds `Option` and `Result`.
- `Calendar` (calendar.dfy) holds Python's naive `date`, `time` and `datetime`
  semantics over years 1 to 9999. That covers Gregorian leap years, one-day
  steps, one-hour steps and `toordinal()`. A step past either end of the range
  is `None` here, where Python raises OverflowError.
- `Iso` (iso.dfy) holds `isoformat()` for dates and timestamps. Each rendering
  has a parser as its partner, and a round-trip lemma shows that rendering
  loses nothing.
- `Utils` (utils.dfy) models utils.py.
- `ScheduleApp` (schedule_app.dfy) models schedule_app.py. `SessionState` is a
  class whose `events` field is `None` until the script first creates the list.

The holiday predicate (`jpholiday.is_holiday`) is a parameter of type
`Date -> bool`. Each method is proved against a specification function:

- `HolidaysForMonth` against `MonthHolidays`;
- its loop, `WalkMonth`, against `HolidayStringsThrough`, which
  `HolidayStringsRendered` ties to `MonthHolidays`;
- `SerializeEvents` against `ToRecord`;
- `SessionState.SaveEvent` against `SaveStep`;
- `SessionState.DeleteEvent` against `WithoutId`.

Lemmas state the properties of those functions.

The model follows the code:

- The holidays come back as an ordered list, not a set.
- The serialiser copies whatever timestamps it is given, with no check that
  the end is not before the start.
- The session page does not validate end against start, because it always sets
  end to start plus one hour.
- pages/main_page.py:5-6 imports `get_events_from_db`, `delete_event_from_db`,
  `add_todo_to_db`, `get_todos_from_db` and `complete_todo_in_db`, and none of
  these is defined in any file; crud.py:34 is only a comment. So there is no
  code for soft deletes, to-do completion or day-overlap queries, and they are
  not part of this model.

## Model

| member | source | states |
|---|---|---|
| Calendar.DaysInMonth | utils.py:6-11 | a month has 28 to 31 days; February has 29 exactly in Gregorian leap years; other months have at least 30 |
| Calendar.NextDay | utils.py:17 | adding one day gives a valid, strictly later date; it fails only on 9999-12-31 |
| Calendar.NextDayOrdinal | utils.py:17 | one day forward advances the day ordinal (`toordinal`) by exactly one, across month and year boundaries |
| Calendar.NextDayIsSuccessor | utils.py:14-17 | no valid date lies strictly between a date and the next day, so the walk skips no day |
| Calendar.YearLength | utils.py:11 | a year has 366 days when it is a Gregorian leap year and 365 otherwise |
| Calendar.PrevDay | utils.py:11 | subtracting one day gives a valid date whose next day is the original; it fails only on 0001-01-01 |
| Calendar.PrevDayUndoesNextDay | utils.py:11 | subtracting one day undoes adding one day |
| Calendar.AddHour | schedule_app.py:30 | adding one hour gives a valid timestamp exactly 3600 seconds later; it fails only for 23:xx on 9999-12-31 |
| Iso.Pad2RoundTrip | utils.py:16 | a number below 100 written as two zero-padded digits reads back to that number |
| Iso.Pad4RoundTrip | utils.py:16 | a year below 10000 written as four zero-padded digits reads back to that year |
| Iso.Pad6RoundTrip | utils.py:26-27 | a microsecond count written as six zero-padded digits reads back to that count |
| Iso.IsoDate | utils.py:16 | a date renders as 10 characters with '-' at positions 4 and 7 |
| Iso.IsoDateRoundTrip | utils.py:16 | parsing the `YYYY-MM-DD` rendering of a date gives back that date |
| Iso.IsoDateInjective | utils.py:16 | two dates with the same rendering are the same date |
| Iso.IsoTimeRoundTrip | utils.py:26-27 | parsing `HH:MM:SS[.ffffff]` gives back the time; microseconds appear only when non-zero |
| Iso.IsoTime | utils.py:26-27 | a time renders as `HH:MM:SS`, plus `.ffffff` only for a non-zero microsecond (8 or 15 characters), each field zero-padded |
| Iso.IsoDateTime | utils.py:26-27 | a timestamp renders as 19 characters, or 26 with microseconds; it is the ISO date, then 'T', then the time |
| Iso.IsoDateTimeRoundTrip | utils.py:26-27 | parsing a timestamp's `isoformat()` gives back the timestamp |
| Utils.MonthBounds | utils.py:6-11 | first is day 1 of the target's month; last is the month's final day, and its next day is the first of the next month; only December 9999 fails (year 10000 out of range); neither depends on the target's day |
| Utils.MonthBoundsCalendarCases | utils.py:7-11 | February ends on the 29th exactly in leap years; the day after December's last is January 1 of the next year |
| Utils.HolidaysThroughInMonth | utils.py:12-17 | after the first n days of the walk: at most n dates, each a valid day of the month no later than day n that the predicate accepts |
| Utils.HolidaysThroughAscending | utils.py:14-17 | the dates collected after n days are in strictly ascending day order |
| Utils.HolidaysThroughMembership | utils.py:14-16 | after n days, a date is collected exactly when it is one of days 1..n of the month and the predicate holds |
| Utils.MonthHolidaysMembership | utils.py:13-16 | a date is in the month's list exactly when it is a valid date of that month and the predicate holds for it |
| Utils.MonthHolidaysOrdered | utils.py:11-17 | every listed date lies between the first and last day of the month; the list is strictly ascending; its length is at most the month's day count |
| Utils.MonthHolidayStringsDistinct | utils.py:13-17 | no date string is listed twice |
| Utils.RenderDatesAt | utils.py:16 | rendering a list of dates gives one string per date, the i-th being the i-th date's `YYYY-MM-DD` |
| Utils.HolidayStringsRendered | utils.py:14-16 | the strings appended during the first n days are exactly the renderings of the holidays among those days, in order |
| Utils.WalkDay | utils.py:13-17 | while inside the month the walk's date is day k, a valid date whose next day is the walk's next position; past the month it is the first of the next month |
| Utils.WalkPosition | utils.py:14 | the loop guard `d <= last_day` holds exactly while the walk is inside the month |
| Utils.WalkMonth | utils.py:12-18 | the day-by-day loop from the first to the last day returns the renderings of the accepted days of the month, in day order |
| Utils.HolidaysForMonth | utils.py:5-18 | fails exactly for December 9999; otherwise returns the `YYYY-MM-DD` rendering of each holiday of the target's month, in day order |
| Utils.ToRecord | utils.py:23-29 | a record keeps id, title and description unchanged; its start and end are `IsoDateTime` of the event's timestamps |
| Utils.ToRecordFaithful | utils.py:23-29 | a record copies id, title and description unchanged; its start and end read back to the event's start and end times |
| Utils.SerializeEvents | utils.py:20-30 | one record per event in input order, each the event's record; an empty input gives an empty list |
| ScheduleApp.SaveStep | schedule_app.py:29-53 | an empty title or an out-of-range end leaves the list unchanged; otherwise exactly one event is appended; earlier events are untouched; the new id is the old length plus one; the stored date, start, title and description are the chosen ones; the end is exactly one hour after the start |
| ScheduleApp.WithoutId | schedule_app.py:68 | no surviving event carries the deleted id, and the list never grows |
| ScheduleApp.WithoutIdMembership | schedule_app.py:68 | an event survives exactly when it was in the list and its id differs from the deleted one |
| ScheduleApp.WithoutIdSingle | schedule_app.py:68 | when only the j-th event carries the id, deleting it removes exactly that event and keeps the rest in order |
| ScheduleApp.WithoutIdConcat | schedule_app.py:68 | deleting from a concatenation deletes from each part, so survivors keep their relative order |
| ScheduleApp.WithoutIdAbsent | schedule_app.py:68 | deleting an id that no event carries leaves the list unchanged |
| ScheduleApp.WithoutIdIdempotent | schedule_app.py:68 | deleting the same id twice equals deleting it once |
| ScheduleApp.SaveKeepsPositionalIds | schedule_app.py:46 | without deletes, saving keeps the i-th event's id equal to i + 1, so ids stay unique |
| ScheduleApp.DeletePositional | schedule_app.py:68 | with positional ids, deleting id k removes exactly the k-th event |
| ScheduleApp.DeleteAfterCollision | schedule_app.py:46-68 | after the colliding save, deleting the repeated id removes both the old and the new event |
| ScheduleApp.DeleteThenSaveRepeatsId | schedule_app.py:46-68 | n events with positional ids: delete id k < n, then save; the new event gets id n, which the last survivor already has; deleting n then removes both |
| ScheduleApp.LateStartEndsNextDay | schedule_app.py:29-49 | a start at 23:xx is saved with its end on the next day, while the stored date stays the chosen date |
| ScheduleApp.SessionState.constructor | schedule_app.py:5 | a new session holds no `events` entry |
| ScheduleApp.SessionState.InitEvents | schedule_app.py:5-6 | the list is created empty only when absent; an existing list is kept |
| ScheduleApp.SessionState.SaveEvent | schedule_app.py:39-54 | the save button's outcome and new list are those of `SaveStep` on the old list |
| ScheduleApp.SessionState.DeleteEvent | schedule_app.py:66-69 | the new list is `WithoutId` of the old list for the clicked event's id |

## Left out

- All Streamlit rendering is left out as UI plumbing: widgets, messages, the confirmation text of the computed end
  time, the list display and the rerun after a delete. The pages login,
  register and main, and main.py's page switch, are left out for the same reason.
- pages/main_page.py repeats the month-bound arithmetic at lines 21-25. That
  copy is not modelled separately, and neither is its query with today's date.
- The embedded FullCalendar HTML, CSS and JavaScript are third-party front-end
  code and are not modelled.
- crud.py and models.py are storage wrappers over a database this model cannot
  see. Only the `events` row is mirrored, as `Utils.StoredEvent`, the
  serialiser's input. The plain-text password storage of `create_user`, and
  login's check through a hashing library, are foreign calls.
- `jpholiday.is_holiday` is a locale table and becomes the parameter
  `isHoliday`.
- `json.dumps` is a library encoding. The model stops at the list of records,
  so string escaping and the `"[]"` text for an empty list are not modelled.
- `datetime` values passed to `get_holidays_for_month` are not modelled: only
  `date` values are. The page passes a `date`, and a `datetime` would keep its
  time-of-day in the output strings.
- Widget inputs are parameters of `SaveEvent` and `DeleteEvent`: the chosen
  date, start time, title, description and clicked event id. The clock that
  supplies the widgets' default values is not modelled.
- Times are modelled as naive local values. Timezones and `fold` are not
  modelled, as in the source.
- Utils.HolidaysForMonth: the method's contract does not itself say that the
  strings are distinct or in ascending order. It ties the result to
  `MonthHolidays`, and those properties are lemmas about that function
  (`MonthHolidayStringsDistinct`, `MonthHolidaysOrdered`).
