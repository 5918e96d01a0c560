/**
 * utils.py: the holidays of the month containing a date, and the
 * translation of stored events into the records the month calendar shows.
 */
module Utils {
  import opened Wrappers
  import opened Calendar
  import opened Iso

  /** `date.replace(year=10000, ...)` raises ValueError: year out of range. */
  datatype DateError = YearOutOfRange

  /**
   * First and last day of the month containing `target`. The last day is
   * found as the first of the next month minus one day, where the month
   * after December is January of the following year.
   */
  function MonthBounds(target: Date): (r: Result<(Date, Date), DateError>)
    requires ValidDate(target)
    ensures r.Failure? <==> target.year == MaxYear && target.month == 12
    ensures r.Success? ==>
      var (first, last) := r.value;
      first == Date(target.year, target.month, 1)
      && last == Date(target.year, target.month, DaysInMonth(target.year, target.month))
      && ValidDate(first) && ValidDate(last)
      && NextDay(last) == Some(if target.month == 12 then Date(target.year + 1, 1, 1)
                               else Date(target.year, target.month + 1, 1))
  {
    var first := Date(target.year, target.month, 1);
    if target.month == 12 && target.year == MaxYear then Failure(YearOutOfRange)
    else
      var nextMonth := if target.month == 12 then Date(target.year + 1, 1, 1)
                       else Date(target.year, target.month + 1, 1);
      Success((first, PrevDay(nextMonth).value))
  }

  /** February follows the Gregorian leap rule; December's successor is January 1 of the next year. */
  lemma MonthBoundsCalendarCases(y: int, d: int)
    requires MinYear <= y < MaxYear && 1 <= d <= 28
    ensures MonthBounds(Date(y, 2, d)).Success?
    ensures MonthBounds(Date(y, 2, d)).value.1.day == 29 <==> IsLeapYear(y)
    ensures MonthBounds(Date(y, 12, d)).Success?
    ensures NextDay(MonthBounds(Date(y, 12, d)).value.1) == Some(Date(y + 1, 1, 1))
  {
  }

  /**
   * The holidays among days 1..n of month m of year y, in day order:
   * the part of the month that the day-by-day walk has covered.
   */
  function HolidaysThrough(y: int, m: int, isHoliday: Date -> bool, n: int): seq<Date>
    requires 1 <= m <= 12 && 0 <= n <= DaysInMonth(y, m)
    decreases n
  {
    if n == 0 then []
    else
      var d := Date(y, m, n);
      HolidaysThrough(y, m, isHoliday, n - 1) + (if isHoliday(d) then [d] else [])
  }

  /** The holidays of month m of year y, in day order. */
  function MonthHolidays(y: int, m: int, isHoliday: Date -> bool): seq<Date>
    requires 1 <= m <= 12
  {
    HolidaysThrough(y, m, isHoliday, DaysInMonth(y, m))
  }

  /**
   * What the walk has appended after n days: the rendering of each holiday
   * among days 1..n, in day order. It is the same walk as `HolidaysThrough`,
   * written over strings so that the loop's invariant mentions a single
   * function: stating it as `RenderDates(HolidaysThrough(..))` makes each
   * loop step unfold both functions at once, which is far costlier to
   * verify. `HolidayStringsRendered` proves the two agree.
   */
  function HolidayStringsThrough(y: int, m: int, isHoliday: Date -> bool, n: int): seq<string>
    requires 1 <= m <= 12 && 0 <= n <= DaysInMonth(y, m)
    decreases n
  {
    if n == 0 then []
    else
      var d := Date(y, m, n);
      HolidayStringsThrough(y, m, isHoliday, n - 1) + (if isHoliday(d) then [IsoDate(d)] else [])
  }

  /** The `isoformat()` of each date, in order. */
  function RenderDates(ds: seq<Date>): seq<string>
  {
    if ds == [] then [] else RenderDates(ds[..|ds| - 1]) + [IsoDate(ds[|ds| - 1])]
  }

  /** Rendering one more date appends its rendering. */
  lemma RenderSnoc(ds: seq<Date>, d: Date)
    ensures RenderDates(ds + [d]) == RenderDates(ds) + [IsoDate(d)]
  {
    assert (ds + [d])[..|ds|] == ds;
  }

  lemma {:induction false} RenderDatesAt(ds: seq<Date>)
    ensures |RenderDates(ds)| == |ds|
    ensures forall i :: 0 <= i < |ds| ==> RenderDates(ds)[i] == IsoDate(ds[i])
  {
    if ds != [] {
      RenderDatesAt(ds[..|ds| - 1]);
    }
  }

  /** One more day of the walk keeps its strings the renderings of its dates. */
  lemma HolidayStringsStep(y: int, m: int, isHoliday: Date -> bool, n: int)
    requires 1 <= m <= 12 && 1 <= n <= DaysInMonth(y, m)
    requires HolidayStringsThrough(y, m, isHoliday, n - 1) == RenderDates(HolidaysThrough(y, m, isHoliday, n - 1))
    ensures HolidayStringsThrough(y, m, isHoliday, n) == RenderDates(HolidaysThrough(y, m, isHoliday, n))
  {
    var ds := HolidaysThrough(y, m, isHoliday, n - 1);
    var d := Date(y, m, n);
    if isHoliday(d) {
      RenderSnoc(ds, d);
    } else {
      assert HolidaysThrough(y, m, isHoliday, n) == ds;
    }
  }

  /** The strings the walk appends are the renderings of the dates it accepts. */
  lemma {:induction false} HolidayStringsRendered(y: int, m: int, isHoliday: Date -> bool, n: int)
    requires 1 <= m <= 12 && 0 <= n <= DaysInMonth(y, m)
    ensures HolidayStringsThrough(y, m, isHoliday, n) == RenderDates(HolidaysThrough(y, m, isHoliday, n))
    decreases n
  {
    if n > 0 {
      HolidayStringsRendered(y, m, isHoliday, n - 1);
      HolidayStringsStep(y, m, isHoliday, n);
    }
  }

  /**
   * After n days of the walk: at most n dates, each a valid day of the
   * month no later than day n that the predicate accepts.
   */
  lemma {:induction false} HolidaysThroughInMonth(y: int, m: int, isHoliday: Date -> bool, n: int)
    requires MinYear <= y <= MaxYear && 1 <= m <= 12 && 0 <= n <= DaysInMonth(y, m)
    ensures var r := HolidaysThrough(y, m, isHoliday, n);
      |r| <= n
      && forall i :: 0 <= i < |r| ==>
           ValidDate(r[i]) && r[i].year == y && r[i].month == m && r[i].day <= n && isHoliday(r[i])
    decreases n
  {
    if n > 0 {
      HolidaysThroughInMonth(y, m, isHoliday, n - 1);
    }
  }

  /** The walk meets days in increasing order, so collected dates rise strictly. */
  lemma {:induction false} HolidaysThroughAscending(y: int, m: int, isHoliday: Date -> bool, n: int)
    requires MinYear <= y <= MaxYear && 1 <= m <= 12 && 0 <= n <= DaysInMonth(y, m)
    ensures var r := HolidaysThrough(y, m, isHoliday, n);
      forall i, j :: 0 <= i < j < |r| ==> r[i].day < r[j].day
    decreases n
  {
    if n > 0 {
      HolidaysThroughAscending(y, m, isHoliday, n - 1);
      HolidaysThroughInMonth(y, m, isHoliday, n - 1);
    }
  }

  lemma {:induction false} HolidaysThroughMembership(y: int, m: int, isHoliday: Date -> bool, n: int, d: Date)
    requires 1 <= m <= 12 && 0 <= n <= DaysInMonth(y, m)
    ensures d in HolidaysThrough(y, m, isHoliday, n) <==>
      (d.year == y && d.month == m && 1 <= d.day <= n && isHoliday(d))
    decreases n
  {
    if n > 0 {
      HolidaysThroughMembership(y, m, isHoliday, n - 1, d);
    }
  }

  /** A date is listed exactly when it is a valid date of the month and the predicate holds for it. */
  lemma MonthHolidaysMembership(y: int, m: int, isHoliday: Date -> bool, d: Date)
    requires MinYear <= y <= MaxYear && 1 <= m <= 12
    ensures d in MonthHolidays(y, m, isHoliday) <==>
      (ValidDate(d) && d.year == y && d.month == m && isHoliday(d))
  {
    HolidaysThroughMembership(y, m, isHoliday, DaysInMonth(y, m), d);
  }

  /** Listed dates lie in the month, rise strictly, and number at most the month's days. */
  lemma MonthHolidaysOrdered(y: int, m: int, isHoliday: Date -> bool)
    requires MinYear <= y <= MaxYear && 1 <= m <= 12
    ensures var r := MonthHolidays(y, m, isHoliday);
      |r| <= DaysInMonth(y, m)
      && (forall i :: 0 <= i < |r| ==> ValidDate(r[i]))
      && (forall i :: 0 <= i < |r| ==>
            LessEq(Date(y, m, 1), r[i]) && LessEq(r[i], Date(y, m, DaysInMonth(y, m))))
      && (forall i, j :: 0 <= i < j < |r| ==> Less(r[i], r[j]))
  {
    HolidaysThroughInMonth(y, m, isHoliday, DaysInMonth(y, m));
    HolidaysThroughAscending(y, m, isHoliday, DaysInMonth(y, m));
  }

  /** No date string is listed twice: distinct dates render differently. */
  lemma MonthHolidayStringsDistinct(y: int, m: int, isHoliday: Date -> bool)
    requires MinYear <= y <= MaxYear && 1 <= m <= 12
    ensures var ss := RenderDates(MonthHolidays(y, m, isHoliday));
      forall i, j :: 0 <= i < j < |ss| ==> ss[i] != ss[j]
  {
    var ds := MonthHolidays(y, m, isHoliday);
    MonthHolidaysOrdered(y, m, isHoliday);
    RenderDatesAt(ds);
    var ss := RenderDates(ds);
    forall i, j | 0 <= i < j < |ss| ensures ss[i] != ss[j] {
      if ss[i] == ss[j] {
        IsoDateInjective(ds[i], ds[j]);
      }
    }
  }

  /**
   * The date the walk is at after k - 1 steps: day k of the month while
   * k is within the month, and the first day of the next month after it.
   */
  function WalkDay(lastDay: Date, k: int): (d: Date)
    requires ValidDate(lastDay) && NextDay(lastDay).Some?
    requires lastDay.day == DaysInMonth(lastDay.year, lastDay.month)
    requires 1 <= k <= lastDay.day + 1
    ensures k <= lastDay.day ==> ValidDate(d) && NextDay(d).Some?
    ensures k <= lastDay.day ==> NextDay(d).value == WalkDay(lastDay, k + 1)
    decreases lastDay.day + 1 - k
  {
    if k <= lastDay.day then Date(lastDay.year, lastDay.month, k) else NextDay(lastDay).value
  }

  /** The walk's guard holds exactly while the walk is inside the month. */
  lemma WalkPosition(lastDay: Date, d: Date, k: int)
    requires ValidDate(lastDay) && NextDay(lastDay).Some?
    requires lastDay.day == DaysInMonth(lastDay.year, lastDay.month)
    requires 1 <= k <= lastDay.day + 1 && d == WalkDay(lastDay, k)
    ensures LessEq(d, lastDay) <==> k <= lastDay.day
  {
    if k > lastDay.day {
      assert Less(lastDay, d);
    }
  }

  /**
   * utils.py `get_holidays_for_month`: the month's first and last day,
   * then the walk between them.
   */
  method HolidaysForMonth(target: Date, isHoliday: Date -> bool) returns (r: Result<seq<string>, DateError>)
    requires ValidDate(target)
    ensures r.Failure? <==> target.year == MaxYear && target.month == 12
    ensures r.Success? ==> r.value == RenderDates(MonthHolidays(target.year, target.month, isHoliday))
  {
    var bounds := MonthBounds(target);
    if bounds.Failure? {
      return Failure(bounds.error);
    }
    var holidays := WalkMonth(bounds.value.0, bounds.value.1, isHoliday);
    HolidayStringsRendered(target.year, target.month, isHoliday, DaysInMonth(target.year, target.month));
    return Success(holidays);
  }

  /**
   * utils.py:12-18: from the first to the last day of a month, one day at
   * a time, collect the ISO rendering of each day the holiday predicate
   * (jpholiday.is_holiday) accepts.
   */
  method WalkMonth(firstDay: Date, lastDay: Date, isHoliday: Date -> bool) returns (holidays: seq<string>)
    requires ValidDate(lastDay) && NextDay(lastDay).Some?
    requires firstDay == Date(lastDay.year, lastDay.month, 1)
    requires lastDay.day == DaysInMonth(lastDay.year, lastDay.month)
    ensures holidays == HolidayStringsThrough(lastDay.year, lastDay.month, isHoliday, lastDay.day)
  {
    ghost var y, m, dim := lastDay.year, lastDay.month, lastDay.day;
    holidays := [];
    var d := firstDay;
    ghost var k := 1;
    WalkPosition(lastDay, d, k);
    while LessEq(d, lastDay)
      invariant 1 <= k <= dim + 1
      invariant d == WalkDay(lastDay, k)
      invariant LessEq(d, lastDay) <==> k <= dim
      invariant holidays == HolidayStringsThrough(y, m, isHoliday, k - 1)
      decreases dim + 1 - k
    {
      if isHoliday(d) {
        holidays := holidays + [IsoDate(d)];
      }
      d := NextDay(d).value;
      k := k + 1;
      WalkPosition(lastDay, d, k);
    }
  }


  /** A row of the `events` table (models.py), as the serialiser reads it. */
  datatype StoredEvent = StoredEvent(
    id: int,
    title: string,
    startTime: DateTime,
    endTime: DateTime,
    description: Option<string>,
    ownerId: int,
    deleted: bool)

  /** The five-field record handed to the calendar widget. */
  datatype EventRecord = EventRecord(
    id: int,
    title: string,
    start: string,
    end: string,
    description: Option<string>)

  predicate WellFormed(ev: StoredEvent) {
    ValidDateTime(ev.startTime) && ValidDateTime(ev.endTime)
  }

  /** One event as a record: `isoformat()` of both timestamps, other fields as they are. */
  function ToRecord(ev: StoredEvent): (r: EventRecord)
    requires WellFormed(ev)
    ensures r.id == ev.id && r.title == ev.title && r.description == ev.description
    ensures r.start == IsoDateTime(ev.startTime) && r.end == IsoDateTime(ev.endTime)
  {
    EventRecord(ev.id, ev.title, IsoDateTime(ev.startTime), IsoDateTime(ev.endTime), ev.description)
  }

  /** A record copies id, title and description and reads back to the event's own timestamps. */
  lemma ToRecordFaithful(ev: StoredEvent)
    requires WellFormed(ev)
    ensures var r := ToRecord(ev);
      r.id == ev.id && r.title == ev.title && r.description == ev.description
      && ParseIsoDateTime(r.start) == Some(ev.startTime)
      && ParseIsoDateTime(r.end) == Some(ev.endTime)
  {
    IsoDateTimeRoundTrip(ev.startTime);
    IsoDateTimeRoundTrip(ev.endTime);
  }

  /** Appending the i-th event's record extends the records of the first i events. */
  lemma RecordsSnoc(events: seq<StoredEvent>, evs: seq<EventRecord>, i: int)
    requires 0 <= i < |events| && WellFormed(events[i]) && |evs| == i
    requires forall k :: 0 <= k < i ==> WellFormed(events[k]) && evs[k] == ToRecord(events[k])
    ensures forall k :: 0 <= k <= i ==> WellFormed(events[k]) && (evs + [ToRecord(events[i])])[k] == ToRecord(events[k])
  {
  }

  /**
   * utils.py `serialize_events_for_period` up to, not including, the
   * final JSON encoding: one record per event, in input order.
   */
  method SerializeEvents(events: seq<StoredEvent>) returns (evs: seq<EventRecord>)
    requires forall i :: 0 <= i < |events| ==> WellFormed(events[i])
    ensures |evs| == |events|
    ensures forall i :: 0 <= i < |events| ==> evs[i] == ToRecord(events[i])
  {
    evs := [];
    for i := 0 to |events|
      invariant |evs| == i
      invariant forall k :: 0 <= k < i ==> evs[k] == ToRecord(events[k])
    {
      var rec := ToRecord(events[i]);
      RecordsSnoc(events, evs, i);
      evs := evs + [rec];
    }
  }
}
