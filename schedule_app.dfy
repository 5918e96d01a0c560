/**
 * schedule_app.py: the stand-alone page that keeps its events in the
 * session. The list is created empty on the first run of the script,
 * the save button appends an event whose id is the list length plus one
 * and whose end is one hour after its start, and each delete button
 * keeps only the events whose id differs from the clicked one.
 */
module ScheduleApp {
  import opened Wrappers
  import opened Calendar

  /** One stored entry: the dictionary built at schedule_app.py:45-52. */
  datatype SessionEvent = SessionEvent(
    id: int,
    date: Date,
    start: DateTime,
    end: DateTime,
    title: string,
    description: string)

  datatype SaveOutcome =
    | Saved(id: int)
    /** The title field was empty: an error message, nothing stored. */
    | TitleRequired
    /** start + 1 hour lies past 9999-12-31: Python raises OverflowError before the form is shown. */
    | EndOutOfRange

  /** The effect of pressing the save button on list `events`: the outcome and the new list. */
  function SaveStep(events: seq<SessionEvent>, eventDate: Date, startTime: Time, title: string, description: string)
    : (r: (SaveOutcome, seq<SessionEvent>))
    requires ValidDate(eventDate) && ValidTime(startTime)
    ensures r.0 == EndOutOfRange <==> AddHour(DateTime(eventDate, startTime)).None?
    ensures r.0.Saved? <==> title != "" && AddHour(DateTime(eventDate, startTime)).Some?
    ensures !r.0.Saved? ==> r.1 == events
    ensures r.0.Saved? ==>
      r.0.id == |events| + 1 && |r.1| == |events| + 1 && r.1[..|events|] == events
      && var e := r.1[|events|];
         e.id == r.0.id && e.date == eventDate && e.start == DateTime(eventDate, startTime)
         && e.title == title && e.description == description
         && ValidDateTime(e.end) && Instant(e.end) == Instant(e.start) + MicrosPerHour
  {
    var start := DateTime(eventDate, startTime);
    match AddHour(start)
    case None => (EndOutOfRange, events)
    case Some(end) =>
      if title == "" then (TitleRequired, events)
      else
        var id := |events| + 1;
        (Saved(id), events + [SessionEvent(id, eventDate, start, end, title, description)])
  }

  /** The list comprehension of schedule_app.py:68: the events whose id is not `id`, in order. */
  function WithoutId(events: seq<SessionEvent>, id: int): (r: seq<SessionEvent>)
    ensures |r| <= |events|
    ensures forall i :: 0 <= i < |r| ==> r[i].id != id
  {
    if events == [] then []
    else (if events[0].id != id then [events[0]] else []) + WithoutId(events[1..], id)
  }

  /** An event survives a delete exactly when it was present and its id differs. */
  lemma {:induction false} WithoutIdMembership(events: seq<SessionEvent>, id: int, e: SessionEvent)
    ensures e in WithoutId(events, id) <==> e in events && e.id != id
  {
    if events != [] {
      WithoutIdMembership(events[1..], id, e);
      assert events == [events[0]] + events[1..];
    }
  }

  /** Deleting from a concatenation deletes from each part: relative order is kept. */
  lemma {:induction false} WithoutIdConcat(a: seq<SessionEvent>, b: seq<SessionEvent>, id: int)
    ensures WithoutId(a + b, id) == WithoutId(a, id) + WithoutId(b, id)
  {
    if a == [] {
      assert a + b == b;
    } else {
      assert (a + b)[1..] == a[1..] + b;
      WithoutIdConcat(a[1..], b, id);
    }
  }

  /** A delete whose id matches nothing leaves the list as it was. */
  lemma {:induction false} WithoutIdAbsent(events: seq<SessionEvent>, id: int)
    requires forall i :: 0 <= i < |events| ==> events[i].id != id
    ensures WithoutId(events, id) == events
  {
    if events != [] {
      WithoutIdAbsent(events[1..], id);
    }
  }

  /** Deleting the same id twice is the same as deleting it once. */
  lemma WithoutIdIdempotent(events: seq<SessionEvent>, id: int)
    ensures WithoutId(WithoutId(events, id), id) == WithoutId(events, id)
  {
    WithoutIdAbsent(WithoutId(events, id), id);
  }

  /** Ids as saves alone assign them: the i-th event (from 0) has id i + 1. */
  predicate PositionalIds(events: seq<SessionEvent>) {
    forall i :: 0 <= i < |events| ==> events[i].id == i + 1
  }

  /** Without deletes, saving keeps ids positional, so they stay unique. */
  lemma SaveKeepsPositionalIds(events: seq<SessionEvent>, eventDate: Date, startTime: Time, title: string, description: string)
    requires ValidDate(eventDate) && ValidTime(startTime)
    requires PositionalIds(events)
    ensures PositionalIds(SaveStep(events, eventDate, startTime, title, description).1)
  {
    var r := SaveStep(events, eventDate, startTime, title, description);
    if r.0.Saved? {
      forall i | 0 <= i < |r.1| ensures r.1[i].id == i + 1 {
        if i < |events| {
          assert r.1[i] == r.1[..|events|][i];
        }
      }
    }
  }

  /** Deleting an id that only the j-th event carries drops just that event. */
  lemma {:induction false} WithoutIdSingle(events: seq<SessionEvent>, j: int, id: int)
    requires 0 <= j < |events| && events[j].id == id
    requires forall i :: 0 <= i < |events| && i != j ==> events[i].id != id
    ensures WithoutId(events, id) == events[..j] + events[j + 1..]
  {
    var rest := events[1..];
    if j == 0 {
      forall i | 0 <= i < |rest| ensures rest[i].id != id {
        assert rest[i] == events[i + 1];
      }
      WithoutIdAbsent(rest, id);
    } else {
      forall i | 0 <= i < |rest| && i != j - 1 ensures rest[i].id != id {
        assert rest[i] == events[i + 1];
      }
      WithoutIdSingle(rest, j - 1, id);
      assert events[..j] == [events[0]] + rest[..j - 1];
      assert events[j + 1..] == rest[j..];
    }
  }

  /** With positional ids, deleting id k removes exactly the k-th event. */
  lemma DeletePositional(events: seq<SessionEvent>, k: int)
    requires PositionalIds(events) && 1 <= k <= |events|
    ensures WithoutId(events, k) == events[..k - 1] + events[k..]
  {
    WithoutIdSingle(events, k - 1, k);
  }

  /** Deleting an id that only the last event carries drops just that event. */
  lemma DropLast(p: seq<SessionEvent>, x: SessionEvent, id: int)
    requires forall i :: 0 <= i < |p| ==> p[i].id != id
    requires x.id == id
    ensures WithoutId(p + [x], id) == p
  {
    WithoutIdConcat(p, [x], id);
    WithoutIdAbsent(p, id);
    assert [x][1..] == [];
  }

  /** After the colliding save, deleting id n drops the old and the new holder of n. */
  lemma DeleteAfterCollision(events: seq<SessionEvent>, k: int, added: SessionEvent)
    requires PositionalIds(events) && 1 <= k < |events|
    requires added.id == |events|
    ensures var n := |events|;
      WithoutId(events[..k - 1] + events[k..] + [added], n) == events[..k - 1] + events[k..n - 1]
  {
    var n := |events|;
    var c := events[..k - 1] + events[k..n - 1];
    assert events[..k - 1] + events[k..] + [added] == (c + [events[n - 1]]) + [added];
    forall i | 0 <= i < |c| ensures c[i].id != n {
      if i < k - 1 {
        assert c[i] == events[i];
      } else {
        assert c[i] == events[i + 1];
      }
    }
    WithoutIdConcat(c + [events[n - 1]], [added], n);
    DropLast(c, events[n - 1], n);
    assert WithoutId([added], n) == [] by {
      assert [added][1..] == [];
    }
  }

  /**
   * Ids collide after a delete: in a list of n events with positional ids,
   * deleting id k < n and saving again gives the new event id n, which the
   * last surviving event already has; deleting n afterwards removes both.
   */
  lemma DeleteThenSaveRepeatsId(
      events: seq<SessionEvent>, k: int,
      eventDate: Date, startTime: Time, title: string, description: string)
    requires PositionalIds(events) && 1 <= k < |events|
    requires ValidDate(eventDate) && ValidTime(startTime)
    requires title != "" && AddHour(DateTime(eventDate, startTime)).Some?
    ensures var n := |events|;
      var r := SaveStep(WithoutId(events, k), eventDate, startTime, title, description);
      r.0 == Saved(n) && |r.1| == n && r.1[n - 2].id == n && r.1[n - 1].id == n
      && WithoutId(r.1, n) == events[..k - 1] + events[k..n - 1]
  {
    var n := |events|;
    DeletePositional(events, k);
    var after := WithoutId(events, k);
    var r := SaveStep(after, eventDate, startTime, title, description);
    var s := r.1;
    assert s[..n - 1] == after;
    assert s == after + [s[n - 1]];
    DeleteAfterCollision(events, k, s[n - 1]);
  }

  /** A start in the last hour of the day ends on the next day; the stored date stays the chosen one. */
  lemma LateStartEndsNextDay(events: seq<SessionEvent>, eventDate: Date, startTime: Time, title: string, description: string)
    requires ValidDate(eventDate) && ValidTime(startTime)
    requires startTime.hour == 23 && title != "" && eventDate != Date(MaxYear, 12, 31)
    ensures var r := SaveStep(events, eventDate, startTime, title, description);
      r.0.Saved? && r.1[|events|].date == eventDate
      && Some(r.1[|events|].end.date) == NextDay(eventDate) && r.1[|events|].end.date != eventDate
  {
  }

  /** `st.session_state`, as far as the page uses it: the `events` entry, absent until created. */
  class SessionState {
    var events: Option<seq<SessionEvent>>

    /** A new browser session holds no entry. */
    constructor ()
      ensures events == None
    {
      events := None;
    }

    /** schedule_app.py:5-6, run at the top of every rerun: create the list only if absent. */
    method InitEvents()
      modifies this
      ensures events == if old(events).Some? then old(events) else Some([])
    {
      if events.None? {
        events := Some([]);
      }
    }

    /** The save button: title check, end at start plus one hour, id is length plus one, append. */
    method SaveEvent(eventDate: Date, startTime: Time, title: string, description: string)
      returns (outcome: SaveOutcome)
      requires events.Some? && ValidDate(eventDate) && ValidTime(startTime)
      modifies this
      ensures var r := SaveStep(old(events).value, eventDate, startTime, title, description);
        outcome == r.0 && events == Some(r.1)
    {
      var startDt := DateTime(eventDate, startTime);
      var endDt := AddHour(startDt);
      if endDt.None? {
        return EndOutOfRange;
      }
      if title == "" {
        return TitleRequired;
      }
      var list := events.value;
      var newEvent := SessionEvent(|list| + 1, eventDate, startDt, endDt.value, title, description);
      events := Some(list + [newEvent]);
      outcome := Saved(newEvent.id);
    }

    /** A delete button: keep every event whose id differs from the clicked event's id. */
    method DeleteEvent(id: int)
      requires events.Some?
      modifies this
      ensures events == Some(WithoutId(old(events).value, id))
    {
      events := Some(WithoutId(events.value, id));
    }
  }
}
