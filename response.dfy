/** The response assembly of main.py: `filter_off_hours_events`,
    `calculate_duration_minutes` and `process_scheduler_results`, which applies the
    decision, drops protected events, and lists every attendee of the request with
    their events sorted by start time. */
module Response {
  import opened Wrappers
  import opened Clock
  import opened Text
  import opened Calendar
  import opened Sorting
  import opened Applier
  import opened Scheduler

  // ---------------------------------------------------------------------------
  // filter_off_hours_events

  /** `[event for event in events if event.get("Summary", "") != "Off Hours"]`. */
  function FilterOffHours(evs: seq<Event>): (r: seq<Event>)
    ensures |r| <= |evs|
    decreases |evs|
  {
    if evs == [] then []
    else
      var n := |evs| - 1;
      FilterOffHours(evs[..n]) + (if Protected(evs[n]) then [] else [evs[n]])
  }

  /** The filter keeps exactly the non-protected events, each as often as it occurs. */
  lemma {:induction false} FilterOffHoursKeeps(evs: seq<Event>)
    ensures forall e :: multiset(FilterOffHours(evs))[e] == if Protected(e) then 0 else multiset(evs)[e]
    decreases |evs|
  {
    if evs != [] {
      var n := |evs| - 1;
      FilterOffHoursKeeps(evs[..n]);
      assert evs[..n] + [evs[n]] == evs;
    }
  }

  /** The filter distributes over concatenation, so the kept events stay in order. */
  lemma {:induction false} FilterOffHoursAppend(a: seq<Event>, b: seq<Event>)
    ensures FilterOffHours(a + b) == FilterOffHours(a) + FilterOffHours(b)
    decreases |b|
  {
    if b == [] {
      assert a + b == a;
    } else {
      var n := |b| - 1;
      assert (a + b)[..|a + b| - 1] == a + b[..n];
      FilterOffHoursAppend(a, b[..n]);
    }
  }

  /** Filtering twice is filtering once. */
  lemma {:induction false} FilterOffHoursIdempotent(evs: seq<Event>)
    ensures FilterOffHours(FilterOffHours(evs)) == FilterOffHours(evs)
    decreases |evs|
  {
    if evs != [] {
      var n := |evs| - 1;
      FilterOffHoursIdempotent(evs[..n]);
      FilterOffHoursAppend(FilterOffHours(evs[..n]), if Protected(evs[n]) then [] else [evs[n]]);
      if !Protected(evs[n]) {
        assert [evs[n]][..0] == [];
      }
    }
  }

  // ---------------------------------------------------------------------------
  // calculate_duration_minutes

  /** `int(seconds / 60)`: division truncated toward zero. */
  function TruncMinutes(seconds: int): (m: int)
    ensures seconds >= 0 ==> 0 <= m * SecondsPerMinute <= seconds < (m + 1) * SecondsPerMinute
    ensures seconds < 0 ==> (m - 1) * SecondsPerMinute < seconds <= m * SecondsPerMinute <= 0
  {
    if seconds >= 0 then seconds / SecondsPerMinute else -((-seconds) / SecondsPerMinute)
  }

  /** `calculate_duration_minutes(start, end)`: the minutes between the two times,
      truncated toward zero, as a decimal string. */
  function CalculateDurationMinutes(start: Stamp, end: Stamp): (r: string)
    ensures ParseInt(r) == Some(TruncMinutes(end - start))
  {
    ParseIntString(TruncMinutes(end - start));
    IntString(TruncMinutes(end - start))
  }

  /** `Duration_mins`: "30" unless both proposed times are present. */
  function ReplyDuration(start: Option<Stamp>, end: Option<Stamp>): (r: string)
    ensures start.None? || end.None? ==> r == "30"
    ensures start.Some? && end.Some? ==> ParseInt(r) == Some(TruncMinutes(end.value - start.value))
  {
    if start.Some? && end.Some? then CalculateDurationMinutes(start.value, end.value) else "30"
  }

  // ---------------------------------------------------------------------------
  // process_scheduler_results

  function StartOfEvent(e: Event): int { e.start }

  /** The formatted response fields the core computes; the request fields it copies
      through unchanged are left out. */
  datatype Reply = Reply(
    attendees: seq<Entry>,
    eventStart: Option<Stamp>,
    eventEnd: Option<Stamp>,
    durationMins: string,
    subject: Option<string>)

  /** Every calendar with its protected events dropped. */
  function FilterAll(s: Snapshot): (r: Snapshot)
    ensures |r| == |s|
    ensures forall i | 0 <= i < |s| :: r[i].email == s[i].email
  {
    seq(|s|, i requires 0 <= i < |s| => Entry(s[i].email, FilterOffHours(s[i].events)))
  }

  /** `attendees_list`: one entry per listed email, holding its (possibly empty) event
      list sorted by start time. */
  function AttendeeEntries(s: Snapshot, emails: seq<string>): (r: seq<Entry>)
    ensures |r| == |emails|
  {
    seq(|emails|, k requires 0 <= k < |emails| => Entry(emails[k], SortBy(Get(s, emails[k]).GetOr([]), StartOfEvent)))
  }

  /** The response `process_scheduler_results(input_request, results)` builds. */
  function Process(req: Request, results: Outcome): Reply {
    var d := results.decision;
    var updated := FilterAll(Apply(results.events, d, req));
    Reply(AttendeeEntries(updated, AttendeeList(req)), d.proposedStart, d.proposedEnd,
          ReplyDuration(d.proposedStart, d.proposedEnd), req.subject)
  }

  /** The `for email in updated_attendee_events` loop that filters every calendar. */
  method FilterCalendars(s: Snapshot) returns (updated: Snapshot)
    ensures updated == FilterAll(s)
  {
    updated := s;
    for i := 0 to |updated|
      invariant |updated| == |s|
      invariant forall k | 0 <= k < i :: updated[k] == FilterAll(s)[k]
      invariant forall k | i <= k < |updated| :: updated[k] == s[k]
    {
      updated := updated[i := Entry(updated[i].email, FilterOffHours(updated[i].events))];
    }
    assert updated == FilterAll(s);
  }

  /** The `for email in all_attendee_emails` loop that builds `attendees_list`. */
  method BuildAttendeeEntries(updated: Snapshot, allAttendeeEmails: seq<string>) returns (attendeesList: seq<Entry>)
    ensures attendeesList == AttendeeEntries(updated, allAttendeeEmails)
  {
    attendeesList := [];
    for k := 0 to |allAttendeeEmails|
      invariant attendeesList == AttendeeEntries(updated, allAttendeeEmails)[..k]
    {
      var email := allAttendeeEmails[k];
      var attendeeEventsList := Get(updated, email).GetOr([]);
      attendeeEventsList := SortBy(attendeeEventsList, StartOfEvent);
      attendeesList := attendeesList + [Entry(email, attendeeEventsList)];
    }
  }

  /** `process_scheduler_results(input_request, results)`. */
  method ProcessSchedulerResults(req: Request, results: Outcome) returns (response: Reply)
    ensures response == Process(req, results)
  {
    var decision := results.decision;
    var updated := ApplyRescheduling(results.events, decision, req);
    updated := FilterCalendars(updated);
    var eventStart := decision.proposedStart;
    var eventEnd := decision.proposedEnd;
    var durationMins := if eventStart.Some? && eventEnd.Some? then CalculateDurationMinutes(eventStart.value, eventEnd.value) else "30";
    var attendeesList := BuildAttendeeEntries(updated, AttendeeList(req));
    response := Reply(attendeesList, eventStart, eventEnd, durationMins, req.subject);
  }

  // ---------------------------------------------------------------------------
  // Properties of the response

  /** One entry per email of the sender-plus-attendees list, in that order; each entry
      is that email's calendar after the decision, without protected events, sorted by
      start time (equal starts in calendar order), or empty when the email has none. */
  lemma ProcessEntries(req: Request, results: Outcome, k: int)
    requires 0 <= k < |AttendeeList(req)|
    ensures var r := Process(req, results);
      var email := AttendeeList(req)[k];
      var after := Get(Apply(results.events, results.decision, req), email).GetOr([]);
      && |r.attendees| == |AttendeeList(req)|
      && r.attendees[k].email == email
      && SortedBy(r.attendees[k].events, StartOfEvent)
      && multiset(r.attendees[k].events) == multiset(FilterOffHours(after))
      && (forall e | e in r.attendees[k].events :: !Protected(e))
      && (forall v :: Keyed(r.attendees[k].events, StartOfEvent, v) == Keyed(FilterOffHours(after), StartOfEvent, v))
  {
    var s := Apply(results.events, results.decision, req);
    var email := AttendeeList(req)[k];
    FilterAllGet(s, email);
    var kept := Get(FilterAll(s), email).GetOr([]);
    SortByProps(kept, StartOfEvent);
    forall v ensures Keyed(SortBy(kept, StartOfEvent), StartOfEvent, v) == Keyed(kept, StartOfEvent, v) {
      SortByStable(kept, StartOfEvent, v);
    }
    FilterOffHoursKeeps(Get(s, email).GetOr([]));
    forall e | e in SortBy(kept, StartOfEvent) ensures !Protected(e) {
      assert e in multiset(kept);
    }
  }

  /** Filtering every calendar filters each email's events. */
  lemma {:induction false} FilterAllGet(s: Snapshot, email: string)
    ensures Get(FilterAll(s), email).GetOr([]) == FilterOffHours(Get(s, email).GetOr([]))
    decreases |s|
  {
    if s != [] {
      FilterAllGet(s[1..], email);
      assert FilterAll(s)[1..] == FilterAll(s[1..]);
    }
  }

  /** When the decision carries a proposed meeting whose subject is not the protected
      summary, every listed attendee's entry shows that meeting. */
  lemma ProcessShowsMeeting(req: Request, results: Outcome, k: int)
    requires 0 <= k < |AttendeeList(req)|
    requires HasProposal(results.decision)
    requires MeetingSubject(req) != OffHours
    ensures var r := Process(req, results);
      var d := results.decision;
      exists e | e in r.attendees[k].events :: SameMeeting(e, d.proposedStart.value, d.proposedEnd.value, MeetingSubject(req))
  {
    var d := results.decision;
    var email := AttendeeList(req)[k];
    var after := Get(Apply(results.events, d, req), email).GetOr([]);
    var ev := AppliedMeeting(req, results, email);
    ProcessEntries(req, results, k);
    assert ev in multiset(FilterOffHours(after));
    assert ev in multiset(Process(req, results).attendees[k].events);
  }

  /** After the decision is applied, a listed attendee's filtered calendar holds an
      event matching the proposed meeting. */
  lemma AppliedMeeting(req: Request, results: Outcome, email: string) returns (ev: Event)
    requires email == req.from || email in req.attendees
    requires HasProposal(results.decision)
    requires MeetingSubject(req) != OffHours
    ensures var d := results.decision;
      && ev in FilterOffHours(Get(Apply(results.events, d, req), email).GetOr([]))
      && SameMeeting(ev, d.proposedStart.value, d.proposedEnd.value, MeetingSubject(req))
  {
    var d := results.decision;
    var ps := d.proposedStart.value;
    var pe := d.proposedEnd.value;
    ApplyInserts(results.events, d, req, email);
    var evs := Get(Apply(results.events, d, req), email).value;
    MeetingCountPositive(evs, ps, pe, MeetingSubject(req));
    var j :| 0 <= j < |evs| && SameMeeting(evs[j], ps, pe, MeetingSubject(req));
    ev := evs[j];
    FilterOffHoursKeeps(evs);
    assert multiset(FilterOffHours(evs))[ev] > 0;
  }
}
