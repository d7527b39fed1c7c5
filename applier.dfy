/** `apply_rescheduling_to_attendee_events` (main.py): on a copy of the calendars, move
    every non-protected event that overlaps the proposed meeting to the rescheduled
    times (when the decision gives them), then add the proposed meeting to the calendar
    of every attendee who does not already have it. */
module Applier {
  import opened Wrappers
  import opened Clock
  import opened Calendar
  import opened Conflicts

  // ---------------------------------------------------------------------------
  // Relocation of one attendee's events

  /** An event the relocation step removes: non-protected and overlapping the
      proposed meeting, i.e. exactly a conflict of the proposal. */
  predicate Displaced(e: Event, ps: Stamp, pe: Stamp) {
    Conflicting(e, ps, pe)
  }

  /** The rescheduled copy of a displaced event: new times, same attendees and summary. */
  function Relocated(e: Event, rs: Stamp, re: Stamp): Event {
    Event(rs, re, e.summary, e.numAttendees, e.attendees)
  }

  /** The events that stay, in their original order. */
  function Kept(evs: seq<Event>, ps: Stamp, pe: Stamp): (r: seq<Event>)
    ensures |r| <= |evs|
    decreases |evs|
  {
    if evs == [] then []
    else
      var n := |evs| - 1;
      Kept(evs[..n], ps, pe) + (if Displaced(evs[n], ps, pe) then [] else [evs[n]])
  }

  /** The events that are removed, in their original order. */
  function DisplacedEvents(evs: seq<Event>, ps: Stamp, pe: Stamp): (r: seq<Event>)
    ensures |r| <= |evs|
    decreases |evs|
  {
    if evs == [] then []
    else
      var n := |evs| - 1;
      DisplacedEvents(evs[..n], ps, pe) + (if Displaced(evs[n], ps, pe) then [evs[n]] else [])
  }

  /** `events_to_add`: one rescheduled copy per removed event, in order. */
  function Moved(evs: seq<Event>, ps: Stamp, pe: Stamp, rs: Stamp, re: Stamp): seq<Event>
    decreases |evs|
  {
    if evs == [] then []
    else
      var n := |evs| - 1;
      Moved(evs[..n], ps, pe, rs, re) + (if Displaced(evs[n], ps, pe) then [Relocated(evs[n], rs, re)] else [])
  }

  /** One attendee's events after the relocation step: the kept events, then the moved
      copies. */
  function RelocateEvents(evs: seq<Event>, ps: Stamp, pe: Stamp, rs: Stamp, re: Stamp): seq<Event> {
    Kept(evs, ps, pe) + Moved(evs, ps, pe, rs, re)
  }

  lemma {:induction false} KeptAppend(a: seq<Event>, b: seq<Event>, ps: Stamp, pe: Stamp)
    ensures Kept(a + b, ps, pe) == Kept(a, ps, pe) + Kept(b, ps, pe)
    decreases |b|
  {
    if b == [] {
      assert a + b == a;
    } else {
      var n := |b| - 1;
      assert (a + b)[..|a + b| - 1] == a + b[..n];
      KeptAppend(a, b[..n], ps, pe);
    }
  }

  /** A stretch without displaced events is kept whole. */
  lemma {:induction false} KeptAll(a: seq<Event>, lo: int, hi: int, ps: Stamp, pe: Stamp)
    requires 0 <= lo <= hi <= |a|
    requires forall k | lo <= k < hi :: !Displaced(a[k], ps, pe)
    ensures Kept(a[lo..hi], ps, pe) == a[lo..hi]
    decreases hi - lo
  {
    if lo < hi {
      KeptAll(a, lo, hi - 1, ps, pe);
      var run := a[lo..hi];
      var n := |run| - 1;
      assert run[..n] == a[lo..hi - 1];
      assert run[n] == a[hi - 1];
      assert Kept(run, ps, pe) == Kept(run[..n], ps, pe) + [run[n]];
      assert run[..n] + [run[n]] == run;
    }
  }

  /** The kept and the displaced events together are the original events. */
  lemma {:induction false} KeptDisplacedPartition(evs: seq<Event>, ps: Stamp, pe: Stamp)
    ensures multiset(Kept(evs, ps, pe)) + multiset(DisplacedEvents(evs, ps, pe)) == multiset(evs)
    decreases |evs|
  {
    if evs != [] {
      var n := |evs| - 1;
      var init := evs[..n];
      KeptDisplacedPartition(init, ps, pe);
      assert init + [evs[n]] == evs;
      assert multiset(evs) == multiset(init) + multiset{evs[n]};
      if Displaced(evs[n], ps, pe) {
        assert Kept(evs, ps, pe) == Kept(init, ps, pe) + [];
        assert DisplacedEvents(evs, ps, pe) == DisplacedEvents(init, ps, pe) + [evs[n]];
      } else {
        assert Kept(evs, ps, pe) == Kept(init, ps, pe) + [evs[n]];
        assert DisplacedEvents(evs, ps, pe) == DisplacedEvents(init, ps, pe) + [];
      }
    }
  }

  /** Kept events are never displaced ones, and removed events always are. */
  lemma {:induction false} KeptAndDisplacedSides(evs: seq<Event>, ps: Stamp, pe: Stamp)
    ensures forall e | e in Kept(evs, ps, pe) :: !Displaced(e, ps, pe)
    ensures forall e | e in DisplacedEvents(evs, ps, pe) :: Displaced(e, ps, pe)
    decreases |evs|
  {
    if evs != [] {
      KeptAndDisplacedSides(evs[..|evs| - 1], ps, pe);
    }
  }

  /** The moved copies correspond one to one, in order, to the displaced events. */
  lemma {:induction false} MovedMatchesDisplaced(evs: seq<Event>, ps: Stamp, pe: Stamp, rs: Stamp, re: Stamp)
    ensures |Moved(evs, ps, pe, rs, re)| == |DisplacedEvents(evs, ps, pe)|
    ensures forall k | 0 <= k < |Moved(evs, ps, pe, rs, re)| ::
      Moved(evs, ps, pe, rs, re)[k] == Relocated(DisplacedEvents(evs, ps, pe)[k], rs, re)
    decreases |evs|
  {
    if evs != [] {
      var n := |evs| - 1;
      MovedMatchesDisplaced(evs[..n], ps, pe, rs, re);
    }
  }

  /** Relocation keeps each attendee's event count; it keeps every event that is not
      displaced (protected events in particular) with its multiplicity and order; and
      afterwards the only events still overlapping the proposal are protected ones or
      moved copies, which carry the rescheduled times and the originals' attendees and
      summaries. */
  lemma RelocationCorrect(evs: seq<Event>, ps: Stamp, pe: Stamp, rs: Stamp, re: Stamp)
    ensures |RelocateEvents(evs, ps, pe, rs, re)| == |evs|
    ensures |Moved(evs, ps, pe, rs, re)| == |DisplacedEvents(evs, ps, pe)|
    ensures forall e | !Displaced(e, ps, pe) ::
      multiset(Kept(evs, ps, pe))[e] == multiset(evs)[e]
    ensures forall e | Protected(e) ::
      multiset(RelocateEvents(evs, ps, pe, rs, re))[e] == multiset(evs)[e]
    ensures forall e | e in RelocateEvents(evs, ps, pe, rs, re) && Displaced(e, ps, pe) ::
      e.start == rs && e.end == re
    ensures forall k | 0 <= k < |Moved(evs, ps, pe, rs, re)| ::
      var d := DisplacedEvents(evs, ps, pe)[k];
      Moved(evs, ps, pe, rs, re)[k] == Event(rs, re, d.summary, d.numAttendees, d.attendees)
  {
    var kept := Kept(evs, ps, pe);
    var disp := DisplacedEvents(evs, ps, pe);
    var moved := Moved(evs, ps, pe, rs, re);
    KeptDisplacedPartition(evs, ps, pe);
    KeptAndDisplacedSides(evs, ps, pe);
    MovedMatchesDisplaced(evs, ps, pe, rs, re);
    assert |multiset(kept)| + |multiset(disp)| == |multiset(evs)|;
    forall e | !Displaced(e, ps, pe) ensures multiset(kept)[e] == multiset(evs)[e] {
      assert e !in disp;
    }
    forall k | 0 <= k < |moved| ensures !Protected(moved[k]) && moved[k].start == rs && moved[k].end == re {
      assert Displaced(disp[k], ps, pe);
    }
    forall e | Protected(e) ensures multiset(kept + moved)[e] == multiset(evs)[e] {
      assert e !in moved;
    }
  }

  /** `events.pop(i)`. */
  function Pop(s: seq<Event>, i: int): (r: seq<Event>)
    requires 0 <= i < |s|
    ensures |r| == |s| - 1
  {
    s[..i] + s[i + 1..]
  }

  /** Where the list still holds its original events: up to the next index still to be
      popped, or the whole list when none is left. */
  function Cut(toRemove: seq<int>, j: int, n: int): int
    requires 0 <= j <= |toRemove|
  {
    if j < |toRemove| then toRemove[j] else n
  }

  /** `events_to_remove`: the indices of exactly the displaced events, increasing. */
  predicate RemovalIndices(toRemove: seq<int>, evs: seq<Event>, upTo: int, ps: Stamp, pe: Stamp) {
    && (forall m | 0 <= m < |toRemove| :: 0 <= toRemove[m] < upTo && toRemove[m] < |evs| && Displaced(evs[toRemove[m]], ps, pe))
    && (forall m, l | 0 <= m < l < |toRemove| :: toRemove[m] < toRemove[l])
    && (forall k | 0 <= k < upTo && k < |evs| && Displaced(evs[k], ps, pe) :: k in toRemove)
  }

  /** The indices below n of the displaced events, in increasing order. */
  function DisplacedIndices(evs: seq<Event>, n: int, ps: Stamp, pe: Stamp): seq<int>
    requires 0 <= n <= |evs|
    decreases n
  {
    if n == 0 then []
    else DisplacedIndices(evs, n - 1, ps, pe) + (if Displaced(evs[n - 1], ps, pe) then [n - 1] else [])
  }

  lemma {:induction false} DisplacedIndicesCorrect(evs: seq<Event>, n: int, ps: Stamp, pe: Stamp)
    requires 0 <= n <= |evs|
    ensures RemovalIndices(DisplacedIndices(evs, n, ps, pe), evs, n, ps, pe)
    decreases n
  {
    if n > 0 {
      DisplacedIndicesCorrect(evs, n - 1, ps, pe);
      var prev := DisplacedIndices(evs, n - 1, ps, pe);
      var cur := DisplacedIndices(evs, n, ps, pe);
      forall k | 0 <= k < n && Displaced(evs[k], ps, pe) ensures k in cur {
        if k < n - 1 {
          assert k in prev;
        } else {
          assert cur[|cur| - 1] == k;
        }
      }
    }
  }

  /** Between two consecutive removal indices there is no displaced event. */
  lemma NoDisplacedBetween(toRemove: seq<int>, evs: seq<Event>, ps: Stamp, pe: Stamp, j: int, k: int)
    requires RemovalIndices(toRemove, evs, |evs|, ps, pe)
    requires 0 <= j <= |toRemove|
    requires (if j == 0 then 0 else toRemove[j - 1] + 1) <= k < Cut(toRemove, j, |evs|)
    ensures !Displaced(evs[k], ps, pe)
  {
    forall m | 0 <= m < |toRemove| ensures toRemove[m] != k {
      if m < j - 1 {
        assert toRemove[m] < toRemove[j - 1];
      } else if j < m {
        assert toRemove[j] < toRemove[m];
      }
    }
  }

  /** Popping a displaced event at t, when nothing between t and c is displaced, from
      a list that is original up to c and filtered after it. */
  lemma {:induction false} PopKept(evs: seq<Event>, ps: Stamp, pe: Stamp, t: int, c: int, cur: seq<Event>)
    requires 0 <= t < c <= |evs|
    requires Displaced(evs[t], ps, pe)
    requires forall k | t < k < c :: !Displaced(evs[k], ps, pe)
    requires cur == evs[..c] + Kept(evs[c..], ps, pe)
    ensures t < |cur|
    ensures Pop(cur, t) == evs[..t] + Kept(evs[t..], ps, pe)
  {
    KeptSuffix(evs, ps, pe, t, c);
    var mid := evs[t + 1..c];
    var tail := Kept(evs[c..], ps, pe);
    assert cur == evs[..t] + [evs[t]] + mid + tail;
    assert cur[..t] == evs[..t];
    assert cur[t + 1..] == mid + tail;
  }

  /** From a displaced event followed by a run of kept ones, what stays is the run and
      what stays after it. */
  lemma KeptSuffix(evs: seq<Event>, ps: Stamp, pe: Stamp, t: int, c: int)
    requires 0 <= t < c <= |evs|
    requires Displaced(evs[t], ps, pe)
    requires forall k | t < k < c :: !Displaced(evs[k], ps, pe)
    ensures Kept(evs[t..], ps, pe) == evs[t + 1..c] + Kept(evs[c..], ps, pe)
  {
    var head := [evs[t]];
    var mid := evs[t + 1..c];
    calc {
      Kept(evs[t..], ps, pe);
      { assert evs[t..] == (head + mid) + evs[c..]; }
      Kept((head + mid) + evs[c..], ps, pe);
      { KeptAppend(head + mid, evs[c..], ps, pe); }
      Kept(head + mid, ps, pe) + Kept(evs[c..], ps, pe);
      { KeptAppend(head, mid, ps, pe); KeptDropped(evs[t], ps, pe); KeptAll(evs, t + 1, c, ps, pe); }
      mid + Kept(evs[c..], ps, pe);
    }
  }

  /** A lone displaced event is not kept. */
  lemma KeptDropped(e: Event, ps: Stamp, pe: Stamp)
    requires Displaced(e, ps, pe)
    ensures Kept([e], ps, pe) == []
  {
    assert [e][..0] == [];
  }



  /** One step of `for i in reversed(events_to_remove): events.pop(i)`. */
  lemma PopStep(toRemove: seq<int>, evs: seq<Event>, ps: Stamp, pe: Stamp, j: int, cur: seq<Event>)
    requires RemovalIndices(toRemove, evs, |evs|, ps, pe)
    requires 0 < j <= |toRemove|
    requires cur == evs[..Cut(toRemove, j, |evs|)] + Kept(evs[Cut(toRemove, j, |evs|)..], ps, pe)
    ensures 0 <= toRemove[j - 1] < |cur|
    ensures Pop(cur, toRemove[j - 1]) == evs[..Cut(toRemove, j - 1, |evs|)] + Kept(evs[Cut(toRemove, j - 1, |evs|)..], ps, pe)
  {
    var c := Cut(toRemove, j, |evs|);
    var t := toRemove[j - 1];
    forall k | t < k < c ensures !Displaced(evs[k], ps, pe) {
      NoDisplacedBetween(toRemove, evs, ps, pe, j, k);
    }
    PopKept(evs, ps, pe, t, c, cur);
  }

  /** A list that is original up to c, with nothing displaced before c, and filtered
      after it, is the filtered list. */
  lemma {:induction false} KeptPrefix(evs: seq<Event>, ps: Stamp, pe: Stamp, c: int, cur: seq<Event>)
    requires 0 <= c <= |evs|
    requires forall k | 0 <= k < c :: !Displaced(evs[k], ps, pe)
    requires cur == evs[..c] + Kept(evs[c..], ps, pe)
    ensures cur == Kept(evs, ps, pe)
  {
    KeptAll(evs, 0, c, ps, pe);
    KeptAppend(evs[..c], evs[c..], ps, pe);
    assert evs[0..c] == evs[..c];
    assert evs[..c] + evs[c..] == evs;
  }

  /** Once every index is popped, what remains is the kept events. */
  lemma PopsDone(toRemove: seq<int>, evs: seq<Event>, ps: Stamp, pe: Stamp, cur: seq<Event>)
    requires RemovalIndices(toRemove, evs, |evs|, ps, pe)
    requires cur == evs[..Cut(toRemove, 0, |evs|)] + Kept(evs[Cut(toRemove, 0, |evs|)..], ps, pe)
    ensures cur == Kept(evs, ps, pe)
  {
    var c := Cut(toRemove, 0, |evs|);
    forall k | 0 <= k < c ensures !Displaced(evs[k], ps, pe) {
      NoDisplacedBetween(toRemove, evs, ps, pe, 0, k);
    }
    KeptPrefix(evs, ps, pe, c, cur);
  }

  /** The relocation loop body of main.py for one attendee: collect the displaced
      indices and their rescheduled copies, pop the indices in reverse (so that the
      remaining indices stay valid), then append the copies. */
  method RelocateAttendee(events: seq<Event>, ps: Stamp, pe: Stamp, rs: Stamp, re: Stamp)
    returns (updated: seq<Event>)
    ensures updated == RelocateEvents(events, ps, pe, rs, re)
  {
    var eventsToRemove, eventsToAdd := MarkDisplaced(events, ps, pe, rs, re);
    DisplacedIndicesCorrect(events, |events|, ps, pe);
    updated := events;
    var j := |eventsToRemove|;
    while j > 0
      invariant 0 <= j <= |eventsToRemove|
      invariant updated == events[..Cut(eventsToRemove, j, |events|)] + Kept(events[Cut(eventsToRemove, j, |events|)..], ps, pe)
    {
      PopStep(eventsToRemove, events, ps, pe, j, updated);
      updated := Pop(updated, eventsToRemove[j - 1]);
      j := j - 1;
    }
    PopsDone(eventsToRemove, events, ps, pe, updated);
    for k := 0 to |eventsToAdd|
      invariant updated == Kept(events, ps, pe) + eventsToAdd[..k]
    {
      assert eventsToAdd[..k + 1] == eventsToAdd[..k] + [eventsToAdd[k]];
      updated := updated + [eventsToAdd[k]];
    }
    assert eventsToAdd[..|eventsToAdd|] == eventsToAdd;
  }

  /** The `enumerate(events)` loop of the relocation step: the indices of the displaced
      events (`events_to_remove`) and their rescheduled copies (`events_to_add`). */
  method MarkDisplaced(events: seq<Event>, ps: Stamp, pe: Stamp, rs: Stamp, re: Stamp)
    returns (eventsToRemove: seq<int>, eventsToAdd: seq<Event>)
    ensures eventsToRemove == DisplacedIndices(events, |events|, ps, pe)
    ensures eventsToAdd == Moved(events, ps, pe, rs, re)
  {
    eventsToRemove := [];
    eventsToAdd := [];
    for i := 0 to |events|
      invariant eventsToRemove == DisplacedIndices(events, i, ps, pe)
      invariant eventsToAdd == Moved(events[..i], ps, pe, rs, re)
    {
      assert events[..i + 1][..i] == events[..i];
      var event := events[i];
      if Overlaps(event.start, event.end, ps, pe) {
        if event.summary == OffHours {
          continue;
        }
        eventsToRemove := eventsToRemove + [i];
        eventsToAdd := eventsToAdd + [Relocated(event, rs, re)];
      }
    }
    assert events[..|events|] == events;
  }

  /** Every attendee's events after the relocation step; emails and order unchanged. */
  function RelocateAll(s: Snapshot, ps: Stamp, pe: Stamp, rs: Stamp, re: Stamp): (r: Snapshot)
    ensures |r| == |s|
    ensures forall i | 0 <= i < |s| :: r[i].email == s[i].email
  {
    seq(|s|, i requires 0 <= i < |s| => Entry(s[i].email, RelocateEvents(s[i].events, ps, pe, rs, re)))
  }

  // ---------------------------------------------------------------------------
  // Insertion of the new meeting

  /** The event added to every attendee's calendar. */
  function NewMeeting(req: Request, ps: Stamp, pe: Stamp): Event {
    var emails := AttendeeList(req);
    Event(ps, pe, MeetingSubject(req), |emails|, emails)
  }

  /** The duplicate test: the same start, end and summary. */
  predicate SameMeeting(e: Event, ps: Stamp, pe: Stamp, subject: string) {
    e.start == ps && e.end == pe && e.summary == subject
  }

  /** `meeting_exists`. */
  predicate HasMeeting(evs: seq<Event>, ps: Stamp, pe: Stamp, subject: string) {
    exists k | 0 <= k < |evs| :: SameMeeting(evs[k], ps, pe, subject)
  }

  /** The number of events that match the meeting. */
  function MeetingCount(evs: seq<Event>, ps: Stamp, pe: Stamp, subject: string): (n: nat)
    ensures n <= |evs|
    decreases |evs|
  {
    if evs == [] then 0
    else
      var n := |evs| - 1;
      MeetingCount(evs[..n], ps, pe, subject) + (if SameMeeting(evs[n], ps, pe, subject) then 1 else 0)
  }

  lemma {:induction false} MeetingCountPositive(evs: seq<Event>, ps: Stamp, pe: Stamp, subject: string)
    ensures MeetingCount(evs, ps, pe, subject) > 0 <==> HasMeeting(evs, ps, pe, subject)
    decreases |evs|
  {
    if evs != [] {
      var n := |evs| - 1;
      MeetingCountPositive(evs[..n], ps, pe, subject);
      if HasMeeting(evs[..n], ps, pe, subject) {
        var k :| 0 <= k < n && SameMeeting(evs[..n][k], ps, pe, subject);
        assert SameMeeting(evs[k], ps, pe, subject);
      }
      if HasMeeting(evs, ps, pe, subject) && !SameMeeting(evs[n], ps, pe, subject) {
        var k :| 0 <= k < |evs| && SameMeeting(evs[k], ps, pe, subject);
        assert SameMeeting(evs[..n][k], ps, pe, subject);
      }
    }
  }

  /** One pass of the insertion loop for `email`: create an empty calendar when the
      email has none, then append the meeting unless an identical one is present. */
  function InsertOne(s: Snapshot, email: string, m: Event): Snapshot {
    var s1 := if Get(s, email).None? then Put(s, email, []) else s;
    var evs := Get(s1, email).value;
    if HasMeeting(evs, m.start, m.end, m.summary) then s1 else Put(s1, email, evs + [m])
  }

  /** The insertion loop over the attendee list. */
  function InsertAll(s: Snapshot, emails: seq<string>, m: Event): Snapshot
    decreases |emails|
  {
    if emails == [] then s
    else
      var n := |emails| - 1;
      InsertOne(InsertAll(s, emails[..n], m), emails[n], m)
  }

  /** After one insertion the email has a calendar holding the meeting exactly once if
      it had no copy, and unchanged otherwise; the meeting is appended at the end; no
      other email's calendar changes; no other email gains or loses a calendar. */
  lemma InsertOneCorrect(s: Snapshot, email: string, m: Event)
    ensures var r := InsertOne(s, email, m);
      var before := Get(s, email).GetOr([]);
      && Get(r, email).Some?
      && (HasMeeting(before, m.start, m.end, m.summary) ==> Get(r, email).value == before)
      && (!HasMeeting(before, m.start, m.end, m.summary) ==> Get(r, email).value == before + [m])
      && (forall other | other != email :: Get(r, other) == Get(s, other))
      && Emails(r) == Emails(s) + {email}
  {
  }

  lemma {:induction false} MeetingCountAppend(evs: seq<Event>, m: Event)
    ensures MeetingCount(evs + [m], m.start, m.end, m.summary) == MeetingCount(evs, m.start, m.end, m.summary) + 1
  {
    assert (evs + [m])[..|evs|] == evs;
  }

  /** Insertion never duplicates: afterwards every listed email holds the meeting as many
      times as before, or once if it had none, and every other email's calendar is
      unchanged. */
  lemma {:induction false} InsertAllCounts(s: Snapshot, emails: seq<string>, m: Event, email: string)
    ensures var r := InsertAll(s, emails, m);
      var before := MeetingCount(Get(s, email).GetOr([]), m.start, m.end, m.summary);
      && (email in emails ==>
            && Get(r, email).Some?
            && MeetingCount(Get(r, email).value, m.start, m.end, m.summary) == (if before == 0 then 1 else before))
      && (email !in emails ==> Get(r, email) == Get(s, email))
    decreases |emails|
  {
    if emails != [] {
      var n := |emails| - 1;
      var t := InsertAll(s, emails[..n], m);
      assert InsertAll(s, emails, m) == InsertOne(t, emails[n], m);
      InsertAllCounts(s, emails[..n], m, email);
      if email == emails[n] {
        InsertOneCount(t, email, m);
        MeetingCountPositive(Get(s, email).GetOr([]), m.start, m.end, m.summary);
        if email in emails[..n] {
          MeetingCountPositive(Get(t, email).value, m.start, m.end, m.summary);
        }
      } else {
        InsertOneOther(t, emails[n], m, email);
        assert email in emails <==> email in emails[..n] by {
          assert emails == emails[..n] + [emails[n]];
        }
      }
    }
  }

  /** One insertion for `email` leaves every other email's calendar as it was. */
  lemma InsertOneOther(s: Snapshot, email: string, m: Event, other: string)
    requires other != email
    ensures Get(InsertOne(s, email, m), other) == Get(s, other)
  {
    InsertOneCorrect(s, email, m);
  }

  /** One insertion leaves the email holding the meeting as often as before, or once if
      it held none. */
  lemma InsertOneCount(s: Snapshot, email: string, m: Event)
    ensures var c := MeetingCount(Get(s, email).GetOr([]), m.start, m.end, m.summary);
      && Get(InsertOne(s, email, m), email).Some?
      && MeetingCount(Get(InsertOne(s, email, m), email).value, m.start, m.end, m.summary)
         == (if c == 0 then 1 else c)
  {
    InsertOneCorrect(s, email, m);
    var evs := Get(s, email).GetOr([]);
    MeetingCountPositive(evs, m.start, m.end, m.summary);
    if !HasMeeting(evs, m.start, m.end, m.summary) {
      MeetingCountAppend(evs, m);
    }
  }

  /** The emails of the result are the old ones plus every listed email. */
  lemma {:induction false} InsertAllEmails(s: Snapshot, emails: seq<string>, m: Event)
    ensures Emails(InsertAll(s, emails, m)) == Emails(s) + set e | e in emails
    decreases |emails|
  {
    if emails != [] {
      var n := |emails| - 1;
      InsertAllEmails(s, emails[..n], m);
      InsertOneCorrect(InsertAll(s, emails[..n], m), emails[n], m);
      assert emails == emails[..n] + [emails[n]];
    }
  }

  /** A calendar where every listed email already holds the meeting is left as it is. */
  lemma {:induction false} InsertAllNoop(s: Snapshot, emails: seq<string>, m: Event)
    requires forall e | e in emails :: Get(s, e).Some? && HasMeeting(Get(s, e).value, m.start, m.end, m.summary)
    ensures InsertAll(s, emails, m) == s
    decreases |emails|
  {
    if emails != [] {
      var n := |emails| - 1;
      forall e | e in emails[..n] ensures Get(s, e).Some? && HasMeeting(Get(s, e).value, m.start, m.end, m.summary) {
        assert e in emails;
      }
      InsertAllNoop(s, emails[..n], m);
      var last := emails[n];
      assert last in emails;
      assert InsertAll(s, emails, m) == InsertOne(s, last, m);
    }
  }

  /** After the insertion loop every listed email holds the meeting. */
  lemma InsertAllHolds(s: Snapshot, emails: seq<string>, m: Event)
    ensures forall e | e in emails ::
      Get(InsertAll(s, emails, m), e).Some? && HasMeeting(Get(InsertAll(s, emails, m), e).value, m.start, m.end, m.summary)
  {
    forall e | e in emails
      ensures Get(InsertAll(s, emails, m), e).Some? && HasMeeting(Get(InsertAll(s, emails, m), e).value, m.start, m.end, m.summary)
    {
      InsertAllCounts(s, emails, m, e);
      MeetingCountPositive(Get(InsertAll(s, emails, m), e).value, m.start, m.end, m.summary);
    }
  }

  // ---------------------------------------------------------------------------
  // The whole function

  /** The proposed times, when the decision carries both. */
  predicate HasProposal(d: Decision) {
    d.proposedStart.Some? && d.proposedEnd.Some?
  }

  /** Relocation runs only when both rescheduled times are present. */
  predicate HasRelocation(d: Decision) {
    d.conflictStart.Some? && d.conflictEnd.Some?
  }

  /** The calendars `apply_rescheduling_to_attendee_events` returns. */
  function Apply(s: Snapshot, d: Decision, req: Request): Snapshot {
    if !HasProposal(d) then s
    else
      var ps := d.proposedStart.value;
      var pe := d.proposedEnd.value;
      var moved := if HasRelocation(d) then RelocateAll(s, ps, pe, d.conflictStart.value, d.conflictEnd.value) else s;
      InsertAll(moved, AttendeeList(req), NewMeeting(req, ps, pe))
  }

  /** Step 1 of main.py: relocate every attendee's displaced events, entry by entry. */
  method RescheduleConflicts(s: Snapshot, ps: Stamp, pe: Stamp, rs: Stamp, re: Stamp) returns (updated: Snapshot)
    ensures updated == RelocateAll(s, ps, pe, rs, re)
  {
    updated := s;
    for i := 0 to |updated|
      invariant |updated| == |s|
      invariant forall k | 0 <= k < i :: updated[k] == RelocateAll(s, ps, pe, rs, re)[k]
      invariant forall k | i <= k < |updated| :: updated[k] == s[k]
    {
      var events := RelocateAttendee(updated[i].events, ps, pe, rs, re);
      updated := updated[i := Entry(updated[i].email, events)];
    }
    assert updated == RelocateAll(s, ps, pe, rs, re);
  }

  /** Step 2 of main.py: give every listed email a calendar and the meeting, unless an
      identical meeting is already there. */
  method AddMeetingToAll(s: Snapshot, allAttendeeEmails: seq<string>, newMeetingEvent: Event) returns (updated: Snapshot)
    ensures updated == InsertAll(s, allAttendeeEmails, newMeetingEvent)
  {
    updated := s;
    for k := 0 to |allAttendeeEmails|
      invariant updated == InsertAll(s, allAttendeeEmails[..k], newMeetingEvent)
    {
      var email := allAttendeeEmails[k];
      assert allAttendeeEmails[..k + 1][..k] == allAttendeeEmails[..k];
      if Get(updated, email).None? {
        updated := Put(updated, email, []);
      }
      var events := Get(updated, email).value;
      var meetingExists := exists j | 0 <= j < |events| ::
        SameMeeting(events[j], newMeetingEvent.start, newMeetingEvent.end, newMeetingEvent.summary);
      if !meetingExists {
        updated := Put(updated, email, events + [newMeetingEvent]);
      }
    }
    assert allAttendeeEmails[..|allAttendeeEmails|] == allAttendeeEmails;
  }

  /** `apply_rescheduling_to_attendee_events(attendee_events, decision, input_request)`.
      Calendars are values here, so the source's deep copy is implicit and the caller's
      calendars are never changed. */
  method ApplyRescheduling(attendeeEvents: Snapshot, d: Decision, req: Request) returns (updated: Snapshot)
    ensures updated == Apply(attendeeEvents, d, req)
  {
    updated := attendeeEvents;
    if !(d.proposedStart.Some? && d.proposedEnd.Some?) {
      return;
    }
    var ps := d.proposedStart.value;
    var pe := d.proposedEnd.value;
    if d.conflictStart.Some? && d.conflictEnd.Some? {
      updated := RescheduleConflicts(updated, ps, pe, d.conflictStart.value, d.conflictEnd.value);
    }
    updated := AddMeetingToAll(updated, AttendeeList(req), NewMeeting(req, ps, pe));
  }

  // ---------------------------------------------------------------------------
  // Properties of the whole function

  /** A decision without both proposed times changes nothing. */
  lemma NoProposalNoChange(s: Snapshot, d: Decision, req: Request)
    requires !HasProposal(d)
    ensures Apply(s, d, req) == s
  {
  }

  /** With a proposal, every attendee of the request (the sender included) ends up with
      a calendar holding the new meeting exactly once unless it already had copies, and
      no other email's calendar changes except through relocation. */
  lemma ApplyInserts(s: Snapshot, d: Decision, req: Request, email: string)
    requires HasProposal(d)
    ensures var ps := d.proposedStart.value;
      var pe := d.proposedEnd.value;
      var m := NewMeeting(req, ps, pe);
      var moved := if HasRelocation(d) then RelocateAll(s, ps, pe, d.conflictStart.value, d.conflictEnd.value) else s;
      var before := MeetingCount(Get(moved, email).GetOr([]), ps, pe, m.summary);
      var r := Apply(s, d, req);
      && (email == req.from || email in req.attendees ==>
            && Get(r, email).Some?
            && MeetingCount(Get(r, email).value, ps, pe, m.summary) == (if before == 0 then 1 else before))
      && (email != req.from && email !in req.attendees ==> Get(r, email) == Get(moved, email))
  {
    var ps := d.proposedStart.value;
    var pe := d.proposedEnd.value;
    var moved := if HasRelocation(d) then RelocateAll(s, ps, pe, d.conflictStart.value, d.conflictEnd.value) else s;
    InsertAllCounts(moved, AttendeeList(req), NewMeeting(req, ps, pe), email);
  }

  /** The result's emails are the old ones plus the sender and every listed attendee. */
  lemma ApplyEmails(s: Snapshot, d: Decision, req: Request)
    requires HasProposal(d)
    ensures Emails(Apply(s, d, req)) == Emails(s) + {req.from} + set e | e in req.attendees
  {
    var ps := d.proposedStart.value;
    var pe := d.proposedEnd.value;
    var moved := if HasRelocation(d) then RelocateAll(s, ps, pe, d.conflictStart.value, d.conflictEnd.value) else s;
    if HasRelocation(d) {
      RelocateAllEmails(s, ps, pe, d);
    }
    InsertAllEmails(moved, AttendeeList(req), NewMeeting(req, ps, pe));
  }

  lemma {:induction false} RelocateAllEmails(s: Snapshot, ps: Stamp, pe: Stamp, d: Decision)
    requires HasRelocation(d)
    ensures Emails(RelocateAll(s, ps, pe, d.conflictStart.value, d.conflictEnd.value)) == Emails(s)
    decreases |s|
  {
    if s != [] {
      var r := RelocateAll(s, ps, pe, d.conflictStart.value, d.conflictEnd.value);
      RelocateAllEmails(s[1..], ps, pe, d);
      assert r[1..] == RelocateAll(s[1..], ps, pe, d.conflictStart.value, d.conflictEnd.value);
    }
  }

  /** Without rescheduled times, applying the decision to its own result adds nothing. */
  lemma ApplyIdempotent(s: Snapshot, d: Decision, req: Request)
    requires !HasRelocation(d)
    ensures Apply(Apply(s, d, req), d, req) == Apply(s, d, req)
  {
    if HasProposal(d) {
      var m := NewMeeting(req, d.proposedStart.value, d.proposedEnd.value);
      InsertAllHolds(s, AttendeeList(req), m);
      InsertAllNoop(Apply(s, d, req), AttendeeList(req), m);
    }
  }
}
