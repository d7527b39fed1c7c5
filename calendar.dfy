/** The records the scheduler passes between its stages: calendar events, the
    per-attendee calendar snapshot, the meeting request, the proposed window and the
    scheduling decision. */
module Calendar {
  import opened Wrappers
  import opened Clock

  /** The reserved summary of a protected event: it is never a conflict, never busy
      time, never moved, and it is filtered out of the response. */
  const OffHours: string := "Off Hours"

  datatype Event = Event(
    start: Stamp,
    end: Stamp,
    summary: string,
    numAttendees: int,
    attendees: seq<string>)

  predicate Protected(e: Event) {
    e.summary == OffHours
  }

  /** Two half-open ranges overlap iff `start1 < end2 and start2 < end1`. */
  predicate Overlaps(start1: Stamp, end1: Stamp, start2: Stamp, end2: Stamp) {
    start1 < end2 && start2 < end1
  }

  /** One attendee's calendar, keyed by email. */
  datatype Entry = Entry(email: string, events: seq<Event>)

  /** A dictionary from email to events, in insertion order. */
  type Snapshot = seq<Entry>

  predicate DistinctEmails(s: Snapshot) {
    forall i, j | 0 <= i < j < |s| :: s[i].email != s[j].email
  }

  /** The keys in dictionary order. */
  function Keys(s: Snapshot): (r: seq<string>)
    ensures |r| == |s|
    ensures forall i | 0 <= i < |s| :: r[i] == s[i].email
  {
    seq(|s|, i requires 0 <= i < |s| => s[i].email)
  }

  function Emails(s: Snapshot): (r: set<string>)
    decreases |s|
  {
    if s == [] then {} else {s[0].email} + Emails(s[1..])
  }

  /** `d.get(email)`. */
  function Get(s: Snapshot, email: string): (r: Option<seq<Event>>)
    ensures r.Some? <==> email in Emails(s)
    decreases |s|
  {
    if s == [] then None
    else if s[0].email == email then Some(s[0].events)
    else Get(s[1..], email)
  }

  /** `d[email] = events`: an existing key keeps its position, a new key goes last. */
  function Put(s: Snapshot, email: string, events: seq<Event>): (r: Snapshot)
    ensures Get(r, email) == Some(events)
    ensures forall other | other != email :: Get(r, other) == Get(s, other)
    ensures Emails(r) == Emails(s) + {email}
    ensures email in Emails(s) ==> Keys(r) == Keys(s)
    ensures email !in Emails(s) ==> r == s + [Entry(email, events)]
    decreases |s|
  {
    if s == [] then [Entry(email, events)]
    else if s[0].email == email then
      assert ([Entry(email, events)] + s[1..])[1..] == s[1..];
      [Entry(email, events)] + s[1..]
    else
      var rest := Put(s[1..], email, events);
      assert ([s[0]] + rest)[1..] == rest;
      [s[0]] + rest
  }

  /** The meeting request fields the core reads. `subject` is None when the request has
      no "Subject" key. */
  datatype Request = Request(from: string, attendees: seq<string>, subject: Option<string>)

  /** The listed attendee emails, with the sender prepended unless already listed. */
  function AttendeeList(r: Request): (emails: seq<string>)
    ensures r.from in emails
    ensures forall e :: e in emails <==> e == r.from || e in r.attendees
    ensures |emails| == if r.from in r.attendees then |r.attendees| else |r.attendees| + 1
    ensures emails[|emails| - |r.attendees|..] == r.attendees
  {
    if r.from in r.attendees then r.attendees else [r.from] + r.attendees
  }

  /** `input_request.get("Subject", "Meeting")`. */
  function MeetingSubject(r: Request): string {
    r.subject.GetOr("Meeting")
  }

  /** The proposed window produced by the time extractor; `duration` is in minutes. */
  datatype Proposal = Proposal(start: Stamp, end: Stamp, duration: int)

  /** A scheduling decision; a field is None when the decision dictionary lacks the key
      or holds an empty value. */
  datatype Decision = Decision(
    proposedStart: Option<Stamp>,
    proposedEnd: Option<Stamp>,
    conflictStart: Option<Stamp>,
    conflictEnd: Option<Stamp>,
    reason: Option<string>)

  /** A half-open time range: a busy interval or a candidate placement of a meeting. */
  datatype Span = Span(start: Stamp, end: Stamp)
}
