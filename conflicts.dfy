/** Conflict detection (`has_conflict` in propose_time.py): every non-protected event of
    every attendee that overlaps the proposed window yields one conflict record. */
module Conflicts {
  import opened Clock
  import opened Calendar

  datatype ConflictRecord = ConflictRecord(
    attendee: string,
    meeting: Event,
    start: Stamp,
    end: Stamp,
    summary: string)

  /** Is `e` a conflict for the window [ps, pe)? Protected events never are. */
  predicate Conflicting(e: Event, ps: Stamp, pe: Stamp) {
    !Protected(e) && Overlaps(ps, pe, e.start, e.end)
  }

  function RecordOf(email: string, e: Event): ConflictRecord {
    ConflictRecord(email, e, e.start, e.end, e.summary)
  }

  /** The records one attendee's events contribute, in event order. */
  function EventConflicts(email: string, events: seq<Event>, ps: Stamp, pe: Stamp): seq<ConflictRecord>
    decreases |events|
  {
    if events == [] then []
    else
      var e := events[|events| - 1];
      EventConflicts(email, events[..|events| - 1], ps, pe)
        + (if Conflicting(e, ps, pe) then [RecordOf(email, e)] else [])
  }

  /** The records of the whole snapshot, attendee by attendee in dictionary order. */
  function SnapshotConflicts(s: Snapshot, ps: Stamp, pe: Stamp): seq<ConflictRecord>
    decreases |s|
  {
    if s == [] then []
    else
      var last := s[|s| - 1];
      SnapshotConflicts(s[..|s| - 1], ps, pe) + EventConflicts(last.email, last.events, ps, pe)
  }

  /** No attendee has a non-protected event overlapping [ps, pe). */
  predicate SlotFree(s: Snapshot, ps: Stamp, pe: Stamp) {
    forall i, j | 0 <= i < |s| && 0 <= j < |s[i].events| :: !Conflicting(s[i].events[j], ps, pe)
  }

  /** `has_conflict(proposed_start, proposed_end, attendee_events)`. */
  method HasConflict(ps: Stamp, pe: Stamp, s: Snapshot) returns (found: bool, conflicts: seq<ConflictRecord>)
    ensures conflicts == SnapshotConflicts(s, ps, pe)
    ensures found <==> |conflicts| > 0
    ensures found <==> !SlotFree(s, ps, pe)
  {
    conflicts := [];
    for i := 0 to |s|
      invariant conflicts == SnapshotConflicts(s[..i], ps, pe)
    {
      var email := s[i].email;
      var events := s[i].events;
      ghost var before := conflicts;
      for j := 0 to |events|
        invariant conflicts == before + EventConflicts(email, events[..j], ps, pe)
      {
        var e := events[j];
        if !Protected(e) && ps < e.end && pe > e.start {
          conflicts := conflicts + [RecordOf(email, e)];
        }
        assert events[..j + 1][..j] == events[..j];
      }
      assert events[..|events|] == events;
      assert s[..i + 1][..i] == s[..i];
    }
    assert s[..|s|] == s;
    found := |conflicts| > 0;
    NoConflictsIffFree(s, ps, pe);
  }

  /** A record is reported iff it is built from a conflicting event of that attendee. */
  lemma {:induction false} EventConflictsMembership(email: string, events: seq<Event>, ps: Stamp, pe: Stamp, r: ConflictRecord)
    ensures r in EventConflicts(email, events, ps, pe)
        <==> exists j | 0 <= j < |events| :: Conflicting(events[j], ps, pe) && r == RecordOf(email, events[j])
    decreases |events|
  {
    if events != [] {
      var n := |events| - 1;
      EventConflictsMembership(email, events[..n], ps, pe, r);
      assert forall j | 0 <= j < n :: events[..n][j] == events[j];
    }
  }

  /** One record per conflicting event: an event occurring k times yields k records. */
  lemma {:induction false} EventConflictsMultiplicity(email: string, events: seq<Event>, ps: Stamp, pe: Stamp, e: Event)
    ensures multiset(EventConflicts(email, events, ps, pe))[RecordOf(email, e)]
         == if Conflicting(e, ps, pe) then multiset(events)[e] else 0
    decreases |events|
  {
    if events != [] {
      var n := |events| - 1;
      EventConflictsMultiplicity(email, events[..n], ps, pe, e);
      assert events == events[..n] + [events[n]];
    }
  }

  /** Every record carries an attendee's email and a conflicting event's own times and
      summary, and every conflicting event of every attendee is reported. */
  lemma {:induction false} SnapshotConflictsMembership(s: Snapshot, ps: Stamp, pe: Stamp, r: ConflictRecord)
    ensures r in SnapshotConflicts(s, ps, pe)
        <==> exists i, j | 0 <= i < |s| && 0 <= j < |s[i].events| ::
               Conflicting(s[i].events[j], ps, pe) && r == RecordOf(s[i].email, s[i].events[j])
    decreases |s|
  {
    if s != [] {
      var n := |s| - 1;
      SnapshotConflictsMembership(s[..n], ps, pe, r);
      EventConflictsMembership(s[n].email, s[n].events, ps, pe, r);
      assert forall i | 0 <= i < n :: s[..n][i] == s[i];
    }
  }

  /** Reported records are exactly the conflicting events, so protected events and
      events merely touching the window never appear. */
  lemma RecordsAreConflicts(s: Snapshot, ps: Stamp, pe: Stamp)
    ensures forall r | r in SnapshotConflicts(s, ps, pe) ::
      !Protected(r.meeting) && r.start == r.meeting.start && r.end == r.meeting.end
      && r.summary == r.meeting.summary && ps < r.end && r.start < pe
      && r.attendee in Emails(s)
  {
    forall r | r in SnapshotConflicts(s, ps, pe)
      ensures !Protected(r.meeting) && r.start == r.meeting.start && r.end == r.meeting.end
      ensures r.summary == r.meeting.summary && ps < r.end && r.start < pe
      ensures r.attendee in Emails(s)
    {
      SnapshotConflictsMembership(s, ps, pe, r);
      var i, j :| 0 <= i < |s| && 0 <= j < |s[i].events|
        && Conflicting(s[i].events[j], ps, pe) && r == RecordOf(s[i].email, s[i].events[j]);
      EmailAt(s, i);
    }
  }

  lemma {:induction false} EmailAt(s: Snapshot, i: int)
    requires 0 <= i < |s|
    ensures s[i].email in Emails(s)
    decreases i
  {
    if i > 0 {
      EmailAt(s[1..], i - 1);
    }
  }

  /** The list of conflicts is empty exactly when the window is free for everyone. */
  lemma NoConflictsIffFree(s: Snapshot, ps: Stamp, pe: Stamp)
    ensures SnapshotConflicts(s, ps, pe) == [] <==> SlotFree(s, ps, pe)
  {
    if !SlotFree(s, ps, pe) {
      var i, j :| 0 <= i < |s| && 0 <= j < |s[i].events| && Conflicting(s[i].events[j], ps, pe);
      SnapshotConflictsMembership(s, ps, pe, RecordOf(s[i].email, s[i].events[j]));
    }
    if SnapshotConflicts(s, ps, pe) != [] {
      SnapshotConflictsMembership(s, ps, pe, SnapshotConflicts(s, ps, pe)[0]);
    }
  }

  /** The overlap test is symmetric, and ranges that only touch never overlap. */
  lemma OverlapFacts(a: Stamp, b: Stamp, c: Stamp, d: Stamp)
    ensures Overlaps(a, b, c, d) <==> Overlaps(c, d, a, b)
    ensures b == c ==> !Overlaps(a, b, c, d)
    ensures d == a ==> !Overlaps(a, b, c, d)
  {
  }
}
