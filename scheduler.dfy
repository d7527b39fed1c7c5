/** The tiered decision of `intelligent_meeting_scheduler` (propose_time.py): accept the
    proposed window when nobody has a conflicting event in it; otherwise place the meeting
    in the first free gap inside the window; otherwise, when the broad search finds no
    candidate, keep the proposal; and only otherwise ask the language-model oracle. */
module Scheduler {
  import opened Wrappers
  import opened Clock
  import opened Calendar
  import opened Conflicts
  import opened SlotSearch
  import opened CandidateSlots

  const FreeReason: string := "Scheduled at the start of the requested window as it was free."
  const NarrowReason: string := "Scheduled in the first available slot within the requested window, avoiding a conflict."
  const NoAlternativeReason: string := "Conflict exists but no alternative slots were found."

  /** What `schedule_with_llm` is shown: the request's subject, the proposal, the conflict
      records and the broad-search candidates. */
  datatype OracleQuery = OracleQuery(
    subject: Option<string>,
    proposal: Proposal,
    conflicts: seq<ConflictRecord>,
    freeSlots: seq<Span>)

  /** The scheduler's result dictionary; `conflicts` is present only when the oracle
      decided. */
  datatype Outcome = Outcome(decision: Decision, conflicts: Option<seq<ConflictRecord>>, events: Snapshot)

  /** A decision that places the proposed meeting at [start, end) and moves nothing. */
  function Place(start: Stamp, end: Stamp, reason: string): Decision {
    Decision(Some(start), Some(end), None, None, Some(reason))
  }

  /** The oracle is consulted exactly when the proposal conflicts, the window holds no
      free gap and the broad search finds candidates. */
  predicate ConsultsOracle(p: Proposal, s: Snapshot) {
    && SnapshotConflicts(s, p.start, p.end) != []
    && FirstFreeSlotSpec(p.start, p.end, p.duration, s).None?
    && BusyOf(s) != []
    && FreeSlotsSpec(p.duration, s) != []
  }

  /** A conflict with the proposed window means some non-protected event exists, so the
      broad search (which reads the earliest busy interval) can run. */
  lemma ConflictMeansBusy(s: Snapshot, ps: Stamp, pe: Stamp)
    requires SnapshotConflicts(s, ps, pe) != []
    ensures BusyOf(s) != []
  {
    NoConflictsIffFree(s, ps, pe);
    var i, j :| 0 <= i < |s| && 0 <= j < |s[i].events| && Conflicting(s[i].events[j], ps, pe);
    BusyNonEmptyIffSomeEvent(s);
  }

  /** The result of `intelligent_meeting_scheduler` once the proposal `p` and the
      calendars `s` are known. */
  function Schedule(req: Request, p: Proposal, s: Snapshot, oracle: OracleQuery -> Decision): Outcome {
    var conflicts := SnapshotConflicts(s, p.start, p.end);
    if conflicts == [] then
      Outcome(Place(p.start, p.end, FreeReason), None, s)
    else
      match FirstFreeSlotSpec(p.start, p.end, p.duration, s)
      case Some(slot) => Outcome(Place(slot.start, slot.end, NarrowReason), None, s)
      case None =>
        ConflictMeansBusy(s, p.start, p.end);
        var freeSlots := FreeSlotsSpec(p.duration, s);
        if freeSlots == [] then
          Outcome(Place(p.start, p.end, NoAlternativeReason), None, s)
        else
          Outcome(oracle(OracleQuery(req.subject, p, conflicts, freeSlots)), Some(conflicts), s)
  }

  /** `intelligent_meeting_scheduler(input_request)` after its first two steps: the
      proposal and the fetched calendars are its inputs. */
  method IntelligentMeetingScheduler(req: Request, p: Proposal, s: Snapshot, oracle: OracleQuery -> Decision)
    returns (out: Outcome)
    ensures out == Schedule(req, p, s, oracle)
  {
    var hasConflicts, conflictingMeetings := HasConflict(p.start, p.end, s);
    if !hasConflicts {
      return Outcome(Place(p.start, p.end, FreeReason), None, s);
    }
    var first := FirstFreeSlot(p.start, p.end, p.duration, s);
    if first.Some? {
      return Outcome(Place(first.value.start, first.value.end, NarrowReason), None, s);
    }
    ConflictMeansBusy(s, p.start, p.end);
    var freeSlots := FindFreeSlots(p.duration, s);
    if |freeSlots| == 0 {
      return Outcome(Place(p.start, p.end, NoAlternativeReason), None, s);
    }
    var decision := oracle(OracleQuery(req.subject, p, conflictingMeetings, freeSlots));
    out := Outcome(decision, Some(conflictingMeetings), s);
  }

  /** The calendars are handed back unchanged, and the conflict list is reported exactly
      when the oracle decided. */
  lemma ScheduleKeepsEvents(req: Request, p: Proposal, s: Snapshot, oracle: OracleQuery -> Decision)
    ensures Schedule(req, p, s, oracle).events == s
    ensures Schedule(req, p, s, oracle).conflicts.Some? <==> ConsultsOracle(p, s)
  {
    if SnapshotConflicts(s, p.start, p.end) != [] {
      ConflictMeansBusy(s, p.start, p.end);
    }
  }

  /** The oracle decides only in the last tier: outside it, any two oracles give the same
      result; inside it, the oracle's answer is the decision and it was shown every
      conflict record and the broad-search candidates. */
  lemma {:induction false} OracleOnlyInLastTier(req: Request, p: Proposal, s: Snapshot, o1: OracleQuery -> Decision, o2: OracleQuery -> Decision)
    ensures !ConsultsOracle(p, s) ==> Schedule(req, p, s, o1) == Schedule(req, p, s, o2)
    ensures ConsultsOracle(p, s) ==>
      Schedule(req, p, s, o1) == Outcome(
        o1(OracleQuery(req.subject, p, SnapshotConflicts(s, p.start, p.end), FreeSlotsSpec(p.duration, s))),
        Some(SnapshotConflicts(s, p.start, p.end)), s)
  {
    if SnapshotConflicts(s, p.start, p.end) != [] {
      ConflictMeansBusy(s, p.start, p.end);
    }
  }

  /** Every decision the scheduler makes on its own places the meeting without moving
      anything; it keeps the requested window exactly when nobody has a conflicting
      event there or no alternative exists. */
  lemma {:induction false} LocalDecisions(req: Request, p: Proposal, s: Snapshot, oracle: OracleQuery -> Decision)
    requires !ConsultsOracle(p, s)
    ensures var d := Schedule(req, p, s, oracle).decision;
      && d.conflictStart.None? && d.conflictEnd.None?
      && d.proposedStart.Some? && d.proposedEnd.Some? && d.reason.Some?
      && (d.reason.value == FreeReason <==> SlotFree(s, p.start, p.end))
      && (d.reason.value == FreeReason ==> d.proposedStart.value == p.start && d.proposedEnd.value == p.end)
      && (d.reason.value == NoAlternativeReason ==> d.proposedStart.value == p.start && d.proposedEnd.value == p.end)
  {
    NoConflictsIffFree(s, p.start, p.end);
    if SnapshotConflicts(s, p.start, p.end) != [] {
      ConflictMeansBusy(s, p.start, p.end);
    }
  }

  /** When the events are well formed, a meeting the scheduler places on its own, other
      than when it gives up, overlaps nobody's non-protected events: the requested window
      when free, else a slot of the requested length inside it. */
  lemma {:induction false} PlacementIsFree(req: Request, p: Proposal, s: Snapshot, oracle: OracleQuery -> Decision)
    requires WellFormed(s)
    ensures var d := Schedule(req, p, s, oracle).decision;
      !ConsultsOracle(p, s) && d.reason == Some(NarrowReason) ==>
        && d.proposedStart.Some? && d.proposedEnd.Some?
        && p.start <= d.proposedStart.value
        && d.proposedEnd.value == d.proposedStart.value + p.duration * SecondsPerMinute
        && d.proposedEnd.value <= p.end
        && SlotFree(s, d.proposedStart.value, d.proposedEnd.value)
    ensures var d := Schedule(req, p, s, oracle).decision;
      !ConsultsOracle(p, s) && d.reason == Some(FreeReason) ==>
        d.proposedStart == Some(p.start) && d.proposedEnd == Some(p.end) && SlotFree(s, p.start, p.end)
  {
    NoConflictsIffFree(s, p.start, p.end);
    FirstFreeSlotCorrect(p.start, p.end, p.duration, s);
    if SnapshotConflicts(s, p.start, p.end) != [] {
      ConflictMeansBusy(s, p.start, p.end);
    }
  }

  /** When the scheduler keeps a conflicting proposal because no alternative exists, the
      window really held no free slot of the requested (positive) length. */
  lemma {:induction false} GivingUpIsJustified(req: Request, p: Proposal, s: Snapshot, oracle: OracleQuery -> Decision)
    requires WellFormed(s) && p.duration > 0
    requires Schedule(req, p, s, oracle).decision.reason == Some(NoAlternativeReason)
    requires !ConsultsOracle(p, s)
    ensures !SlotFree(s, p.start, p.end)
    ensures forall t | p.start <= t && t + p.duration * SecondsPerMinute <= p.end ::
      !FreeAt(s, t, p.duration * SecondsPerMinute)
  {
    NoConflictsIffFree(s, p.start, p.end);
    FirstFreeSlotCorrect(p.start, p.end, p.duration, s);
    if SnapshotConflicts(s, p.start, p.end) != [] {
      ConflictMeansBusy(s, p.start, p.end);
    }
  }
}
