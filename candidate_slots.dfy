/** The broad candidate search (`find_free_slots` in propose_time.py): starting at 09:00
    on the day of the earliest busy interval, walk a two-day horizon in 30-minute steps,
    jumping past the intervals a candidate overlaps, and keep the first five candidates
    that overlap nothing and end before the next busy interval starts. */
module CandidateSlots {
  import opened Wrappers
  import opened Clock
  import opened Calendar
  import opened Sorting
  import opened SlotSearch

  const Stride: int := 30 * SecondsPerMinute
  const HorizonDays: int := 2
  const MaxCandidates: int := 5
  const SearchStartHour: int := 9

  /** `conflicts`: does the slot [t, t + len) overlap some interval? */
  function AnyHit(busy: seq<Span>, t: Stamp, len: int): (r: bool)
    ensures r <==> HitsSome(t, len, busy)
    decreases |busy|
  {
    if busy == [] then false
    else
      var n := |busy| - 1;
      var r := AnyHit(busy[..n], t, len) || Hits(t, len, busy[n]);
      assert HitsSome(t, len, busy[..n]) ==> HitsSome(t, len, busy) by {
        if HitsSome(t, len, busy[..n]) {
          var k :| 0 <= k < n && Hits(t, len, busy[..n][k]);
          assert Hits(t, len, busy[k]);
        }
      }
      assert HitsSome(t, len, busy) ==> r by {
        if HitsSome(t, len, busy) {
          var k :| 0 <= k < |busy| && Hits(t, len, busy[k]);
          if k < n { assert Hits(t, len, busy[..n][k]); }
        }
      }
      r
  }

  /** `next_event_start`: the earliest end, after t, of an interval the slot at t
      overlaps; the horizon when there is none. It always lies strictly after t. */
  function NextEventStart(busy: seq<Span>, t: Stamp, len: int, horizon: Stamp): (r: Stamp)
    ensures r <= horizon
    ensures t < horizon ==> t < r
    decreases |busy|
  {
    if busy == [] then horizon
    else
      var n := |busy| - 1;
      var r := NextEventStart(busy[..n], t, len, horizon);
      if Hits(t, len, busy[n]) && busy[n].end > t then Min(r, busy[n].end) else r
  }

  /** `next_conflict`: the earliest start at or after t of any interval, or the horizon. */
  function NextConflict(busy: seq<Span>, t: Stamp, horizon: Stamp): (r: Stamp)
    ensures r <= horizon
    ensures forall k | 0 <= k < |busy| && busy[k].start >= t :: r <= busy[k].start
    decreases |busy|
  {
    if busy == [] then horizon
    else
      var n := |busy| - 1;
      var r := NextConflict(busy[..n], t, horizon);
      assert forall k | 0 <= k < n :: busy[..n][k] == busy[k];
      if busy[n].start >= t then Min(r, busy[n].start) else r
  }

  /** The candidates the walk from `t` accepts before reaching the horizon. */
  function Candidates(busy: seq<Span>, t: Stamp, horizon: Stamp, len: int): seq<Span>
    decreases horizon - t
  {
    if t >= horizon then []
    else
      var conflicts := AnyHit(busy, t, len);
      var here := if !conflicts && NextConflict(busy, t, horizon) >= t + len then [Span(t, t + len)] else [];
      var next := if conflicts then NextEventStart(busy, t, len, horizon) else t + Stride;
      here + Candidates(busy, next, horizon, len)
  }

  /** `all_events[0]["start"].replace(hour=9, minute=0, second=0)` on the sorted list. */
  function SearchStart(sorted: seq<Span>): Stamp
    requires sorted != []
  {
    Replace(sorted[0].start, SearchStartHour, 0, 0).value
  }

  function Take(c: seq<Span>, n: nat): (r: seq<Span>)
    ensures |r| == if |c| <= n then |c| else n
    ensures r == c[..|r|]
  {
    if |c| <= n then c else c[..n]
  }

  /** The list `find_free_slots(duration, attendee_events)` returns. */
  function FreeSlotsSpec(duration: int, s: Snapshot): seq<Span>
    requires BusyOf(s) != []
  {
    var sorted := SortBy(BusyOf(s), StartOf);
    SortByHeadIsLeast(BusyOf(s), StartOf);
    var start := SearchStart(sorted);
    Take(Candidates(sorted, start, start + HorizonDays * SecondsPerDay, duration * SecondsPerMinute), MaxCandidates)
  }

  /** One step of the walk from t, before the horizon. */
  lemma CandidatesStep(busy: seq<Span>, t: Stamp, horizon: Stamp, len: int)
    requires t < horizon
    ensures Candidates(busy, t, horizon, len)
      == (if !AnyHit(busy, t, len) && NextConflict(busy, t, horizon) >= t + len then [Span(t, t + len)] else [])
         + Candidates(busy, if AnyHit(busy, t, len) then NextEventStart(busy, t, len, horizon) else t + Stride, horizon, len)
  {
  }

  /** An accepted candidate: the requested length, inside [t, horizon), overlapping no
      interval, and ending no later than any interval that starts at or after it. */
  predicate Acceptable(busy: seq<Span>, sp: Span, t: Stamp, horizon: Stamp, len: int) {
    && sp.end == sp.start + len
    && t <= sp.start < horizon
    && sp.end <= horizon
    && !HitsSome(sp.start, len, busy)
    && (forall k | 0 <= k < |busy| && busy[k].start >= sp.start :: sp.end <= busy[k].start)
  }

  predicate StrictlyIncreasing(c: seq<Span>) {
    forall i, j | 0 <= i < j < |c| :: c[i].start < c[j].start
  }

  lemma {:induction false} CandidatesProps(busy: seq<Span>, t: Stamp, horizon: Stamp, len: int)
    ensures forall k | 0 <= k < |Candidates(busy, t, horizon, len)| ::
      Acceptable(busy, Candidates(busy, t, horizon, len)[k], t, horizon, len)
    ensures StrictlyIncreasing(Candidates(busy, t, horizon, len))
    decreases horizon - t
  {
    if t < horizon {
      var conflicts := AnyHit(busy, t, len);
      var next := if conflicts then NextEventStart(busy, t, len, horizon) else t + Stride;
      CandidatesProps(busy, next, horizon, len);
      var rest := Candidates(busy, next, horizon, len);
      var c := Candidates(busy, t, horizon, len);
      forall k | 0 <= k < |rest| ensures Acceptable(busy, rest[k], t, horizon, len) {
        assert Acceptable(busy, rest[k], next, horizon, len);
      }
      if !conflicts && NextConflict(busy, t, horizon) >= t + len {
        assert c == [Span(t, t + len)] + rest;
        assert Acceptable(busy, c[0], t, horizon, len);
        forall k | 1 <= k < |c| ensures c[k] == rest[k - 1] && c[0].start < c[k].start {
          assert Acceptable(busy, rest[k - 1], next, horizon, len);
        }
      } else {
        assert c == rest;
      }
    }
  }

  /** A slot that overlaps none of the sorted busy intervals is free for everyone, and
      ends before every busy interval that starts at or after it when it does so for the
      sorted ones. */
  lemma SortedMissIsFree(s: Snapshot, sp: Span, len: int)
    requires !HitsSome(sp.start, len, SortBy(BusyOf(s), StartOf))
    requires forall k | 0 <= k < |SortBy(BusyOf(s), StartOf)| && SortBy(BusyOf(s), StartOf)[k].start >= sp.start ::
      sp.end <= SortBy(BusyOf(s), StartOf)[k].start
    ensures FreeAt(s, sp.start, len)
    ensures forall iv | iv in BusyOf(s) && iv.start >= sp.start :: sp.end <= iv.start
  {
    var busy := BusyOf(s);
    var sorted := SortBy(busy, StartOf);
    SortByProps(busy, StartOf);
    FreeIffNoBusyHit(s, sp.start, len);
    forall iv | iv in busy ensures !Hits(sp.start, len, iv) && (iv.start >= sp.start ==> sp.end <= iv.start) {
      assert iv in multiset(sorted);
      var q :| 0 <= q < |sorted| && sorted[q] == iv;
    }
  }

  /** The broad search returns the walk's candidates in order: the first five, or all
      of them when there are fewer than five. */
  lemma FreeSlotsFirstFive(duration: int, s: Snapshot)
    requires BusyOf(s) != []
    ensures var sorted := SortBy(BusyOf(s), StartOf);
      var start := SearchStart(sorted);
      var c := Candidates(sorted, start, start + HorizonDays * SecondsPerDay, duration * SecondsPerMinute);
      var r := FreeSlotsSpec(duration, s);
      && r == c[..|r|]
      && (|r| < MaxCandidates <==> r == c && |c| < MaxCandidates)
  {
  }

  /** The broad search returns at most five candidates, in strictly increasing start
      order, each of the requested length, starting in [09:00 of the earliest busy
      day, two days later) and ending by then, overlapping nobody's non-protected
      events, and ending before any busy interval that starts at or after it. */
  lemma FreeSlotsCorrect(duration: int, s: Snapshot)
    requires BusyOf(s) != []
    ensures var r := FreeSlotsSpec(duration, s);
      var start := SearchStart(SortBy(BusyOf(s), StartOf));
      var len := duration * SecondsPerMinute;
      && |r| <= MaxCandidates
      && StrictlyIncreasing(r)
      && (forall k | 0 <= k < |r| ::
            && r[k].end == r[k].start + len
            && start <= r[k].start < start + HorizonDays * SecondsPerDay
            && r[k].end <= start + HorizonDays * SecondsPerDay
            && FreeAt(s, r[k].start, len)
            && (forall iv | iv in BusyOf(s) && iv.start >= r[k].start :: r[k].end <= iv.start))
  {
    var busy := BusyOf(s);
    var sorted := SortBy(busy, StartOf);
    SortByHeadIsLeast(busy, StartOf);
    var start := SearchStart(sorted);
    var horizon := start + HorizonDays * SecondsPerDay;
    var len := duration * SecondsPerMinute;
    var c := Candidates(sorted, start, horizon, len);
    CandidatesProps(sorted, start, horizon, len);
    var r := FreeSlotsSpec(duration, s);
    assert r == c[..|r|];
    forall k | 0 <= k < |r|
      ensures FreeAt(s, r[k].start, len)
      ensures forall iv | iv in busy && iv.start >= r[k].start :: r[k].end <= iv.start
    {
      assert Acceptable(sorted, c[k], start, horizon, len);
      SortedMissIsFree(s, r[k], len);
    }
  }

  /** The walk starts at 09:00:00 on the day of the earliest busy interval. */
  lemma SearchStartIsNineOnEarliestDay(s: Snapshot)
    requires BusyOf(s) != []
    ensures var start := SearchStart(SortBy(BusyOf(s), StartOf));
      && TimeOfDay(start) == SearchStartHour * SecondsPerHour
      && (exists iv | iv in BusyOf(s) :: Day(iv.start) == Day(start))
      && (forall iv | iv in BusyOf(s) :: Day(start) <= Day(iv.start))
  {
    var busy := BusyOf(s);
    SortByHeadIsLeast(busy, StartOf);
    var first := SortBy(busy, StartOf)[0];
    forall iv | iv in busy ensures Day(first.start) <= Day(iv.start) {
      assert StartOf(first) <= StartOf(iv);
      DayMonotone(first.start, iv.start);
    }
  }

  lemma DayMonotone(a: Stamp, b: Stamp)
    requires a <= b
    ensures Day(a) <= Day(b)
  {
  }

  /** The first inner loop of the walk: does the candidate at t overlap an interval, and
      where does the earliest overlapped interval end? */
  method ConflictsAt(allEvents: seq<Span>, currentTime: Stamp, len: int, endTime: Stamp)
    returns (conflicts: bool, nextEventStart: Stamp)
    ensures conflicts == AnyHit(allEvents, currentTime, len)
    ensures nextEventStart == NextEventStart(allEvents, currentTime, len, endTime)
  {
    conflicts := false;
    nextEventStart := endTime;
    for k := 0 to |allEvents|
      invariant conflicts == AnyHit(allEvents[..k], currentTime, len)
      invariant nextEventStart == NextEventStart(allEvents[..k], currentTime, len, endTime)
    {
      var event := allEvents[k];
      assert allEvents[..k + 1][..k] == allEvents[..k];
      if currentTime < event.end && currentTime + len > event.start {
        conflicts := true;
        if event.end > currentTime {
          nextEventStart := Min(nextEventStart, event.end);
        }
      }
    }
    assert allEvents[..|allEvents|] == allEvents;
  }

  /** The second inner loop: the earliest start at or after t, or the horizon. */
  method NextConflictAt(allEvents: seq<Span>, currentTime: Stamp, endTime: Stamp) returns (nextConflict: Stamp)
    ensures nextConflict == NextConflict(allEvents, currentTime, endTime)
  {
    nextConflict := endTime;
    for k := 0 to |allEvents|
      invariant nextConflict == NextConflict(allEvents[..k], currentTime, endTime)
    {
      var event := allEvents[k];
      assert allEvents[..k + 1][..k] == allEvents[..k];
      if event.start >= currentTime {
        nextConflict := Min(nextConflict, event.start);
      }
    }
    assert allEvents[..|allEvents|] == allEvents;
  }

  /** One turn of the walk's `while` loop at `currentTime`: the candidate it accepts, if
      any, and where the walk goes next. */
  method WalkStep(allEvents: seq<Span>, currentTime: Stamp, endTime: Stamp, len: int)
    returns (here: seq<Span>, next: Stamp)
    requires currentTime < endTime
    ensures currentTime < next
    ensures here + Candidates(allEvents, next, endTime, len) == Candidates(allEvents, currentTime, endTime, len)
  {
    var conflicts, nextEventStart := ConflictsAt(allEvents, currentTime, len, endTime);
    here := [];
    if !conflicts {
      var nextConflict := NextConflictAt(allEvents, currentTime, endTime);
      if nextConflict >= currentTime + len {
        here := [Span(currentTime, currentTime + len)];
      }
    }
    if conflicts {
      next := nextEventStart;
    } else {
      next := currentTime + Stride;
    }
    CandidatesStep(allEvents, currentTime, endTime, len);
  }

  /** `find_free_slots(duration_minutes, attendee_events)`; the source indexes the first
      busy interval, so it needs at least one non-protected event. What the result
      satisfies is FreeSlotsCorrect. */
  method FindFreeSlots(duration: int, s: Snapshot) returns (slots: seq<Span>)
    requires BusyOf(s) != []
    ensures slots == FreeSlotsSpec(duration, s)
  {
    var busy := CollectBusy(s);
    var allEvents := SortBy(busy, StartOf);
    assert allEvents != [] by { SortByProps(busy, StartOf); }
    var len := duration * SecondsPerMinute;
    var currentTime := Replace(allEvents[0].start, SearchStartHour, 0, 0).value;
    var endTime := currentTime + HorizonDays * SecondsPerDay;
    ghost var start := currentTime;
    var freeSlots: seq<Span> := [];
    while currentTime < endTime
      invariant freeSlots + Candidates(allEvents, currentTime, endTime, len) == Candidates(allEvents, start, endTime, len)
      decreases endTime - currentTime
    {
      var here, next := WalkStep(allEvents, currentTime, endTime, len);
      assert freeSlots + here + Candidates(allEvents, next, endTime, len)
          == freeSlots + (here + Candidates(allEvents, next, endTime, len));
      freeSlots := freeSlots + here;
      currentTime := next;
    }
    slots := Take(freeSlots, MaxCandidates);
  }
}
