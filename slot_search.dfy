/** The narrow first-fit search (`find_first_free_slot_in_window` in propose_time.py):
    gather every non-protected event as a busy interval, sort the intervals by start,
    merge the overlapping ones, and take the first gap inside the window that is long
    enough. */
module SlotSearch {
  import opened Wrappers
  import opened Clock
  import opened Calendar
  import opened Conflicts
  import opened Sorting

  function Max(a: int, b: int): int { if a >= b then a else b }
  function Min(a: int, b: int): int { if a <= b then a else b }

  function StartOf(iv: Span): int { iv.start }

  /** Every event ends no earlier than it starts. */
  predicate WellFormed(s: Snapshot) {
    forall i, j | 0 <= i < |s| && 0 <= j < |s[i].events| :: s[i].events[j].start <= s[i].events[j].end
  }

  /** The slot [t, t + len) overlaps the interval `iv`. */
  predicate Hits(t: Stamp, len: int, iv: Span) {
    Overlaps(t, t + len, iv.start, iv.end)
  }

  predicate HitsSome(t: Stamp, len: int, ivs: seq<Span>) {
    exists k | 0 <= k < |ivs| :: Hits(t, len, ivs[k])
  }

  /** Nobody has a non-protected event overlapping [t, t + len). */
  predicate FreeAt(s: Snapshot, t: Stamp, len: int) {
    SlotFree(s, t, t + len)
  }

  // ---------------------------------------------------------------------------
  // Busy intervals

  function EventsBusy(events: seq<Event>): seq<Span>
    decreases |events|
  {
    if events == [] then []
    else
      var e := events[|events| - 1];
      EventsBusy(events[..|events| - 1]) + (if Protected(e) then [] else [Span(e.start, e.end)])
  }

  /** The non-protected events of all attendees as intervals, in dictionary order. */
  function BusyOf(s: Snapshot): seq<Span>
    decreases |s|
  {
    if s == [] then [] else BusyOf(s[..|s| - 1]) + EventsBusy(s[|s| - 1].events)
  }

  /** The collecting loop that opens both searches of propose_time.py. */
  method CollectBusy(s: Snapshot) returns (busy: seq<Span>)
    ensures busy == BusyOf(s)
  {
    busy := [];
    for i := 0 to |s|
      invariant busy == BusyOf(s[..i])
    {
      var events := s[i].events;
      ghost var before := busy;
      for j := 0 to |events|
        invariant busy == before + EventsBusy(events[..j])
      {
        var e := events[j];
        if e.summary != OffHours {
          busy := busy + [Span(e.start, e.end)];
        }
        assert events[..j + 1][..j] == events[..j];
      }
      assert events[..|events|] == events;
      assert s[..i + 1][..i] == s[..i];
    }
    assert s[..|s|] == s;
  }

  lemma {:induction false} EventsBusyMembership(events: seq<Event>, iv: Span)
    ensures iv in EventsBusy(events)
        <==> exists j | 0 <= j < |events| :: !Protected(events[j]) && iv == Span(events[j].start, events[j].end)
  {
    if iv in EventsBusy(events) {
      var j := EventsBusySource(events, iv);
    }
    if exists j | 0 <= j < |events| :: !Protected(events[j]) && iv == Span(events[j].start, events[j].end) {
      var j :| 0 <= j < |events| && !Protected(events[j]) && iv == Span(events[j].start, events[j].end);
      EventsBusyContains(events, j);
    }
  }

  /** A busy interval of one calendar comes from one of its non-protected events. */
  lemma {:induction false} EventsBusySource(events: seq<Event>, iv: Span) returns (j: int)
    requires iv in EventsBusy(events)
    ensures 0 <= j < |events| && !Protected(events[j]) && iv == Span(events[j].start, events[j].end)
    decreases |events|
  {
    var n := |events| - 1;
    var init := events[..n];
    var e := events[n];
    assert EventsBusy(events) == EventsBusy(init) + (if Protected(e) then [] else [Span(e.start, e.end)]);
    if iv in EventsBusy(init) {
      j := EventsBusySource(init, iv);
      assert init[j] == events[j];
    } else {
      j := n;
    }
  }

  /** Every non-protected event of a calendar is busy time. */
  lemma {:induction false} EventsBusyContains(events: seq<Event>, j: int)
    requires 0 <= j < |events| && !Protected(events[j])
    ensures Span(events[j].start, events[j].end) in EventsBusy(events)
    decreases |events|
  {
    var n := |events| - 1;
    var init := events[..n];
    var e := events[n];
    assert EventsBusy(events) == EventsBusy(init) + (if Protected(e) then [] else [Span(e.start, e.end)]);
    if j < n {
      assert init[j] == events[j];
      EventsBusyContains(init, j);
    }
  }

  /** An interval is busy iff it is the range of a non-protected event of some attendee. */
  lemma {:induction false} BusyMembership(s: Snapshot, iv: Span)
    ensures iv in BusyOf(s)
        <==> exists i, j | 0 <= i < |s| && 0 <= j < |s[i].events| ::
               !Protected(s[i].events[j]) && iv == Span(s[i].events[j].start, s[i].events[j].end)
  {
    if iv in BusyOf(s) {
      var i, j := BusySource(s, iv);
    }
    if exists i, j | 0 <= i < |s| && 0 <= j < |s[i].events| ::
         !Protected(s[i].events[j]) && iv == Span(s[i].events[j].start, s[i].events[j].end) {
      var i, j :| 0 <= i < |s| && 0 <= j < |s[i].events|
        && !Protected(s[i].events[j]) && iv == Span(s[i].events[j].start, s[i].events[j].end);
      BusyContains(s, i, j);
    }
  }

  /** A busy interval comes from a non-protected event of some attendee. */
  lemma {:induction false} BusySource(s: Snapshot, iv: Span) returns (i: int, j: int)
    requires iv in BusyOf(s)
    ensures 0 <= i < |s| && 0 <= j < |s[i].events|
    ensures !Protected(s[i].events[j]) && iv == Span(s[i].events[j].start, s[i].events[j].end)
    decreases |s|
  {
    var n := |s| - 1;
    var init := s[..n];
    assert BusyOf(s) == BusyOf(init) + EventsBusy(s[n].events);
    if iv in BusyOf(init) {
      i, j := BusySource(init, iv);
      assert init[i] == s[i];
    } else {
      i := n;
      j := EventsBusySource(s[n].events, iv);
    }
  }

  /** Every non-protected event of every attendee is busy time. */
  lemma {:induction false} BusyContains(s: Snapshot, i: int, j: int)
    requires 0 <= i < |s| && 0 <= j < |s[i].events| && !Protected(s[i].events[j])
    ensures Span(s[i].events[j].start, s[i].events[j].end) in BusyOf(s)
    decreases |s|
  {
    var n := |s| - 1;
    var init := s[..n];
    assert BusyOf(s) == BusyOf(init) + EventsBusy(s[n].events);
    if i < n {
      assert init[i] == s[i];
      BusyContains(init, i, j);
    } else {
      EventsBusyContains(s[n].events, j);
    }
  }

  /** A slot is conflict-free for everyone iff it overlaps no busy interval. */
  lemma FreeIffNoBusyHit(s: Snapshot, t: Stamp, len: int)
    ensures FreeAt(s, t, len) <==> forall iv | iv in BusyOf(s) :: !Hits(t, len, iv)
  {
    if !FreeAt(s, t, len) {
      var i, j :| 0 <= i < |s| && 0 <= j < |s[i].events| && Conflicting(s[i].events[j], t, t + len);
      BusyMembership(s, Span(s[i].events[j].start, s[i].events[j].end));
    }
    forall iv | iv in BusyOf(s) && Hits(t, len, iv) ensures !FreeAt(s, t, len) {
      BusyMembership(s, iv);
    }
  }

  lemma BusyWellFormed(s: Snapshot)
    requires WellFormed(s)
    ensures forall iv | iv in BusyOf(s) :: iv.start <= iv.end
  {
    forall iv | iv in BusyOf(s) ensures iv.start <= iv.end {
      BusyMembership(s, iv);
    }
  }

  lemma BusyNonEmptyIffSomeEvent(s: Snapshot)
    ensures BusyOf(s) != [] <==> exists i, j | 0 <= i < |s| && 0 <= j < |s[i].events| :: !Protected(s[i].events[j])
  {
    if BusyOf(s) != [] {
      BusyMembership(s, BusyOf(s)[0]);
    }
    if exists i, j | 0 <= i < |s| && 0 <= j < |s[i].events| :: !Protected(s[i].events[j]) {
      var i, j :| 0 <= i < |s| && 0 <= j < |s[i].events| && !Protected(s[i].events[j]);
      BusyMembership(s, Span(s[i].events[j].start, s[i].events[j].end));
    }
  }

  // ---------------------------------------------------------------------------
  // Merging

  /** Folds the next interval (in start order) into the merged timeline: it extends the
      last merged interval when it starts strictly before that one ends, and is appended
      otherwise, so touching intervals stay separate. */
  function MergeStep(merged: seq<Span>, c: Span): (r: seq<Span>)
    requires merged != []
    ensures r != []
  {
    var last := merged[|merged| - 1];
    if c.start < last.end then merged[..|merged| - 1] + [Span(last.start, Max(last.end, c.end))]
    else merged + [c]
  }

  function MergeAll(s: seq<Span>): (m: seq<Span>)
    ensures s != [] <==> m != []
    ensures |m| <= |s|
    decreases |s|
  {
    if |s| <= 1 then s else MergeStep(MergeAll(s[..|s| - 1]), s[|s| - 1])
  }

  /** Merged intervals are well-formed, ordered, and each starts no earlier than the
      previous one ends. */
  predicate Chain(m: seq<Span>) {
    && (forall k | 0 <= k < |m| :: m[k].start <= m[k].end)
    && (forall k | 0 < k < |m| :: m[k - 1].end <= m[k].start)
  }

  predicate AllWellFormed(s: seq<Span>) {
    forall k | 0 <= k < |s| :: s[k].start <= s[k].end
  }

  predicate Within(iv: Span, outer: Span) {
    outer.start <= iv.start && iv.end <= outer.end
  }

  lemma {:induction false} ChainOrder(m: seq<Span>, j: int, k: int)
    requires Chain(m) && 0 <= j < k < |m|
    ensures m[j].end <= m[k].start
    ensures m[j].start <= m[k].start && m[j].end <= m[k].end
    decreases k - j
  {
    if j + 1 < k {
      ChainOrder(m, j + 1, k);
    }
  }

  predicate StartsSorted(s: seq<Span>) {
    forall i, j | 0 <= i < j < |s| :: s[i].start <= s[j].start
  }

  lemma SortedSpans(s: seq<Span>)
    requires SortedBy(s, StartOf)
    ensures StartsSorted(s)
  {
    forall i, j | 0 <= i < j < |s| ensures s[i].start <= s[j].start {
      assert StartOf(s[i]) <= StartOf(s[j]);
    }
  }

  /** The last merged interval starts no later than the last input interval. */
  lemma {:induction false} MergeLastStart(s: seq<Span>)
    requires StartsSorted(s)
    requires s != []
    ensures MergeAll(s)[|MergeAll(s)| - 1].start <= s[|s| - 1].start
    decreases |s|
  {
    if |s| > 1 {
      var n := |s| - 1;
      MergeLastStart(s[..n]);
    }
  }

  /** Merging sorted well-formed intervals gives a chain. */
  lemma {:induction false} MergeChain(s: seq<Span>)
    requires StartsSorted(s) && AllWellFormed(s)
    ensures Chain(MergeAll(s))
    decreases |s|
  {
    if |s| > 1 {
      var n := |s| - 1;
      var prev := MergeAll(s[..n]);
      PrefixSorted(s, n);
      MergeChain(s[..n]);
      MergeLastStart(s[..n]);
      assert s[n].start <= s[n].end;
      MergeStepChain(prev, s[n]);
    }
  }

  /** A prefix of sorted, well-formed intervals is sorted and well formed. */
  lemma PrefixSorted(s: seq<Span>, n: int)
    requires StartsSorted(s) && AllWellFormed(s)
    requires 0 <= n <= |s|
    ensures StartsSorted(s[..n]) && AllWellFormed(s[..n])
  {
  }

  /** Folding in an interval that starts no earlier than the last merged one keeps the
      timeline a chain. */
  lemma MergeStepChain(prev: seq<Span>, c: Span)
    requires prev != [] && Chain(prev)
    requires prev[|prev| - 1].start <= c.start <= c.end
    ensures Chain(MergeStep(prev, c))
  {
    var p := |prev| - 1;
    var m := MergeStep(prev, c);
    if c.start < prev[p].end {
      assert m == prev[..p] + [Span(prev[p].start, Max(prev[p].end, c.end))];
      assert |m| == |prev|;
      forall k | 0 <= k < |m| ensures m[k].start <= m[k].end {
        if k < p { assert m[k] == prev[k]; }
      }
      forall k | 0 < k < |m| ensures m[k - 1].end <= m[k].start {
        assert m[k - 1] == prev[k - 1];
        if k < p { assert m[k] == prev[k]; }
      }
    } else {
      assert m == prev + [c];
      forall k | 0 <= k < |m| ensures m[k].start <= m[k].end {
        if k < |prev| { assert m[k] == prev[k]; }
      }
      forall k | 0 < k < |m| ensures m[k - 1].end <= m[k].start {
        assert m[k - 1] == prev[k - 1];
        if k < |prev| { assert m[k] == prev[k]; }
      }
    }
  }

  /** Every input interval lies inside one merged interval, the `k`th. */
  lemma {:induction false} MergeCovers(s: seq<Span>, i: int) returns (k: int)
    requires StartsSorted(s) && AllWellFormed(s)
    requires 0 <= i < |s|
    ensures 0 <= k < |MergeAll(s)| && Within(s[i], MergeAll(s)[k])
    decreases |s|
  {
    if |s| == 1 {
      k := 0;
    } else {
      var n := |s| - 1;
      var prev := MergeAll(s[..n]);
      PrefixSorted(s, n);
      MergeLastStart(s[..n]);
      var p := |prev| - 1;
      var c := s[n];
      var m := MergeAll(s);
      assert m == MergeStep(prev, c);
      var merges := c.start < prev[p].end;
      if i < n {
        var k0 := MergeCovers(s[..n], i);
        assert s[..n][i] == s[i];
        k := if merges && k0 == p then p else k0;
        if merges && k0 == p {
          assert m[p] == Span(prev[p].start, Max(prev[p].end, c.end));
        } else {
          assert m[k0] == prev[k0];
        }
      } else {
        k := if merges then p else |m| - 1;
        if merges {
          assert m[p] == Span(prev[p].start, Max(prev[p].end, c.end));
        }
      }
    }
  }

  /** Only strictly overlapping intervals merge: every point strictly inside a merged
      interval lies strictly inside one of the input intervals, the `j`th. So intervals
      that merely touch (one ends where the next starts) are never joined across the
      shared point. */
  lemma {:induction false} MergedInteriorIsBusy(s: seq<Span>, k: int, t: Stamp) returns (j: int)
    requires 0 <= k < |MergeAll(s)|
    requires MergeAll(s)[k].start < t < MergeAll(s)[k].end
    ensures 0 <= j < |s| && s[j].start < t < s[j].end
    decreases |s|
  {
    if |s| <= 1 {
      j := k;
    } else {
      var n := |s| - 1;
      var prev := MergeAll(s[..n]);
      var p := |prev| - 1;
      var c := s[n];
      var m := MergeAll(s);
      assert m == MergeStep(prev, c);
      var k' := -1;
      if c.start < prev[p].end {
        if k < p {
          assert m[k] == prev[k];
          k' := k;
        } else if t < prev[p].end {
          assert m[p] == Span(prev[p].start, Max(prev[p].end, c.end));
          k' := p;
        } else {
          assert m[p] == Span(prev[p].start, Max(prev[p].end, c.end));
          j := n;
        }
      } else if k < |prev| {
        assert m[k] == prev[k];
        k' := k;
      } else {
        j := n;
      }
      if k' >= 0 {
        j := MergedInteriorIsBusy(s[..n], k', t);
        assert s[..n][j] == s[j];
      }
    }
  }

  /** Two intervals that touch stay two intervals. */
  lemma TouchingStaySeparate(a: Stamp, b: Stamp, c: Stamp)
    ensures MergeAll([Span(a, b), Span(b, c)]) == [Span(a, b), Span(b, c)]
  {
    assert [Span(a, b), Span(b, c)][..1] == [Span(a, b)];
  }

  /** A slot of positive length that overlaps a merged interval overlaps one of the
      intervals that were merged into it. */
  lemma {:induction false} MergedHitIsBusyHit(s: seq<Span>, t: Stamp, len: int, k: int)
    requires StartsSorted(s) && AllWellFormed(s)
    requires len > 0
    requires 0 <= k < |MergeAll(s)| && Hits(t, len, MergeAll(s)[k])
    ensures HitsSome(t, len, s)
    decreases |s|
  {
    if |s| == 1 {
      assert Hits(t, len, s[0]);
    } else {
      var n := |s| - 1;
      var prev := MergeAll(s[..n]);
      var p := |prev| - 1;
      var c := s[n];
      var m := MergeAll(s);
      assert m == MergeStep(prev, c);
      var fromPrev := false;
      if c.start < prev[p].end {
        if k < p {
          assert m[k] == prev[k];
          fromPrev := true;
        } else if t < prev[p].end {
          assert Hits(t, len, prev[p]);
          fromPrev := true;
        } else {
          assert Hits(t, len, s[n]);
        }
      } else if k < |prev| {
        assert m[k] == prev[k];
        fromPrev := true;
      } else {
        assert Hits(t, len, s[n]);
      }
      if fromPrev {
        var k' := if c.start < prev[p].end && k >= p then p else k;
        assert Hits(t, len, prev[k']);
        MergedHitIsBusyHit(s[..n], t, len, k');
        var q :| 0 <= q < n && Hits(t, len, s[..n][q]);
        assert Hits(t, len, s[q]);
      }
    }
  }

  // ---------------------------------------------------------------------------
  // Gap scan

  /** The gap walk from merged interval `i` on, with `lastEnd` the end of the previous
      merged interval (the window start before the first). */
  function ScanGaps(m: seq<Span>, i: nat, ws: Stamp, we: Stamp, len: int, lastEnd: Stamp): Option<Stamp>
    decreases |m| - i
  {
    if i >= |m| then
      if we - Max(lastEnd, ws) >= len then Some(Max(lastEnd, ws)) else None
    else
      var fs := Max(lastEnd, ws);
      var fe := Min(m[i].start, we);
      if fe - fs >= len then Some(fs) else ScanGaps(m, i + 1, ws, we, len, m[i].end)
  }

  /** A start the scan returns lies in the window and its slot misses every merged
      interval. */
  lemma {:induction false} ScanSound(m: seq<Span>, i: nat, ws: Stamp, we: Stamp, len: int, lastEnd: Stamp)
    requires Chain(m) && i <= |m|
    requires forall k | 0 <= k < i :: m[k].end <= lastEnd
    requires ScanGaps(m, i, ws, we, len, lastEnd).Some?
    ensures var t := ScanGaps(m, i, ws, we, len, lastEnd).value;
      ws <= t && t + len <= we && !HitsSome(t, len, m)
    decreases |m| - i
  {
    var t := ScanGaps(m, i, ws, we, len, lastEnd).value;
    if i < |m| {
      var fs := Max(lastEnd, ws);
      var fe := Min(m[i].start, we);
      if fe - fs >= len {
        forall k | 0 <= k < |m| ensures !Hits(t, len, m[k]) {
          if k > i { ChainOrder(m, i, k); }
        }
      } else {
        forall k | 0 <= k < i + 1 ensures m[k].end <= m[i].end {
          if k < i { ChainOrder(m, k, i); }
        }
        ScanSound(m, i + 1, ws, we, len, m[i].end);
      }
    }
  }

  /** First fit: for a positive length, every start in the window before the one the scan
      returns, and every start at all when it returns nothing, hits a merged interval. */
  lemma {:induction false} ScanFirstFit(m: seq<Span>, i: nat, ws: Stamp, we: Stamp, len: int, lastEnd: Stamp)
    requires Chain(m) && i <= |m| && len > 0
    requires forall t | ws <= t < Max(lastEnd, ws) && t + len <= we :: HitsSome(t, len, m)
    ensures ScanGaps(m, i, ws, we, len, lastEnd).Some? ==>
      forall t | ws <= t < ScanGaps(m, i, ws, we, len, lastEnd).value && t + len <= we :: HitsSome(t, len, m)
    ensures ScanGaps(m, i, ws, we, len, lastEnd).None? ==>
      forall t | ws <= t && t + len <= we :: HitsSome(t, len, m)
    decreases |m| - i
  {
    if i < |m| {
      var fs := Max(lastEnd, ws);
      var fe := Min(m[i].start, we);
      if fe - fs < len {
        forall t | ws <= t < Max(m[i].end, ws) && t + len <= we ensures HitsSome(t, len, m) {
          if t >= fs {
            assert Hits(t, len, m[i]);
          }
        }
        ScanFirstFit(m, i + 1, ws, we, len, m[i].end);
      }
    }
  }

  // ---------------------------------------------------------------------------
  // The search

  /** The slot `find_first_free_slot_in_window` returns, for a duration in minutes. */
  function FirstFreeSlotSpec(ws: Stamp, we: Stamp, duration: int, s: Snapshot): Option<Span> {
    var len := duration * SecondsPerMinute;
    var busy := BusyOf(s);
    if busy == [] then
      if ws + len <= we then Some(Span(ws, ws + len)) else None
    else
      match ScanGaps(MergeAll(SortBy(busy, StartOf)), 0, ws, we, len, ws)
      case Some(t) => Some(Span(t, t + len))
      case None => None
  }

  /** The narrow search is sound and first-fit: a returned slot has the requested length,
      lies inside the window and is free for every attendee; for a positive duration no
      earlier start in the window admits a free slot, and nothing is returned only when
      no start in the window does. */
  lemma FirstFreeSlotCorrect(ws: Stamp, we: Stamp, duration: int, s: Snapshot)
    requires WellFormed(s)
    ensures var r := FirstFreeSlotSpec(ws, we, duration, s);
      && (r.Some? ==> r.value.end == r.value.start + duration * SecondsPerMinute)
      && (r.Some? ==> ws <= r.value.start && r.value.end <= we)
      && (r.Some? ==> FreeAt(s, r.value.start, duration * SecondsPerMinute))
      && (duration > 0 && r.Some? ==>
            forall t | ws <= t < r.value.start && t + duration * SecondsPerMinute <= we ::
              !FreeAt(s, t, duration * SecondsPerMinute))
      && (duration > 0 && r.None? ==>
            forall t | ws <= t && t + duration * SecondsPerMinute <= we :: !FreeAt(s, t, duration * SecondsPerMinute))
  {
    var len := duration * SecondsPerMinute;
    var busy := BusyOf(s);
    var r := FirstFreeSlotSpec(ws, we, duration, s);
    if busy == [] {
      if r.Some? { FreeIffNoBusyHit(s, ws, len); }
    } else {
      var sorted := SortBy(busy, StartOf);
      SortedBusy(s);
      var m := MergeAll(sorted);
      MergeChain(sorted);
      forall t | !HitsSome(t, len, m) ensures FreeAt(s, t, len) {
        MissIsFree(s, t, len);
      }
      if r.Some? {
        ScanSound(m, 0, ws, we, len, ws);
      }
      if len > 0 {
        ScanFirstFit(m, 0, ws, we, len, ws);
        forall t | HitsSome(t, len, m) ensures !FreeAt(s, t, len) {
          HitIsNotFree(s, t, len);
        }
      }
    }
  }

  /** The sorted busy intervals of well-formed calendars are sorted and well formed. */
  lemma SortedBusy(s: Snapshot)
    requires WellFormed(s)
    ensures StartsSorted(SortBy(BusyOf(s), StartOf)) && AllWellFormed(SortBy(BusyOf(s), StartOf))
  {
    var busy := BusyOf(s);
    var sorted := SortBy(busy, StartOf);
    SortByProps(busy, StartOf);
    SortedSpans(sorted);
    BusyWellFormed(s);
    forall k | 0 <= k < |sorted| ensures sorted[k].start <= sorted[k].end {
      assert sorted[k] in multiset(busy);
    }
  }

  /** A slot that misses every merged interval misses every busy interval. */
  lemma MissIsFree(s: Snapshot, t: Stamp, len: int)
    requires WellFormed(s)
    requires !HitsSome(t, len, MergeAll(SortBy(BusyOf(s), StartOf)))
    ensures FreeAt(s, t, len)
  {
    var busy := BusyOf(s);
    var sorted := SortBy(busy, StartOf);
    SortedBusy(s);
    SortByProps(busy, StartOf);
    FreeIffNoBusyHit(s, t, len);
    forall iv | iv in busy ensures !Hits(t, len, iv) {
      assert iv in multiset(sorted);
      var q :| 0 <= q < |sorted| && sorted[q] == iv;
      var k := MergeCovers(sorted, q);
    }
  }

  /** A slot of positive length that hits a merged interval is not free. */
  lemma HitIsNotFree(s: Snapshot, t: Stamp, len: int)
    requires WellFormed(s) && len > 0
    requires HitsSome(t, len, MergeAll(SortBy(BusyOf(s), StartOf)))
    ensures !FreeAt(s, t, len)
  {
    var busy := BusyOf(s);
    var sorted := SortBy(busy, StartOf);
    var m := MergeAll(sorted);
    SortedBusy(s);
    SortByProps(busy, StartOf);
    var k :| 0 <= k < |m| && Hits(t, len, m[k]);
    MergedHitIsBusyHit(sorted, t, len, k);
    var q :| 0 <= q < |sorted| && Hits(t, len, sorted[q]);
    assert sorted[q] in multiset(busy);
    FreeIffNoBusyHit(s, t, len);
  }


  /** Step 2 of `find_first_free_slot_in_window`: merge the start-sorted busy intervals. */
  method MergeBusy(sorted: seq<Span>) returns (merged: seq<Span>)
    requires sorted != []
    ensures merged == MergeAll(sorted)
  {
    merged := [sorted[0]];
    for i := 1 to |sorted|
      invariant merged == MergeAll(sorted[..i])
    {
      var current := sorted[i];
      var last := merged[|merged| - 1];
      ghost var before := merged;
      if current.start < last.end {
        merged := merged[|merged| - 1 := Span(last.start, Max(last.end, current.end))];
        assert merged == before[..|before| - 1] + [Span(last.start, Max(last.end, current.end))];
      } else {
        merged := merged + [current];
      }
      assert merged == MergeStep(before, current);
      MergePrefixStep(sorted, i);
    }
    assert sorted[..|sorted|] == sorted;
  }

  /** Merging one more interval of a prefix is one `MergeStep`. */
  lemma MergePrefixStep(s: seq<Span>, i: int)
    requires 1 <= i < |s|
    ensures MergeAll(s[..i + 1]) == MergeStep(MergeAll(s[..i]), s[i])
  {
    assert s[..i + 1][..i] == s[..i];
  }

  /** Step 3 of `find_first_free_slot_in_window`: scan the gaps before, between and after
      the merged intervals for one of length `len`. */
  method ScanWindow(merged: seq<Span>, ws: Stamp, we: Stamp, len: int) returns (found: Option<Stamp>)
    ensures found == ScanGaps(merged, 0, ws, we, len, ws)
  {
    var lastBusyEnd := ws;
    for i := 0 to |merged|
      invariant ScanGaps(merged, i, ws, we, len, lastBusyEnd) == ScanGaps(merged, 0, ws, we, len, ws)
    {
      var freeStart := Max(lastBusyEnd, ws);
      var freeEnd := Min(merged[i].start, we);
      if freeEnd - freeStart >= len {
        return Some(freeStart);
      }
      lastBusyEnd := merged[i].end;
    }
    if we - Max(lastBusyEnd, ws) >= len {
      found := Some(Max(lastBusyEnd, ws));
    } else {
      found := None;
    }
  }

  /** `find_first_free_slot_in_window(start, end, duration, attendee_events)`. */
  method FirstFreeSlot(ws: Stamp, we: Stamp, duration: int, s: Snapshot) returns (slot: Option<Span>)
    ensures slot == FirstFreeSlotSpec(ws, we, duration, s)
    ensures BusyOf(s) == [] ==> (slot.Some? <==> ws + duration * SecondsPerMinute <= we)
    ensures WellFormed(s) && slot.Some? ==>
      && slot.value.end == slot.value.start + duration * SecondsPerMinute
      && ws <= slot.value.start && slot.value.end <= we
      && FreeAt(s, slot.value.start, duration * SecondsPerMinute)
  {
    var len := duration * SecondsPerMinute;
    var busy := CollectBusy(s);
    if |busy| == 0 {
      if ws + len <= we {
        slot := Some(Span(ws, ws + len));
      } else {
        slot := None;
      }
    } else {
      var sorted := SortBy(busy, StartOf);
      assert |sorted| > 0 by { SortByProps(busy, StartOf); }
      var merged := MergeBusy(sorted);
      var found := ScanWindow(merged, ws, we, len);
      if found.Some? {
        slot := Some(Span(found.value, found.value + len));
      } else {
        slot := None;
      }
    }
    if WellFormed(s) { FirstFreeSlotCorrect(ws, we, duration, s); }
  }
}
