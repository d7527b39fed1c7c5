# Meeting scheduler core, modelled in Dafny

This project models the scheduling core of an AI meeting-scheduling service. The service takes a
meeting request: a sender, a list of attendees, a subject and an e-mail body. It turns the
request into a proposed time window and fetches every participant's calendar. It then decides
where the meeting goes, and it returns every participant's calendar with the meeting placed and
conflicting events moved. Four parts are modelled:

- **Conflict detection and slot search** (`propose_time.py`):
  - `has_conflict`;
  - `find_first_free_slot_in_window`, the narrow search inside the requested window (merge the
    busy intervals, then scan the gaps);
  - `find_free_slots`, the broad search from 09:00 on the earliest busy day, for two days, in
    30-minute steps, keeping at most five candidates;
  - the tiered decision of `intelligent_meeting_scheduler`: free window, first free gap, keep
    the proposal, or ask the language-model oracle.
- **Applying the decision** (`main.py`):
  - `apply_rescheduling_to_attendee_events`: move every displaced event to the rescheduled
    time, then add the meeting to every participant without duplicates;
  - `filter_off_hours_events`;
  - `calculate_duration_minutes`;
  - `process_scheduler_results`.
- **Time extraction fallbacks** (`request_to_time.py`): `_find_target_date`,
  `_calculate_start_time`, `_calculate_meeting_times` and `_fallback_parse`.
- **Calendar retrieval** (`get_attendee_events.py`): the query window strings of
  `get_attendee_events`, and the per-participant dictionary of `get_all_attendee_events`.

How the model represents the system:

- Time stamps are integers: seconds of naive local time. The source strips the fixed "+05:30"
  offset before it compares times.
- Day, weekday and time of day follow Python's `datetime` (`Clock`) on its proleptic Gregorian
  calendar, but the day count is unbounded: the model has no year 1 or year 9999 limit.
- A calendar dictionary is an insertion-ordered association list (`Calendar.Snapshot`). Python
  dictionaries keep insertion order, and the order decides both the order of the conflict
  records and how ties are broken when events are sorted.
- An event whose summary is "Off Hours" is *protected*. It is never a conflict, never busy time
  and never moved, and it is removed from the response.
- The language-model oracle and the calendar service are function parameters. The regular
  expression matches of `request_to_time.py` are inputs.

Where the source changes data step by step, the model has a method with loops:
`Conflicts.HasConflict`, `SlotSearch.FirstFreeSlot`, `CandidateSlots.FindFreeSlots`,
`Applier.RelocateAttendee`, `Applier.ApplyRescheduling`, `Response.ProcessSchedulerResults` and
`AttendeeFetch.GetAllAttendeeEvents`. Each method is proved equal to a specification function.
The properties the source promises are proved about those functions as lemmas.

## Model

| member | source | states |
|---|---|---|
| Calendar.Get | main.py:258 | a lookup succeeds exactly for an email that is a key |
| Calendar.Put | get_attendee_events.py:33-37 | storing under an email sets that email's events and changes no other email; a new email goes last, an existing one keeps its place |
| Calendar.AttendeeList | main.py:158-161 | the sender plus the listed attendees, the sender first unless already listed, and the attendees in their order |
| Conflicts.HasConflict | propose_time.py:19-50 | the loop returns the conflict records of all non-"Off Hours" events that overlap the proposed window, in dictionary and event order; the flag is set exactly when the window is not free |
| Conflicts.EventConflictsMembership | propose_time.py:29-48 | one attendee's records are exactly those of its overlapping non-protected events |
| Conflicts.EventConflictsMultiplicity | propose_time.py:30-48 | a conflicting event repeated n times gives n records; any other event gives none |
| Conflicts.SnapshotConflictsMembership | propose_time.py:29-48 | a record is reported exactly when some attendee holds a conflicting event with that record's fields |
| Conflicts.RecordsAreConflicts | propose_time.py:39-47 | every record names a key of the dictionary and a non-protected event that overlaps the window, and carries that event's times and summary |
| Conflicts.NoConflictsIffFree | propose_time.py:50 | there are no conflicts exactly when nobody has a non-protected event overlapping the window |
| Conflicts.OverlapFacts | main.py:100-101 | overlap is symmetric, and ranges that only touch do not overlap |
| SlotSearch.CollectBusy | propose_time.py:65-75 | the loop collects the busy interval of every non-protected event, in dictionary order |
| SlotSearch.BusyMembership | propose_time.py:66-75 | an interval is busy exactly when some attendee holds a non-protected event with those times |
| SlotSearch.FreeIffNoBusyHit | propose_time.py:64-75 | a slot is free for everybody exactly when it overlaps no busy interval |
| SlotSearch.BusyNonEmptyIffSomeEvent | propose_time.py:78 | the busy list is empty exactly when every event is protected |
| SlotSearch.MergeAll | propose_time.py:86-92 | merging keeps at least one interval when there is one, and never adds intervals |
| SlotSearch.MergeChain | propose_time.py:84-92 | merging start-sorted, well-formed intervals gives disjoint intervals in increasing order |
| SlotSearch.MergeCovers | propose_time.py:86-92 | every busy interval lies inside some merged interval |
| SlotSearch.MergedInteriorIsBusy | propose_time.py:86-92 | only strictly overlapping intervals merge: every point strictly inside a merged interval is strictly inside some busy interval |
| SlotSearch.TouchingStaySeparate | propose_time.py:89-92 | two intervals where one ends exactly where the next starts stay two intervals |
| SlotSearch.MergedHitIsBusyHit | propose_time.py:86-92 | a slot of positive length that overlaps a merged interval overlaps an original busy interval |
| SlotSearch.ScanSound | propose_time.py:96-109 | a start found by the gap scan lies in the window, leaves room for the duration and overlaps no merged interval |
| SlotSearch.ScanFirstFit | propose_time.py:96-112 | no earlier start in the window admits a free slot, and the scan finds nothing only when no start does |
| SlotSearch.FirstFreeSlotCorrect | propose_time.py:53-112 | for well-formed events the narrow search is sound (requested length, inside the window, free for all) and first-fit (no earlier free start; none at all when it returns nothing) |
| SlotSearch.MergeBusy | propose_time.py:85-92 | the merging loop computes the merged busy timeline |
| SlotSearch.ScanWindow | propose_time.py:96-112 | the gap-scanning loop computes the first fitting start |
| SlotSearch.FirstFreeSlot | propose_time.py:53-112 | the method computes the narrow search; with no busy time it succeeds exactly when the window is long enough |
| CandidateSlots.AnyHit | propose_time.py:151-153 | the conflict flag is set exactly when the slot at the current time overlaps some event |
| CandidateSlots.NextEventStart | propose_time.py:149-155 | the jump target never passes the horizon and always moves forward |
| CandidateSlots.NextConflict | propose_time.py:159-162 | the next conflict is at most the horizon and no later than any event that starts at or after the current time |
| CandidateSlots.Take | propose_time.py:177 | exactly the first five candidates, or all of them when there are fewer |
| CandidateSlots.ConflictsAt | propose_time.py:148-155 | the inner loop computes the conflict flag and the jump target |
| CandidateSlots.NextConflictAt | propose_time.py:159-162 | the inner loop computes the next conflict |
| CandidateSlots.WalkStep | propose_time.py:147-173 | one pass of the stepping loop moves strictly forward and yields the candidates between the old and the new current time |
| CandidateSlots.FindFreeSlots | propose_time.py:115-177 | the stepping loop computes the broad-search candidates |
| CandidateSlots.CandidatesProps | propose_time.py:146-173 | every candidate has the requested length, lies between the current time and the horizon, overlaps no event and ends before every later event start; starts strictly increase |
| CandidateSlots.SortedMissIsFree | propose_time.py:133-164 | a slot that misses every sorted busy interval is free for all, and ends before every busy interval that starts after it |
| CandidateSlots.FreeSlotsFirstFive | propose_time.py:146-177 | the answer is the walk's candidates in order: fewer than five exactly when all of them are returned |
| CandidateSlots.FreeSlotsCorrect | propose_time.py:115-177 | at most five candidates with strictly increasing starts, each of the requested length, inside the two-day horizon, free for everybody, and ending before every later busy start |
| CandidateSlots.SearchStartIsNineOnEarliestDay | propose_time.py:139-143 | the search starts at 09:00:00 on the day of the earliest busy interval |
| Scheduler.ConflictMeansBusy | propose_time.py:312-313 | when there is a conflict, some busy interval exists, so the broad search can read the earliest one |
| Scheduler.IntelligentMeetingScheduler | propose_time.py:261-340 | the method takes the decision of the four tiers |
| Scheduler.ScheduleKeepsEvents | propose_time.py:276-339 | the calendars are returned unchanged, and the conflict list is returned exactly when the oracle decided |
| Scheduler.OracleOnlyInLastTier | propose_time.py:265-340 | outside the last tier the oracle cannot change the result; inside it, the oracle's answer is the decision, and the oracle was shown every conflict record and the broad-search candidates |
| Scheduler.LocalDecisions | propose_time.py:265-327 | the scheduler's own decisions place the meeting and move nothing; the "free" reason is given exactly when the window is free, and the free and no-alternative decisions keep the requested window |
| Scheduler.PlacementIsFree | propose_time.py:265-305 | for well-formed events the free and first-gap decisions place a meeting that overlaps no non-protected event; a first-gap slot has the requested length and lies inside the window |
| Scheduler.GivingUpIsJustified | propose_time.py:307-327 | when the proposal is kept because no alternative exists, the window has no free slot of the requested positive length |
| Applier.KeptAppend | main.py:110-146 | the removal pass distributes over concatenation |
| Applier.KeptAll | main.py:114-146 | a run with no displaced events is kept whole |
| Applier.KeptDisplacedPartition | main.py:114-146 | the kept and the displaced events together are exactly the original events, with multiplicity |
| Applier.KeptAndDisplacedSides | main.py:114-131 | no kept event is displaced, and every removed event is displaced (non-protected and overlapping the meeting) |
| Applier.MovedMatchesDisplaced | main.py:133-141 | the k-th added event is the k-th removed event at the rescheduled times |
| Applier.RelocationCorrect | main.py:109-153 | relocation keeps the number of events, keeps every other event as often as it was, never touches a protected event, and gives every removed event the rescheduled times with its summary, count and attendees unchanged |
| Applier.DisplacedIndicesCorrect | main.py:114-131 | the marked indices are exactly the displaced events' indices, in increasing order |
| Applier.PopStep | main.py:144-146 | popping the next marked index from the back removes exactly that displaced event |
| Applier.PopsDone | main.py:144-146 | after all the pops exactly the kept events remain, in order |
| Applier.MarkDisplaced | main.py:111-141 | the marking loop, which skips protected events, records the displaced indices and their rescheduled copies |
| Applier.RelocateAttendee | main.py:110-153 | the remove-then-append loops leave the kept events in order, followed by the rescheduled copies |
| Applier.RelocateAll | main.py:106-153 | every attendee's calendar is relocated and the keys keep their order |
| Applier.RescheduleConflicts | main.py:106-153 | the loop over the dictionary relocates every attendee |
| Applier.MeetingCountPositive | main.py:181-188 | the meeting counts as present exactly when some event has its start, end and summary |
| Applier.InsertAllCounts | main.py:174-194 | every listed participant ends up with the meeting exactly once if it was absent, and with the old copies if it was present; other emails are untouched |
| Applier.InsertAllEmails | main.py:174-178 | the keys become the old keys plus every listed participant |
| Applier.InsertAllNoop | main.py:180-194 | when everybody already has the meeting, the insertion changes nothing |
| Applier.InsertAllHolds | main.py:174-194 | after insertion every listed participant has the meeting |
| Applier.AddMeetingToAll | main.py:174-194 | the loop inserts the meeting for every participant |
| Applier.ApplyRescheduling | main.py:62-196 | the method computes the whole rescheduling |
| Applier.NoProposalNoChange | main.py:71-87 | without a proposed start and end the calendars are returned unchanged |
| Applier.ApplyInserts | main.py:155-194 | with a proposal, the sender and every attendee end up with the meeting exactly once unless they already had it; other emails keep their relocated calendars |
| Applier.ApplyEmails | main.py:105-194 | with a proposal, the keys are the old keys plus the sender and the attendees |
| Applier.RelocateAllEmails | main.py:110 | relocation keeps the set of keys |
| Applier.ApplyIdempotent | main.py:62-196 | when the decision moves nothing, applying it twice is the same as applying it once |
| Response.FilterOffHoursKeeps | main.py:57-59 | the filter keeps exactly the non-protected events, as often as they occur |
| Response.FilterOffHoursAppend | main.py:59 | the filter keeps the order of the events |
| Response.FilterOffHoursIdempotent | main.py:57-59 | filtering twice is the same as filtering once |
| Response.TruncMinutes | main.py:291-292 | `int(seconds / 60)` truncates toward zero, for both signs |
| Response.CalculateDurationMinutes | main.py:286-292 | the string parses back to the minutes between the two times, truncated toward zero |
| Response.ReplyDuration | main.py:240-244 | "30" unless both proposed times are present, else the computed minutes |
| Response.FilterAll | main.py:222-226 | every calendar is filtered and the keys keep their order |
| Response.AttendeeEntries | main.py:247-265 | one entry per participant |
| Response.FilterCalendars | main.py:222-226 | the loop filters every calendar |
| Response.BuildAttendeeEntries | main.py:257-265 | the loop builds one sorted entry per participant |
| Response.ProcessSchedulerResults | main.py:199-283 | the method builds the response |
| Response.ProcessEntries | main.py:199-265 | one entry per participant in request order; each holds that participant's events after the decision, without protected events, sorted by start, with equal starts kept in calendar order, or nothing when the participant has no calendar |
| Response.FilterAllGet | main.py:222-226 | filtering every calendar filters each participant's events |
| Response.ProcessShowsMeeting | main.py:155-265 | when the decision carries a proposed time and the subject is not "Off Hours", every participant's entry shows the meeting |
| Sorting.SortByProps | main.py:261 | the sort is a permutation ordered by the key |
| Sorting.SortByStable | main.py:261 | the sort is stable: events with equal keys keep their relative order |
| Sorting.SortByHeadIsLeast | propose_time.py:133-140 | after sorting, the first interval has the least start |
| TimeExtraction.FirstDayNamed | request_to_time.py:274-275 | the first weekday name, in Monday-to-Sunday order, that occurs in the text |
| TimeExtraction.DaysAheadCorrect | request_to_time.py:277-280 | the days ahead are between 1 and 7, land on the named weekday, and are 7 exactly when that weekday is today |
| TimeExtraction.FindTargetDateCorrect | request_to_time.py:257-290 | the target keeps the time of day; a named weekday gives its next occurrence 1 to 7 days ahead; otherwise "next week" gives 7 days ahead and anything else 1 day ahead |
| TimeExtraction.TwentyFourHourCorrect | request_to_time.py:240-245 | on a 12-hour reading the hour keeps its value modulo 12 and is in the afternoon exactly for "pm"; without a period the hour is kept |
| TimeExtraction.CalculateMeetingTimes | request_to_time.py:193-221 | the meeting ends exactly the duration after it starts, on both the normal and the fallback path |
| TimeExtraction.NoRelativeTimeStartsNextHour | request_to_time.py:231-233 | with no relative time the start is the next whole hour after the base time |
| TimeExtraction.DayOnlyStartsAtTen | request_to_time.py:251-255 | a day with no clock time starts at 10:00 on the target date |
| TimeExtraction.ClockTimeStart | request_to_time.py:235-249 | a clock time starts on the target date at the converted hour and minute; an out-of-range hour or minute falls back to the base time |
| TimeExtraction.FirstMatchIsFirst | request_to_time.py:170-174 | the relative time is the match of the first pattern that matched, or "" when none did |
| TimeExtraction.FallbackDuration | request_to_time.py:152-160 | the duration is always 30 or 60: 60 exactly when the text contains "60", "hour" or "long", and 30 otherwise, so the "30"/"minutes" branch never changes the result |
| TimeExtraction.FallbackAnyCase | request_to_time.py:156-158 | "hour" or "long" in any letter case gives 60 minutes |
| TimeExtraction.ThursdayExample | test_request_to_time.py:166-171 | "Thursday" from Saturday 2025-07-19 12:34:55 for 30 minutes gives 2025-07-24 10:00 to 10:30 |
| Text.JoinSplit | get_attendee_events.py:13-15 | joining a split string gives the string back |
| Text.SplitJoin | get_attendee_events.py:13-15 | splitting a join of separator-free fields gives the fields back |
| Text.ParseIntString | get_attendee_events.py:14 | `int(str(n)) == n` |
| AttendeeFetch.DatePartIsPrefix | get_attendee_events.py:10-11 | the date part is the text before the first "T" |
| AttendeeFetch.DatePartOf | get_attendee_events.py:10 | the date part of "dateTtime" is the date |
| AttendeeFetch.UpperBoundOfDate | get_attendee_events.py:12-15 | for "year-month-day" with a numeric day n, the upper date is "year-month-(n+1)": the year and month are kept |
| AttendeeFetch.FetchBoundsCorrect | get_attendee_events.py:10-19 | the window fails exactly when the end date has fewer than three fields or a non-numeric third field; otherwise the lower bound is the start date at 00:00:00, and the upper date's fields are the end date's fields with the day replaced by its successor |
| AttendeeFetch.NoMonthRollover | get_attendee_events.py:12-15 | the 31st gives the "32nd": no month rollover |
| AttendeeFetch.NoZeroPadding | get_attendee_events.py:12-15 | "05" gives "6": the day loses its zero padding |
| AttendeeFetch.GetAllAttendeeEvents | get_attendee_events.py:28-38 | the loop builds the dictionary and calls the calendar service once per listed email, in order, always with the same window |
| AttendeeFetch.CollectCorrect | get_attendee_events.py:30-37 | each queried email holds the service's answer, other emails are untouched, and the queried emails are added as keys |
| AttendeeFetch.AllAttendeeEventsCorrect | get_attendee_events.py:28-38 | the keys are exactly the sender and the attendees, each once, and each holds the service's answer for the common window |

## Left out

- `Text.Lower` lower-cases ASCII letters only. Python's `str.lower()` also maps other characters, for example U+212A KELVIN SIGN to "k", so a relative time like "next wee\u212A" matches "next week" in `_find_target_date` but not in the model.
- `TimeExtraction.CalculateMeetingTimes` never takes the overflow fallback. Python's `datetime` ends at 9999-12-31, so near that date adding days raises OverflowError, and `_calculate_meeting_times` catches it and returns (base, base + duration). The model's days are unbounded, so that path is not modelled.
- `Applier.HasMeeting` compares start and end as instants. `meeting_exists` in main.py compares the StartTime/EndTime strings, so a calendar that holds the same instant written differently (for example without "+05:30") gets a second copy there but not in the model.

- The language-model calls: `schedule_with_llm`, `_extract_with_llm` and `extract_time_window`. The oracle is a function parameter of `Scheduler.Schedule`, and the proposal is an input.
- The calendar service (`retrive_calendar_events`) is a function parameter. A service that answers differently to the same call is not modelled. `get_calendar_events` is not part of this model. Neither is the two-day parallel fetch that `intelligent_meeting_scheduler` calls, so `get_all_attendee_events` is modelled on its own.
- ISO-8601 parsing and formatting (`parse_time`, `format_time`, `fromisoformat`, `strftime`, `_parse_datetime`) are not modelled. Times are integer seconds, and the "+05:30" suffix is implicit. A string that does not parse (the bare `except` branches) is not modelled.
- The `datetime.now()` fallback of `_parse_datetime` reads the clock and is left out.
- The regular-expression engine is left out. The matches of the four fallback patterns and of the clock pattern are inputs (`TimeExtraction.ClockMatch`, `FallbackParse`'s `matches`).
- `Text.ParseInt`: Python's `int()` also accepts surrounding whitespace, underscores and non-ASCII digits. The model accepts an optional sign followed by ASCII digits only.
- Durations are whole minutes. A fractional `duration` is not modelled.
- `process_scheduler_results` sorts by the `StartTime` string. The model sorts by the integer time, which gives the same order when all stamps share one format and offset.
- `SlotSearch.FirstFreeSlotCorrect` assumes well-formed events (start no later than end). The merge in `find_first_free_slot_in_window` lets an inverted event hide an earlier one. Example: busy [0,360) and [420,180) in seconds, window [0,1200), 2 minutes: the search returns [180,300), which overlaps [0,360).
- `SlotSearch.FirstFreeSlotCorrect`: the first-fit half is stated for positive durations only.
- `CandidateSlots.FindFreeSlots` states its result by the specification function. Its properties are in `CandidateSlots.FreeSlotsCorrect`. The 30-minute stride is a constant of `Candidates`, and no lemma says that no free start is skipped between strides.
- The inner loops of `find_free_slots` and the marking loop of `apply_rescheduling_to_attendee_events` are separate methods (`ConflictsAt`, `NextConflictAt`, `MarkDisplaced`), and so are the merging and scanning loops of `find_first_free_slot_in_window` (`MergeBusy`, `ScanWindow`), one pass of the `find_free_slots` stepping loop (`WalkStep`) and the entry-building loop of `process_scheduler_results` (`BuildAttendeeEntries`). Their loop bodies are unchanged.
- `Applier.ApplyIdempotent` holds only when the decision moves nothing. A decision that moves events would move the newly added meeting on a second run.
- The source deep-copies the calendars and then mutates the lists in place. The model works on values, so aliasing between the input and the result is not modelled.
- A decision field that is missing, `None` or empty is `None` in `Calendar.Decision`. A falsy decision dictionary (`if not decision`) is the decision with no proposal.
- The request fields `process_scheduler_results` only copies (`Request_id`, `Datetime`, `Location`, `From`, `EmailContent`, `MetaData`) are left out of `Response.Reply`. A request without "Subject" makes the source raise `KeyError` at main.py:274. The model returns `None` there instead.
- `get_attendee_events` also builds `end_day_time_stamp` (get_attendee_events.py:18), which is never used.
- Logging (`print`), the FastAPI endpoints, the request models and `time_profiler.py` are left out.
