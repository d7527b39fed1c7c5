/** The deterministic date arithmetic of `MeetingTimeExtractor` (request_to_time.py):
    `_find_target_date`, `_calculate_start_time`, `_calculate_meeting_times` and
    `_fallback_parse`. The regular-expression searches are not modelled: their results
    (the clock-time match and the per-pattern matches) are inputs. */
module TimeExtraction {
  import opened Wrappers
  import opened Clock
  import opened Text
  import opened Calendar

  /** The day names in the order `_find_target_date` tries them; a name's index is its
      weekday number (Monday = 0). */
  const DayNames: seq<string> := ["monday", "tuesday", "wednesday", "thursday", "friday", "saturday", "sunday"]

  /** The first day name, from index `from` on, that occurs in the text. */
  function FirstDayNamed(text: string, from: nat): (r: Option<int>)
    ensures r.Some? ==> from <= r.value < |DayNames| && Contains(text, DayNames[r.value])
    ensures r.Some? ==> forall k | from <= k < r.value :: !Contains(text, DayNames[k])
    ensures r.None? ==> forall k | from <= k < |DayNames| :: !Contains(text, DayNames[k])
    decreases |DayNames| - from
  {
    if from >= |DayNames| then None
    else if Contains(text, DayNames[from]) then Some(from)
    else FirstDayNamed(text, from + 1)
  }

  /** `days_ahead`: `(day_num - current_day) % 7`, a zero replaced by 7. */
  function DaysAhead(dayNum: int, current: int): int {
    var d := (dayNum - current) % 7;
    if d == 0 then 7 else d
  }

  /** `_find_target_date(base_datetime, relative_time)`. */
  function FindTargetDate(base: Stamp, rel: string): Stamp {
    match FirstDayNamed(rel, 0)
    case Some(dayNum) => base + DaysAhead(dayNum, Weekday(base)) * SecondsPerDay
    case None =>
      if Contains(rel, "next week") then base + 7 * SecondsPerDay
      else if Contains(rel, "next") then base + 1 * SecondsPerDay
      else base + 1 * SecondsPerDay
  }

  /** `days_ahead` lies in 1..7 and lands on the requested weekday; it is 7 exactly
      when that weekday is today's. */
  lemma DaysAheadCorrect(dayNum: int, current: int)
    requires 0 <= dayNum < 7 && 0 <= current < 7
    ensures 1 <= DaysAhead(dayNum, current) <= 7
    ensures (current + DaysAhead(dayNum, current)) % 7 == dayNum
    ensures DaysAhead(dayNum, current) == 7 <==> dayNum == current
  {
  }

  /** The target date keeps the base time of day. With a day name in the text (the
      first in Monday..Sunday order) it is the next such weekday, one to seven days
      ahead, a full week when it is today; otherwise it is a week ahead for "next week"
      and one day ahead in every other case. */
  lemma {:induction false} FindTargetDateCorrect(base: Stamp, rel: string)
    ensures var t := FindTargetDate(base, rel);
      && TimeOfDay(t) == TimeOfDay(base)
      && (FirstDayNamed(rel, 0).Some? ==>
            && 1 <= Day(t) - Day(base) <= 7
            && Weekday(t) == FirstDayNamed(rel, 0).value
            && (Day(t) - Day(base) == 7 <==> Weekday(base) == FirstDayNamed(rel, 0).value))
      && (FirstDayNamed(rel, 0).None? && Contains(rel, "next week") ==> t == base + 7 * SecondsPerDay)
      && (FirstDayNamed(rel, 0).None? && !Contains(rel, "next week") ==> t == base + 1 * SecondsPerDay)
  {
    match FirstDayNamed(rel, 0)
    case Some(dayNum) =>
      var n := DaysAhead(dayNum, Weekday(base));
      DaysAheadCorrect(dayNum, Weekday(base));
      AddDays(base, n);
      assert (Weekday(base) + n) % 7 == dayNum;
    case None =>
      if Contains(rel, "next week") {
        AddDays(base, 7);
      } else {
        AddDays(base, 1);
      }
  }

  /** The groups of `(\d{1,2}):(\d{2})\s*(am|pm)?` on the lower-cased text. */
  datatype ClockMatch = ClockMatch(hour: nat, minute: nat, period: Option<string>)

  /** The 12-hour to 24-hour conversion of `_calculate_start_time`. */
  function TwentyFourHour(hour: int, period: Option<string>): int {
    if period == Some("pm") && hour != 12 then hour + 12
    else if period == Some("am") && hour == 12 then 0
    else hour
  }

  /** On a 12-hour clock reading the conversion gives the hour of the day: the same
      hour modulo 12, in the afternoon exactly for "pm". Without a period the hour is
      kept. */
  lemma TwentyFourHourCorrect(hour: int, period: Option<string>)
    ensures period.None? ==> TwentyFourHour(hour, period) == hour
    ensures 1 <= hour <= 12 && (period == Some("am") || period == Some("pm")) ==>
      && 0 <= TwentyFourHour(hour, period) < 24
      && TwentyFourHour(hour, period) % 12 == hour % 12
      && (TwentyFourHour(hour, period) >= 12 <==> period == Some("pm"))
  {
  }

  /** The hour field of a time stamp. */
  function Hour(t: Stamp): (h: int)
    ensures 0 <= h < 24
  {
    TimeOfDay(t) / SecondsPerHour
  }

  const DefaultHour: int := 10

  /** `_calculate_start_time(base_datetime, relative_time)`; None is the ValueError that
      `datetime.replace` raises for an hour or a minute out of range. `clock` is the
      time match in the lower-cased relative time, if any. */
  function CalculateStartTime(base: Stamp, rel: string, clock: Option<ClockMatch>): Option<Stamp> {
    var relLower := Lower(rel);
    if rel == [] then
      Some(Replace(base, Hour(base), 0, 0).value + SecondsPerHour)
    else
      match clock
      case Some(c) => Replace(FindTargetDate(base, relLower), TwentyFourHour(c.hour, c.period), c.minute, 0)
      case None => Replace(FindTargetDate(base, relLower), DefaultHour, 0, 0)
  }

  /** `_calculate_meeting_times(base_datetime, duration_minutes, relative_time)`: the
      meeting runs from the computed start for the given minutes, or from the base time
      when the start cannot be computed. */
  function CalculateMeetingTimes(base: Stamp, duration: int, rel: string, clock: Option<ClockMatch>): (w: Span)
    ensures w.end == w.start + duration * SecondsPerMinute
  {
    match CalculateStartTime(base, rel, clock)
    case Some(start) => Span(start, start + duration * SecondsPerMinute)
    case None => Span(base, base + duration * SecondsPerMinute)
  }

  /** With no relative time the meeting starts at the next whole hour after the base
      time's hour: strictly later, at most an hour later, on a whole hour. */
  lemma NoRelativeTimeStartsNextHour(base: Stamp, duration: int, clock: Option<ClockMatch>)
    ensures var w := CalculateMeetingTimes(base, duration, "", clock);
      && base < w.start <= base + SecondsPerHour
      && TimeOfDay(w.start) % SecondsPerHour == 0
  {
    var floor := Replace(base, Hour(base), 0, 0).value;
    var start := floor + SecondsPerHour;
    assert Day(floor) == Day(base);
    assert TimeOfDay(floor) == Hour(base) * SecondsPerHour;
    if Hour(base) < 23 {
      DayOf(Day(base), (Hour(base) + 1) * SecondsPerHour);
    } else {
      DayOf(Day(base) + 1, 0);
    }
  }

  /** With a day but no clock time the meeting starts at 10:00:00 on the target date. */
  lemma DayOnlyStartsAtTen(base: Stamp, duration: int, rel: string)
    requires rel != []
    ensures var w := CalculateMeetingTimes(base, duration, rel, None);
      && Day(w.start) == Day(FindTargetDate(base, Lower(rel)))
      && TimeOfDay(w.start) == DefaultHour * SecondsPerHour
  {
  }

  /** With a clock time the meeting starts at that (converted) hour and minute, second
      zero, on the target date; an hour or minute out of range makes the whole
      computation fall back to the base time. */
  lemma ClockTimeStart(base: Stamp, duration: int, rel: string, c: ClockMatch)
    requires rel != []
    ensures var h := TwentyFourHour(c.hour, c.period);
      var w := CalculateMeetingTimes(base, duration, rel, Some(c));
      && (h < 24 && c.minute < 60 ==>
            Day(w.start) == Day(FindTargetDate(base, Lower(rel)))
            && TimeOfDay(w.start) == h * SecondsPerHour + c.minute * SecondsPerMinute)
      && (!(0 <= h < 24 && c.minute < 60) ==> w == Span(base, base + duration * SecondsPerMinute))
  {
    var h := TwentyFourHour(c.hour, c.period);
    assert h >= 0;
  }

  // ---------------------------------------------------------------------------
  // _fallback_parse

  /** What `_fallback_parse` returns. */
  datatype Parsed = Parsed(durationMinutes: int, relativeTime: string)

  /** The first pattern that matched, in pattern order, or "" when none did. */
  function FirstMatch(matches: seq<Option<string>>): (r: string)
    decreases |matches|
  {
    if matches == [] then ""
    else if matches[0].Some? then matches[0].value
    else FirstMatch(matches[1..])
  }

  /** `_fallback_parse(content)`; `matches[i]` is the first match of the i-th time
      pattern in the lower-cased content. */
  function FallbackParse(content: string, matches: seq<Option<string>>): Parsed {
    var lower := Lower(content);
    var duration :=
      if Contains(content, "60") || Contains(lower, "hour") || Contains(lower, "long") then 60
      else if Contains(content, "30") || Contains(lower, "minutes") then 30
      else 30;
    Parsed(duration, FirstMatch(matches))
  }

  /** The relative time is the earliest pattern's match: empty when no pattern
      matched, otherwise the match of a pattern that no earlier pattern precedes. */
  lemma {:induction false} FirstMatchIsFirst(matches: seq<Option<string>>)
    ensures (forall i | 0 <= i < |matches| :: matches[i].None?) ==> FirstMatch(matches) == ""
    ensures (exists i | 0 <= i < |matches| :: matches[i].Some?) ==>
      exists i | 0 <= i < |matches| ::
        && matches[i].Some? && FirstMatch(matches) == matches[i].value
        && forall j | 0 <= j < i :: matches[j].None?
    decreases |matches|
  {
    if matches != [] {
      FirstMatchIsFirst(matches[1..]);
      if matches[0].None? {
        if exists i | 0 <= i < |matches| :: matches[i].Some? {
          var i :| 0 <= i < |matches| && matches[i].Some?;
          assert matches[1..][i - 1].Some?;
          var i' :| 0 <= i' < |matches[1..]| && matches[1..][i'].Some? && FirstMatch(matches[1..]) == matches[1..][i'].value
            && forall j | 0 <= j < i' :: matches[1..][j].None?;
          assert matches[i' + 1].Some?;
          forall j | 0 <= j < i' + 1 ensures matches[j].None? {
            if j > 0 { assert matches[1..][j - 1].None?; }
          }
        }
      }
    }
  }

  /** The fallback duration is always 30 or 60 minutes. It is 60 exactly when the content
      mentions "60", "hour" or "long" (the words case-insensitively), and 30 otherwise
      whether or not it mentions "30" or "minutes": that branch never changes the
      result. */
  lemma FallbackDuration(content: string, matches: seq<Option<string>>)
    ensures var p := FallbackParse(content, matches);
      && (p.durationMinutes == 30 || p.durationMinutes == 60)
      && (p.durationMinutes == 60 <==> Contains(content, "60") || Contains(Lower(content), "hour") || Contains(Lower(content), "long"))
      && (p.durationMinutes == 30 <==> !(Contains(content, "60") || Contains(Lower(content), "hour") || Contains(Lower(content), "long")))
  {
  }

  /** An occurrence of `sub` in `s` is an occurrence of `sub` lower-cased in `s`
      lower-cased, at the same position. */
  lemma LowerOccursAt(s: string, sub: string, i: int)
    requires OccursAt(s, sub, i)
    ensures OccursAt(Lower(s), Lower(sub), i)
  {
    forall k | 0 <= k < |sub| ensures Lower(s)[i..i + |sub|][k] == Lower(sub)[k] {
      assert s[i..i + |sub|][k] == sub[k];
    }
  }

  /** "hour" or "long" written in any case ("Hour", "LONG", ...) asks for 60 minutes. */
  lemma FallbackAnyCase(content: string, matches: seq<Option<string>>, word: string)
    requires Lower(word) == "hour" || Lower(word) == "long"
    requires Contains(content, word)
    ensures FallbackParse(content, matches).durationMinutes == 60
  {
    var i :| 0 <= i <= |content| - |word| && OccursAt(content, word, i);
    LowerOccursAt(content, word, i);
  }

  // ---------------------------------------------------------------------------
  // The documented example

  /** A request made on Saturday 2025-07-19 at 12:34:55 for a 30-minute meeting on
      "Thursday" is placed on Thursday 2025-07-24 from 10:00:00 to 10:30:00. */
  lemma ThursdayExample()
    ensures CalculateMeetingTimes(CivilStamp(2025, 7, 19, 12, 34, 55), 30, "Thursday", None)
      == Span(CivilStamp(2025, 7, 24, 10, 0, 0), CivilStamp(2025, 7, 24, 10, 30, 0))
  {
    var base := CivilStamp(2025, 7, 19, 12, 34, 55);
    SaturdayBase();
    ThursdayNamed();
    var target := FindTargetDate(base, Lower("Thursday"));
    assert target == base + 5 * SecondsPerDay;
    ThursdayAtTen(target);
  }

  /** 2025-07-19 12:34:55 is a Saturday. */
  lemma SaturdayBase()
    ensures Weekday(CivilStamp(2025, 7, 19, 12, 34, 55)) == 5
  {
    assert DaysFromCivil(2025, 7, 19) == 20288;
    DayOf(20288, 12 * 3600 + 34 * 60 + 55);
  }

  /** Five days after 2025-07-19 12:34:55, at ten o'clock, is 2025-07-24 10:00. */
  lemma ThursdayAtTen(target: Stamp)
    requires target == CivilStamp(2025, 7, 19, 12, 34, 55) + 5 * SecondsPerDay
    ensures Replace(target, DefaultHour, 0, 0) == Some(CivilStamp(2025, 7, 24, 10, 0, 0))
  {
    assert DaysFromCivil(2025, 7, 19) == 20288;
    assert DaysFromCivil(2025, 7, 24) == 20293;
    DayOf(20293, 12 * 3600 + 34 * 60 + 55);
    DayOf(20293, 10 * 3600);
  }

  /** A text whose characters at offset `j` never match `sub[j]` does not contain `sub`. */
  lemma NotContainsAt(s: string, sub: string, j: nat)
    requires j < |sub|
    requires forall i | j <= i <= |s| - |sub| + j :: s[i] != sub[j]
    ensures !Contains(s, sub)
  {
    forall i | 0 <= i <= |s| - |sub| ensures !OccursAt(s, sub, i) {
      assert s[i..i + |sub|][j] == s[i + j];
    }
  }

  /** "Thursday" lower-cased. */
  lemma ThursdayLowered()
    ensures Lower("Thursday") == "thursday"
  {
    var r := Lower("Thursday");
    assert forall i | 0 <= i < 8 :: r[i] == "thursday"[i];
  }

  /** "thursday" contains none of the weekday names before it. */
  lemma NoEarlierDayInThursday()
    ensures !Contains("thursday", "monday")
    ensures !Contains("thursday", "tuesday")
    ensures !Contains("thursday", "wednesday")
  {
    var rel := "thursday";
    NotContainsAt(rel, "monday", 0);
    forall i | 0 <= i <= 1 ensures !OccursAt(rel, "tuesday", i) {
      if i == 0 {
        assert rel[0..7][1] != "tuesday"[1];
      } else {
        assert rel[1..8][0] != "tuesday"[0];
      }
    }
  }

  /** "thursday" names Thursday (index 3) and no earlier weekday. */
  lemma ThursdayNamed()
    ensures Lower("Thursday") == "thursday"
    ensures FirstDayNamed("thursday", 0) == Some(3)
  {
    ThursdayLowered();
    NoEarlierDayInThursday();
    assert OccursAt("thursday", DayNames[3], 0);
  }
}
