/** Naive local date-times as whole seconds after 1970-01-01T00:00:00.
    Every timestamp the scheduler handles carries the same fixed "+05:30" offset, which
    the source strips before comparing, so plain integers order them correctly. */
module Clock {
  import opened Wrappers

  const SecondsPerMinute: int := 60
  const SecondsPerHour: int := 3600
  const SecondsPerDay: int := 86400

  type Stamp = int

  /** Days since 1970-01-01 (floor division, as Python's datetime counts them). */
  function Day(t: Stamp): int {
    t / SecondsPerDay
  }

  function TimeOfDay(t: Stamp): (r: int)
    ensures 0 <= r < SecondsPerDay
    ensures t == Day(t) * SecondsPerDay + r
  {
    t % SecondsPerDay
  }

  /** `datetime.weekday()`: Monday is 0 and Sunday is 6; 1970-01-01 was a Thursday. */
  function Weekday(t: Stamp): (w: int)
    ensures 0 <= w < 7
  {
    (Day(t) + 3) % 7
  }

  /** Whole days later keep the time of day and shift the weekday. */
  lemma AddDays(t: Stamp, n: int)
    ensures Day(t + n * SecondsPerDay) == Day(t) + n
    ensures TimeOfDay(t + n * SecondsPerDay) == TimeOfDay(t)
    ensures Weekday(t + n * SecondsPerDay) == (Weekday(t) + n) % 7
  {
    var q := Day(t);
    var r := TimeOfDay(t);
    assert t + n * SecondsPerDay == (q + n) * SecondsPerDay + r;
  }

  /** `datetime.replace(hour=, minute=, second=)`: same day, new clock time; a field out
      of range raises ValueError, modelled as None. */
  function Replace(t: Stamp, hour: int, minute: int, second: int): (r: Option<Stamp>)
    ensures r.Some? <==> 0 <= hour < 24 && 0 <= minute < 60 && 0 <= second < 60
    ensures r.Some? ==> Day(r.value) == Day(t)
    ensures r.Some? ==> TimeOfDay(r.value) == hour * SecondsPerHour + minute * SecondsPerMinute + second
  {
    if 0 <= hour < 24 && 0 <= minute < 60 && 0 <= second < 60 then
      var r := Day(t) * SecondsPerDay + hour * SecondsPerHour + minute * SecondsPerMinute + second;
      DayOf(Day(t), hour * SecondsPerHour + minute * SecondsPerMinute + second);
      Some(r)
    else None
  }

  lemma DayOf(d: int, s: int)
    requires 0 <= s < SecondsPerDay
    ensures Day(d * SecondsPerDay + s) == d
    ensures TimeOfDay(d * SecondsPerDay + s) == s
  {
  }

  /** Days from 1970-01-01 to the proleptic Gregorian date y-m-d (H. Hinnant's algorithm). */
  function DaysFromCivil(y: int, m: int, d: int): int
    requires 1 <= m <= 12 && 1 <= d <= 31
  {
    var y' := if m <= 2 then y - 1 else y;
    var era := y' / 400;
    var yoe := y' - era * 400;
    var doy := (153 * (if m > 2 then m - 3 else m + 9) + 2) / 5 + d - 1;
    var doe := yoe * 365 + yoe / 4 - yoe / 100 + doy;
    era * 146097 + doe - 719468
  }

  function CivilStamp(y: int, mo: int, d: int, h: int, mi: int, s: int): Stamp
    requires 1 <= mo <= 12 && 1 <= d <= 31
  {
    DaysFromCivil(y, mo, d) * SecondsPerDay + h * SecondsPerHour + mi * SecondsPerMinute + s
  }
}
