/** Calendar retrieval (get_attendee_events.py): the query window handed to the calendar
    service — from midnight of the proposed start's date to 23:59:59 of the day after
    the proposed end's date, built by editing the date text — and the per-attendee
    calendar dictionary. The calendar service itself is a function parameter. */
module AttendeeFetch {
  import opened Wrappers
  import opened Text
  import opened Calendar

  const LowerSuffix: string := "T00:00:00+05:30"
  const UpperSuffix: string := "T23:59:59+05:30"

  /** The query window, as the two time-stamp strings sent to the calendar service. */
  datatype Bounds = Bounds(lower: string, upper: string)

  /** Why the window cannot be built: the date has fewer than three "-" fields
      (IndexError), or its third field is not an integer (ValueError). */
  datatype FetchError = MissingDayField | BadDayNumber

  /** `s.split("T")[0]`. */
  function DatePart(s: string): (d: string)
    ensures 'T' !in d
  {
    Split(s, 'T')[0]
  }

  /** The date with its third "-" field replaced by that number plus one; the year and
      month are kept and nothing is carried into the month. */
  function DayPlusOne(date: string): Result<string, FetchError> {
    var fields := Split(date, '-');
    if |fields| < 3 then Err(MissingDayField)
    else
      match ParseInt(fields[2])
      case None => Err(BadDayNumber)
      case Some(n) => Ok(Join(fields[2 := IntString(n + 1)], '-'))
  }

  /** The window `get_attendee_events` computes from the proposal's start and end. */
  function FetchBounds(startTime: string, endTime: string): Result<Bounds, FetchError> {
    match DayPlusOne(DatePart(endTime))
    case Err(e) => Err(e)
    case Ok(endDayPlusOne) => Ok(Bounds(DatePart(startTime) + LowerSuffix, endDayPlusOne + UpperSuffix))
  }

  /** A call of the calendar service. */
  datatype Call = Call(user: string, lower: string, upper: string)

  /** `get_attendee_events(proposed_time, user_email)`: one call of the service with the
      computed window. */
  function GetAttendeeEvents(startTime: string, endTime: string, user: string, retrieve: Call -> seq<Event>)
    : Result<seq<Event>, FetchError>
  {
    match FetchBounds(startTime, endTime)
    case Err(e) => Err(e)
    case Ok(b) => Ok(retrieve(Call(user, b.lower, b.upper)))
  }

  /** Joining a non-empty list starts with its first piece. */
  lemma {:induction false} JoinStartsWithHead(parts: seq<string>, sep: char)
    requires |parts| >= 1
    ensures |parts[0]| <= |Join(parts, sep)| && Join(parts, sep)[..|parts[0]|] == parts[0]
  {
  }

  /** The date part is the text before the first "T" of the time stamp. */
  lemma DatePartIsPrefix(s: string)
    ensures |DatePart(s)| <= |s| && s[..|DatePart(s)|] == DatePart(s)
    ensures |DatePart(s)| < |s| ==> s[|DatePart(s)|] == 'T'
  {
    JoinSplit(s, 'T');
    var parts := Split(s, 'T');
    JoinStartsWithHead(parts, 'T');
    if |DatePart(s)| < |s| {
      assert |parts| > 1;
      assert Join(parts, 'T') == parts[0] + ['T'] + Join(parts[1..], 'T');
    }
  }

  /** For a date "year-month-day" whose day parses as n, the upper bound is
      "year-month-(n+1)T23:59:59+05:30": year and month unchanged, no month rollover,
      no zero padding. */
  lemma {:induction false} UpperBoundOfDate(year: string, month: string, day: string, n: int)
    requires '-' !in year && '-' !in month && '-' !in day
    requires ParseInt(day) == Some(n)
    ensures DayPlusOne(year + "-" + month + "-" + day) == Ok(year + "-" + month + "-" + IntString(n + 1))
  {
    var parts := [year, month, day];
    JoinThree(year, month, day);
    SplitJoin(parts, '-');
    JoinThree(year, month, IntString(n + 1));
    assert parts[2 := IntString(n + 1)] == [year, month, IntString(n + 1)];
  }

  /** Three fields joined with "-". */
  lemma JoinThree(a: string, b: string, c: string)
    ensures Join([a, b, c], '-') == a + "-" + b + "-" + c
  {
    var parts := [a, b, c];
    assert Join(parts[2..], '-') == c;
    assert Join(parts[1..], '-') == b + "-" + c;
  }

  /** A "-"-free field never parses as a negative number. */
  lemma DashFreeNonNegative(field: string)
    requires '-' !in field && ParseInt(field).Some?
    ensures ParseInt(field).value >= 0
  {
  }

  /** The window: the lower bound is the start's date at midnight; the computation fails
      exactly when the end date has fewer than three "-" fields or a non-numeric third
      field; otherwise the upper bound's date splits into the end date's fields with the
      third one replaced by its successor. */
  lemma {:induction false} FetchBoundsCorrect(startTime: string, endTime: string)
    ensures var fields := Split(DatePart(endTime), '-');
      && (FetchBounds(startTime, endTime).Ok? <==> |fields| >= 3 && ParseInt(fields[2]).Some?)
      && (FetchBounds(startTime, endTime).Ok? ==>
            && FetchBounds(startTime, endTime).value.lower == DatePart(startTime) + LowerSuffix
            && FetchBounds(startTime, endTime).value.upper == DayPlusOne(DatePart(endTime)).value + UpperSuffix
            && Split(DayPlusOne(DatePart(endTime)).value, '-') == fields[2 := IntString(ParseInt(fields[2]).value + 1)])
  {
    var fields := Split(DatePart(endTime), '-');
    if |fields| >= 3 && ParseInt(fields[2]).Some? {
      var n := ParseInt(fields[2]).value;
      DashFreeNonNegative(fields[2]);
      EditedDaySplits(fields, n);
    }
  }

  /** Writing a non-negative successor into the day field keeps the fields "-"-free, so
      the joined date splits back into them. */
  lemma EditedDaySplits(fields: seq<string>, n: int)
    requires |fields| >= 3 && n >= 0
    requires forall k | 0 <= k < |fields| :: '-' !in fields[k]
    ensures Split(Join(fields[2 := IntString(n + 1)], '-'), '-') == fields[2 := IntString(n + 1)]
  {
    var edited := fields[2 := IntString(n + 1)];
    forall k | 0 <= k < |edited| ensures '-' !in edited[k] {
      if k == 2 {
        assert AllDigits(IntString(n + 1));
      }
    }
    SplitJoin(edited, '-');
  }

  /** The first piece of "a<sep>b" is a when a holds no separator. */
  lemma {:induction false} SplitHead(a: string, b: string, sep: char)
    requires sep !in a
    ensures Split(a + [sep] + b, sep)[0] == a
    decreases |a|
  {
    var s := a + [sep] + b;
    if a != [] {
      SplitHead(a[1..], b, sep);
      assert s[1..] == a[1..] + [sep] + b;
      assert [a[0]] + a[1..] == a;
    } else {
      assert s[1..] == b;
    }
  }

  /** The date part of "dateTtime" when the date has no "T". */
  lemma DatePartOf(date: string, time: string)
    requires 'T' !in date
    ensures DatePart(date + "T" + time) == date
  {
    SplitHead(date, time, 'T');
  }

  /** A numeral parses to its value. */
  lemma TwoDigits(s: string, v: int)
    requires |s| == 2 && IsDigit(s[0]) && IsDigit(s[1])
    requires v == 10 * (s[0] as int - '0' as int) + (s[1] as int - '0' as int)
    ensures ParseInt(s) == Some(v)
  {
    assert AllDigits(s);
    var head := s[..1];
    assert head[..0] == [] && head[0] == s[0];
    assert DigitsValue(head) == s[0] as int - '0' as int;
  }

  /** The month is never rolled over: the 31st of any month queries up to the "32nd". */
  lemma NoMonthRollover(year: string, month: string)
    requires '-' !in year && '-' !in month
    ensures DayPlusOne(year + "-" + month + "-" + "31") == Ok(year + "-" + month + "-" + "32")
  {
    TwoDigits("31", 31);
    UpperBoundOfDate(year, month, "31", 31);
    assert IntString(32) == "32";
  }

  /** The new day is not zero-padded: the 5th queries up to the "6th", written "6". */
  lemma NoZeroPadding(year: string, month: string)
    requires '-' !in year && '-' !in month
    ensures DayPlusOne(year + "-" + month + "-" + "05") == Ok(year + "-" + month + "-" + "6")
  {
    TwoDigits("05", 5);
    UpperBoundOfDate(year, month, "05", 5);
    assert IntString(6) == "6";
  }

  // ---------------------------------------------------------------------------
  // get_all_attendee_events

  /** The queried emails: the sender, then every listed attendee, repeats included. */
  function QueriedEmails(req: Request): seq<string> {
    [req.from] + req.attendees
  }

  /** The dictionary after storing the service's answer for each email in turn. */
  function Collect(s: Snapshot, emails: seq<string>, b: Bounds, retrieve: Call -> seq<Event>): Snapshot
    decreases |emails|
  {
    if emails == [] then s
    else
      var n := |emails| - 1;
      Put(Collect(s, emails[..n], b, retrieve), emails[n], retrieve(Call(emails[n], b.lower, b.upper)))
  }

  /** The dictionary `get_all_attendee_events(proposed_time, input_request)` returns. */
  function AllAttendeeEvents(startTime: string, endTime: string, req: Request, retrieve: Call -> seq<Event>)
    : Result<Snapshot, FetchError>
  {
    match FetchBounds(startTime, endTime)
    case Err(e) => Err(e)
    case Ok(b) => Ok(Collect([], QueriedEmails(req), b, retrieve))
  }

  /** The service calls made for a list of emails: one per email, in order, all with the
      same window. */
  function CallsFor(emails: seq<string>, b: Bounds): (r: seq<Call>)
    ensures |r| == |emails|
    ensures forall k | 0 <= k < |emails| :: r[k] == Call(emails[k], b.lower, b.upper)
  {
    seq(|emails|, k requires 0 <= k < |emails| => Call(emails[k], b.lower, b.upper))
  }

  /** `get_all_attendee_events(proposed_time, input_request)`; `calls` lists the calls
      made to the calendar service, in order. */
  method GetAllAttendeeEvents(startTime: string, endTime: string, req: Request, retrieve: Call -> seq<Event>)
    returns (r: Result<Snapshot, FetchError>, calls: seq<Call>)
    ensures r == AllAttendeeEvents(startTime, endTime, req, retrieve)
    ensures r.Ok? ==> calls == CallsFor(QueriedEmails(req), FetchBounds(startTime, endTime).value)
    ensures r.Err? ==> calls == []
  {
    var events: Snapshot := [];
    calls := [];
    var bounds := FetchBounds(startTime, endTime);
    if bounds.Err? {
      return Err(bounds.error), calls;
    }
    var b := bounds.value;
    var emails := QueriedEmails(req);
    var fromEmail := req.from;
    var fromEvents := GetAttendeeEvents(startTime, endTime, fromEmail, retrieve);
    calls := calls + [Call(fromEmail, b.lower, b.upper)];
    events := Put(events, fromEmail, fromEvents.value);
    CollectPrefixStep([], emails, 0, b, retrieve);
    CallsForPrefixStep(emails, 0, b);
    assert emails[..0] == [];
    for k := 0 to |req.attendees|
      invariant events == Collect([], emails[..k + 1], b, retrieve)
      invariant calls == CallsFor(emails[..k + 1], b)
    {
      var userEmail := req.attendees[k];
      assert emails[k + 1] == userEmail;
      var userEvents := GetAttendeeEvents(startTime, endTime, userEmail, retrieve);
      calls := calls + [Call(userEmail, b.lower, b.upper)];
      events := Put(events, userEmail, userEvents.value);
      CollectPrefixStep([], emails, k + 1, b, retrieve);
      CallsForPrefixStep(emails, k + 1, b);
    }
    assert emails[..|req.attendees| + 1] == emails;
    r := Ok(events);
  }

  /** Storing the answers for one more email of the list is one `Put`. */
  lemma CollectPrefixStep(s: Snapshot, emails: seq<string>, i: int, b: Bounds, retrieve: Call -> seq<Event>)
    requires 0 <= i < |emails|
    ensures Collect(s, emails[..i + 1], b, retrieve)
      == Put(Collect(s, emails[..i], b, retrieve), emails[i], retrieve(Call(emails[i], b.lower, b.upper)))
  {
    assert emails[..i + 1][..i] == emails[..i];
  }

  /** Querying one more email of the list makes one more call. */
  lemma CallsForPrefixStep(emails: seq<string>, i: int, b: Bounds)
    requires 0 <= i < |emails|
    ensures CallsFor(emails[..i + 1], b) == CallsFor(emails[..i], b) + [Call(emails[i], b.lower, b.upper)]
  {
  }

  /** After storing a list of answers every listed email holds the service's answer for
      it, every other email keeps what it had, and the keys are the old ones plus the
      listed emails. */
  lemma {:induction false} CollectCorrect(s: Snapshot, emails: seq<string>, b: Bounds, retrieve: Call -> seq<Event>, email: string)
    ensures email in emails ==> Get(Collect(s, emails, b, retrieve), email) == Some(retrieve(Call(email, b.lower, b.upper)))
    ensures email !in emails ==> Get(Collect(s, emails, b, retrieve), email) == Get(s, email)
    ensures Emails(Collect(s, emails, b, retrieve)) == Emails(s) + set e | e in emails
    decreases |emails|
  {
    if emails != [] {
      var n := |emails| - 1;
      CollectCorrect(s, emails[..n], b, retrieve, email);
      assert emails == emails[..n] + [emails[n]];
    }
  }

  /** Storing answers keeps the keys distinct. */
  lemma {:induction false} CollectDistinct(s: Snapshot, emails: seq<string>, b: Bounds, retrieve: Call -> seq<Event>)
    requires DistinctEmails(s)
    ensures DistinctEmails(Collect(s, emails, b, retrieve))
    decreases |emails|
  {
    if emails != [] {
      var n := |emails| - 1;
      CollectDistinct(s, emails[..n], b, retrieve);
      PutDistinct(Collect(s, emails[..n], b, retrieve), emails[n], retrieve(Call(emails[n], b.lower, b.upper)));
    }
  }

  lemma {:induction false} PutDistinct(s: Snapshot, email: string, events: seq<Event>)
    requires DistinctEmails(s)
    ensures DistinctEmails(Put(s, email, events))
    decreases |s|
  {
    if s != [] && s[0].email != email {
      PutDistinct(s[1..], email, events);
      var rest := Put(s[1..], email, events);
      assert s[0].email !in Emails(s[1..]) by {
        forall i | 0 <= i < |s[1..]| ensures s[1..][i].email != s[0].email {
        }
        EmailsIndex(s[1..], s[0].email);
      }
      EmailsIndex(rest, s[0].email);
    }
  }

  /** An email is a key exactly when some entry holds it. */
  lemma {:induction false} EmailsIndex(s: Snapshot, email: string)
    ensures email in Emails(s) <==> exists i | 0 <= i < |s| :: s[i].email == email
    decreases |s|
  {
    if s != [] {
      EmailsIndex(s[1..], email);
      if exists i | 0 <= i < |s[1..]| :: s[1..][i].email == email {
        var i :| 0 <= i < |s[1..]| && s[1..][i].email == email;
        assert s[i + 1].email == email;
      }
      if exists i | 1 <= i < |s| :: s[i].email == email {
        var i :| 1 <= i < |s| && s[i].email == email;
        assert s[1..][i - 1].email == email;
      }
    }
  }

  /** The queried emails, as a set, are the sender and the attendees. */
  lemma QueriedEmailSet(req: Request)
    ensures (set e | e in QueriedEmails(req)) == {req.from} + set e | e in req.attendees
  {
    var emails := QueriedEmails(req);
    forall e | e in emails ensures e == req.from || e in req.attendees {
      var k :| 0 <= k < |emails| && emails[k] == e;
      if k > 0 { assert e == req.attendees[k - 1]; }
    }
    forall e | e in req.attendees ensures e in emails {
      var k :| 0 <= k < |req.attendees| && req.attendees[k] == e;
      assert emails[k + 1] == e;
    }
    assert emails[0] == req.from;
  }

  /** The fetched dictionary has one entry per distinct email, keyed by exactly the
      sender and the listed attendees, each holding the service's answer for the
      common window. */
  lemma AllAttendeeEventsCorrect(startTime: string, endTime: string, req: Request, retrieve: Call -> seq<Event>, email: string)
    requires FetchBounds(startTime, endTime).Ok?
    ensures var r := AllAttendeeEvents(startTime, endTime, req, retrieve);
      var b := FetchBounds(startTime, endTime).value;
      && r.Ok?
      && Emails(r.value) == {req.from} + set e | e in req.attendees
      && DistinctEmails(r.value)
      && (email == req.from || email in req.attendees ==> Get(r.value, email) == Some(retrieve(Call(email, b.lower, b.upper))))
      && (email != req.from && email !in req.attendees ==> Get(r.value, email) == None)
  {
    var b := FetchBounds(startTime, endTime).value;
    var emails := QueriedEmails(req);
    CollectCorrect([], emails, b, retrieve, email);
    CollectDistinct([], emails, b, retrieve);
    QueriedEmailSet(req);
  }
}
