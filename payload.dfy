/** The event body `create_calendar_event` hands to the calendar: title with a
    default, a description naming the participants, and start and end instants
    that both carry the user's timezone identifier. */
module Payload {
  import opened Outcomes
  import opened Dates
  import opened Iso
  import opened Resolution

  const DefaultSummary := "Scheduled Event"
  const DescriptionPrefix := "Created by SchedulAI for "
  const Separator := ", "

  /** The fields of an interpreted request that the body is built from. A key missing
      from the request is None; the time is already parsed. */
  datatype EventData = EventData(
    date: string,
    time: TimeOfDay,
    title: Option<string>,
    participants: Option<seq<string>>)

  /** One end of the event: the instant and the timezone identifier it is shown in. */
  datatype EventTime = EventTime(dateTime: Instant, timeZone: string)

  datatype EventBody = EventBody(summary: string, description: string, start: EventTime, end: EventTime)

  /** Total length of the names. */
  function TotalLength(names: seq<string>): nat {
    if names == [] then 0 else |names[0]| + TotalLength(names[1..])
  }

  /** `", ".join(names)`. */
  function JoinNames(names: seq<string>): (s: string)
    ensures names == [] ==> s == ""
    ensures |names| == 1 ==> s == names[0]
  {
    if names == [] then ""
    else if |names| == 1 then names[0]
    else names[0] + Separator + JoinNames(names[1..])
  }

  /** Where the i-th name begins in the joined text: the names before it and one
      separator after each. */
  function NameOffset(names: seq<string>, i: nat): nat
    requires i <= |names|
  {
    TotalLength(names[..i]) + |Separator| * i
  }

  /** The joined text holds every name and one separator between each two. */
  lemma {:induction false} JoinNamesLength(names: seq<string>)
    requires names != []
    ensures |JoinNames(names)| == TotalLength(names) + |Separator| * (|names| - 1)
  {
    if |names| > 1 {
      JoinNamesLength(names[1..]);
    }
  }

  /** Each participant appears in the joined text, at its offset, in the order given. */
  lemma {:induction false} JoinNamesHoldsEach(names: seq<string>, i: nat)
    requires i < |names|
    ensures NameOffset(names, i) + |names[i]| <= |JoinNames(names)|
    ensures JoinNames(names)[NameOffset(names, i)..NameOffset(names, i) + |names[i]|] == names[i]
  {
    var joined := JoinNames(names);
    if |names| == 1 {
      assert names[..0] == [];
    } else if i == 0 {
      assert names[..0] == [];
      assert joined == names[0] + (Separator + JoinNames(names[1..]));
    } else {
      var rest := names[1..];
      JoinNamesHoldsEach(rest, i - 1);
      assert names[..i] == [names[0]] + rest[..i - 1];
      TotalLengthCons(names[0], rest[..i - 1]);
      var head := names[0] + Separator;
      assert joined == head + JoinNames(rest);
      var off := NameOffset(rest, i - 1);
      assert NameOffset(names, i) == |head| + off;
      assert joined[|head| + off..|head| + off + |names[i]|] == JoinNames(rest)[off..off + |names[i]|];
    }
  }

  /** Between each name and the next, the joined text holds exactly the separator. */
  lemma {:induction false} JoinNamesSeparates(names: seq<string>, i: nat)
    requires i + 1 < |names|
    ensures NameOffset(names, i) + |names[i]| + |Separator| == NameOffset(names, i + 1) <= |JoinNames(names)|
    ensures JoinNames(names)[NameOffset(names, i) + |names[i]|..NameOffset(names, i + 1)] == Separator
  {
    var joined := JoinNames(names);
    var rest := names[1..];
    var head := names[0] + Separator;
    assert joined == head + JoinNames(rest);
    if i == 0 {
      assert names[..0] == [];
      assert names[..1] == [names[0]] + [];
      TotalLengthCons(names[0], []);
      assert joined[|names[0]|..|head|] == Separator;
    } else {
      JoinNamesSeparates(rest, i - 1);
      assert names[..i] == [names[0]] + rest[..i - 1];
      assert names[..i + 1] == [names[0]] + rest[..i];
      TotalLengthCons(names[0], rest[..i - 1]);
      TotalLengthCons(names[0], rest[..i]);
      var lo := NameOffset(rest, i - 1) + |rest[i - 1]|;
      var hi := NameOffset(rest, i);
      assert NameOffset(names, i) + |names[i]| == |head| + lo;
      assert NameOffset(names, i + 1) == |head| + hi;
      assert joined[|head| + lo..|head| + hi] == JoinNames(rest)[lo..hi];
    }
  }

  lemma TotalLengthCons(first: string, rest: seq<string>)
    ensures TotalLength([first] + rest) == |first| + TotalLength(rest)
  {
  }

  /** The description: the fixed prefix followed by the participants, comma-joined. */
  function Description(participants: Option<seq<string>>): (s: string)
    ensures |s| >= |DescriptionPrefix| && s[..|DescriptionPrefix|] == DescriptionPrefix
    ensures participants.None? || participants.value == [] ==> s == DescriptionPrefix
    ensures participants.Some? ==> s[|DescriptionPrefix|..] == JoinNames(participants.value)
  {
    DescriptionPrefix + JoinNames(if participants.Some? then participants.value else [])
  }

  /** The body `create_calendar_event(event_data, user_timezone, duration_minutes)` inserts,
      with today's date passed in: the date is corrected first, then combined with the time;
      an end past the last minute of the calendar raises. */
  function BuildEvent(data: EventData, userTimezone: string, duration: int, today: Date): (r: Result<EventBody, DateError>)
    requires ValidTime(data.time) && InRange(today)
    ensures FixPastDateIfNeeded(data.date, today).Err? ==> r == Err(FixPastDateIfNeeded(data.date, today).error)
    ensures FixPastDateIfNeeded(data.date, today).Ok? ==>
      var d := ParseIsoDate(data.date).value;
      var start := ToInstant(DateTime(FixPastDate(d, today).value, data.time));
      (r.Err? <==> !Representable(start + duration)) && (r.Err? ==> r.error == YearOutOfRange)
    ensures r.Ok? ==>
      var d := ParseIsoDate(data.date).value;
      r.value.start.dateTime == ToInstant(DateTime(FixPastDate(d, today).value, data.time))
    ensures r.Ok? ==> r.value.end.dateTime == r.value.start.dateTime + duration
    ensures r.Ok? ==> r.value.start.dateTime / MinutesPerDay >= Ordinal(today)
    ensures r.Ok? ==> r.value.start.timeZone == userTimezone && r.value.end.timeZone == userTimezone
    ensures r.Ok? ==> r.value.summary == (if data.title.Some? then data.title.value else DefaultSummary)
    ensures r.Ok? ==> r.value.description == Description(data.participants)
  {
    var dateStr :- FixPastDateIfNeeded(data.date, today);
    var fixed := FixPastDate(ParseIsoDate(data.date).value, today).value;
    ParseOfFormat(fixed);
    IsoTextIsNoWeekday(dateStr);
    OrdinalMonotone(fixed, today);
    var start := ToInstant(ConvertToDateTime(dateStr, data.time, today).value);
    if !Representable(start + duration) then Err(YearOutOfRange) else
    Ok(EventBody(
      if data.title.Some? then data.title.value else DefaultSummary,
      Description(data.participants),
      EventTime(start, userTimezone),
      EventTime(start + duration, userTimezone)))
  }

  /** An ISO date never spells a weekday name, so the corrected date is read as a date. */
  lemma IsoTextIsNoWeekday(s: string)
    requires IsoShaped(s)
    ensures WeekdayIndex(Lower(s)).None?
  {
  }
}
