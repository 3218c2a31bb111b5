/** Availability: the half-open overlap rule shared by `check_time_conflict`
    and `suggest_next_available_time`, the loop over a day's events, and the
    sweep that looks for the first free window in 15-minute steps. */
module Availability {
  import opened Outcomes
  import opened Dates
  import opened Iso
  import opened Resolution

  /** Minutes between two candidate windows of the sweep. */
  const SlotStep := 15

  /** An existing calendar event as the calendar returns it. An all-day event has no
      `dateTime` on its start or end; an empty `dateTime` counts as absent too. */
  datatype CalendarEvent = CalendarEvent(start: Option<Instant>, end: Option<Instant>)

  /** Both ends carry a `dateTime`; only such events take part in the overlap test. */
  predicate Timed(e: CalendarEvent) {
    e.start.Some? && e.end.Some?
  }

  /** The half-open window [start, end) overlaps the event: it starts before the event
      ends and ends after the event starts, so windows that only touch do not overlap.
      For non-empty intervals, the later of the two starts is then a minute both share. */
  function Overlaps(start: Instant, end: Instant, e: CalendarEvent): (b: bool)
    ensures b ==> Timed(e)
    ensures b && start < end && e.start.value < e.end.value ==>
      var m := if start < e.start.value then e.start.value else start;
      start <= m < end && e.start.value <= m < e.end.value
  {
    Timed(e) && start < e.end.value && end > e.start.value
  }

  /** Conversely, a window and an event that share a minute overlap. */
  lemma SharedMinuteOverlaps(start: Instant, end: Instant, e: CalendarEvent, m: Instant)
    requires Timed(e) && start <= m < end && e.start.value <= m < e.end.value
    ensures Overlaps(start, end, e)
  {
  }

  /** Some event of `events` overlaps the window [start, end). */
  predicate HasConflict(start: Instant, end: Instant, events: seq<CalendarEvent>) {
    exists e :: e in events && Overlaps(start, end, e)
  }

  /** Whether the calendar lists `e` for a query from `timeMin` to `timeMax`: a timed event
      must end after `timeMin` and start before `timeMax`. Events without a `dateTime`
      are passed through; the overlap test ignores them anyway. */
  predicate Listed(e: CalendarEvent, timeMin: Instant, timeMax: Instant) {
    !Timed(e) || (e.end.value > timeMin && e.start.value < timeMax)
  }

  /** `service.events().list(timeMin=..., timeMax=...)` as a filter over the calendar's events. */
  function ListEvents(calendar: seq<CalendarEvent>, timeMin: Instant, timeMax: Instant): (r: seq<CalendarEvent>)
    ensures |r| <= |calendar|
    ensures forall e :: e in r <==> e in calendar && Listed(e, timeMin, timeMax)
  {
    if calendar == [] then []
    else
      (if Listed(calendar[0], timeMin, timeMax) then [calendar[0]] else [])
      + ListEvents(calendar[1..], timeMin, timeMax)
  }

  /** The loop over the fetched events in `check_time_conflict`, and the same loop with
      `break` in `suggest_next_available_time`: true as soon as one event overlaps, false
      when none does. */
  method FindConflict(start: Instant, end: Instant, events: seq<CalendarEvent>) returns (conflict: bool)
    ensures conflict <==> HasConflict(start, end, events)
  {
    for i := 0 to |events|
      invariant forall j :: 0 <= j < i ==> !Overlaps(start, end, events[j])
    {
      if Overlaps(start, end, events[i]) {
        return true;
      }
    }
    return false;
  }

  /** The overlap rule is symmetric: swapping the window and the event gives the same answer. */
  lemma OverlapSymmetric(start: Instant, end: Instant, eventStart: Instant, eventEnd: Instant)
    ensures Overlaps(start, end, CalendarEvent(Some(eventStart), Some(eventEnd)))
            <==> Overlaps(eventStart, eventEnd, CalendarEvent(Some(start), Some(end)))
  {
  }

  /** Back-to-back meetings do not conflict; a minute of overlap does. */
  lemma BackToBackIsFree(day: int)
    ensures var at := (h: int, m: int) => day * MinutesPerDay + h * 60 + m;
            !HasConflict(at(10, 0), at(11, 0), [CalendarEvent(Some(at(11, 0)), Some(at(12, 0)))]) &&
            HasConflict(at(10, 59), at(11, 1), [CalendarEvent(Some(at(10, 0)), Some(at(11, 0)))])
  {
    var at := (h: int, m: int) => day * MinutesPerDay + h * 60 + m;
    var e := CalendarEvent(Some(at(10, 0)), Some(at(11, 0)));
    assert e in [e] && Overlaps(at(10, 59), at(11, 1), e);
  }

  /** Events without a `dateTime` on both ends never cause a conflict, and an empty
      list causes none. */
  lemma UntimedEventsNeverConflict(start: Instant, end: Instant, events: seq<CalendarEvent>)
    requires forall e :: e in events ==> !Timed(e)
    ensures !HasConflict(start, end, events)
    ensures !HasConflict(start, end, [])
  {
  }

  /** Querying exactly the window under test loses no conflicting event: the calendar's
      filter keeps every event that overlaps the window. */
  lemma WindowQueryKeepsConflicts(calendar: seq<CalendarEvent>, start: Instant, end: Instant)
    ensures HasConflict(start, end, ListEvents(calendar, start, end)) <==> HasConflict(start, end, calendar)
  {
  }

  /** Querying the whole day (00:00 to 23:59) loses no conflicting event either, as long
      as the window ends by 23:59. */
  lemma DayQueryKeepsConflicts(calendar: seq<CalendarEvent>, start: Instant, end: Instant)
    requires end <= EndOfDay(start)
    ensures HasConflict(start, end, ListEvents(calendar, StartOfDay(start), EndOfDay(start)))
            <==> HasConflict(start, end, calendar)
  {
  }

  /** A window that runs past 23:59 is not checked against events that start at 23:59 or
      later, because the day query does not return them. */
  lemma DayQueryMissesLateEvent(day: int)
    ensures var start := day * MinutesPerDay + 23 * 60 + 30;
            var late := CalendarEvent(Some(day * MinutesPerDay + 23 * 60 + 59), Some((day + 1) * MinutesPerDay + 30));
            HasConflict(start, start + 60, [late]) &&
            !HasConflict(start, start + 60, ListEvents([late], StartOfDay(start), EndOfDay(start)))
  {
    var start := day * MinutesPerDay + 23 * 60 + 30;
    var late := CalendarEvent(Some(day * MinutesPerDay + 23 * 60 + 59), Some((day + 1) * MinutesPerDay + 30));
    assert start % MinutesPerDay == 23 * 60 + 30;
    assert Overlaps(start, start + 60, late);
    assert ListEvents([late], StartOfDay(start), EndOfDay(start)) == [];
  }

  /** `check_time_conflict(date_str, time_str, duration_minutes)` with today's date and the
      calendar's events passed in: resolve the start, compute the end (which raises when it
      leaves the calendar), fetch the day's events, look for an overlap with [start, end). */
  method CheckTimeConflict(dateStr: string, time: TimeOfDay, duration: int, today: Date,
                           calendar: seq<CalendarEvent>)
    returns (r: Result<bool, DateError>)
    requires ValidTime(time) && InRange(today)
    ensures ConvertToDateTime(dateStr, time, today).Err? ==> r == Err(ConvertToDateTime(dateStr, time, today).error)
    ensures ConvertToDateTime(dateStr, time, today).Ok? ==>
      var start := ToInstant(ConvertToDateTime(dateStr, time, today).value);
      (r.Err? <==> !Representable(start + duration)) && (r.Err? ==> r.error == YearOutOfRange)
    ensures r.Ok? ==>
      var start := ToInstant(ConvertToDateTime(dateStr, time, today).value);
      r.value == HasConflict(start, start + duration, ListEvents(calendar, StartOfDay(start), EndOfDay(start))) &&
      (start + duration <= EndOfDay(start) ==> r.value == HasConflict(start, start + duration, calendar))
  {
    var resolved := ConvertToDateTime(dateStr, time, today);
    if resolved.Err? {
      return Err(resolved.error);
    }
    var start := ToInstant(resolved.value);
    if !Representable(start + duration) {
      return Err(YearOutOfRange);
    }
    var end := start + duration;
    var dayEvents := ListEvents(calendar, StartOfDay(start), EndOfDay(start));
    var conflict := FindConflict(start, end, dayEvents);
    if end <= EndOfDay(start) {
      DayQueryKeepsConflicts(calendar, start, end);
    }
    return Ok(conflict);
  }

  /** The k-th window the sweep tries: `start + 15 * k` minutes. */
  function Candidate(start: Instant, k: nat): Instant {
    start + SlotStep * k
  }

  /** The k-th window ends by 23:59 of the start's day. */
  predicate Fits(start: Instant, duration: int, k: nat) {
    Candidate(start, k) + duration <= EndOfDay(start)
  }

  /** The k-th window overlaps an event of the calendar. */
  predicate Taken(start: Instant, duration: int, calendar: seq<CalendarEvent>, k: nat) {
    HasConflict(Candidate(start, k), Candidate(start, k) + duration, calendar)
  }

  /** The k-th window fits in the day, is free, and every earlier one is taken. */
  ghost predicate FirstFree(start: Instant, duration: int, calendar: seq<CalendarEvent>, k: nat) {
    Fits(start, duration, k) && !Taken(start, duration, calendar, k) &&
    forall j: nat :: j < k ==> Taken(start, duration, calendar, j)
  }

  /** What the sweep may answer: the first free window that fits before 23:59, or None
      when every window that fits is taken. */
  ghost predicate SweepOutcome(start: Instant, duration: int, calendar: seq<CalendarEvent>, slot: Option<Instant>) {
    match slot
    case Some(t) => exists k: nat :: t == Candidate(start, k) && FirstFree(start, duration, calendar, k)
    case None => forall k: nat :: Fits(start, duration, k) ==> Taken(start, duration, calendar, k)
  }

  /** The k-th window overflows: computing its end `now + duration` leaves the calendar,
      or the window fits and is taken and the step `now + 15` leaves it. */
  predicate StepOverflows(start: Instant, duration: int, calendar: seq<CalendarEvent>, k: nat) {
    !Representable(Candidate(start, k) + duration) ||
    (Fits(start, duration, k) && Taken(start, duration, calendar, k) && !Representable(Candidate(start, k + 1)))
  }

  /** The sweep gets as far as the k-th window: every earlier one fits and is taken. */
  ghost predicate Reaches(start: Instant, duration: int, calendar: seq<CalendarEvent>, k: nat) {
    forall j: nat :: j < k ==> Fits(start, duration, j) && Taken(start, duration, calendar, j)
  }

  /** Somewhere on its way the sweep computes an instant past the calendar and raises. */
  ghost predicate SweepOverflows(start: Instant, duration: int, calendar: seq<CalendarEvent>) {
    exists k: nat :: Reaches(start, duration, calendar, k) && StepOverflows(start, duration, calendar, k)
  }

  /** A sweep that stops at window k without overflowing there or before never overflows. */
  lemma NoOverflowBeyond(start: Instant, duration: int, calendar: seq<CalendarEvent>, k: nat)
    requires forall j: nat :: j <= k ==> !StepOverflows(start, duration, calendar, j)
    requires !(Fits(start, duration, k) && Taken(start, duration, calendar, k))
    ensures !SweepOverflows(start, duration, calendar)
  {
    forall m: nat | k < m ensures !Reaches(start, duration, calendar, m) {
      assert !(Fits(start, duration, k) && Taken(start, duration, calendar, k));
    }
  }

  /** The sweep of `suggest_next_available_time` from an already resolved start: query each
      window, return the first without a conflict, step 15 minutes. Each `now + timedelta`
      the loop computes raises when it leaves the calendar. */
  method NextFreeSlot(start: Instant, duration: int, calendar: seq<CalendarEvent>)
    returns (r: Result<Option<Instant>, DateError>)
    ensures r.Err? <==> SweepOverflows(start, duration, calendar)
    ensures r.Err? ==> r.error == YearOutOfRange
    ensures r.Ok? ==> SweepOutcome(start, duration, calendar, r.value)
  {
    var endOfDay := EndOfDay(start);
    var now := start;
    ghost var k: nat := 0;
    if !Representable(now + duration) {
      assert Reaches(start, duration, calendar, 0);
      return Err(YearOutOfRange);
    }
    while now + duration <= endOfDay
      invariant now == Candidate(start, k)
      invariant Representable(now + duration)
      invariant Reaches(start, duration, calendar, k)
      invariant forall j: nat :: j < k ==> !StepOverflows(start, duration, calendar, j)
      decreases endOfDay - duration - now
    {
      var slotEnd := now + duration;
      var events := ListEvents(calendar, now, slotEnd);
      var conflict := FindConflict(now, slotEnd, events);
      WindowQueryKeepsConflicts(calendar, now, slotEnd);
      if !conflict {
        assert FirstFree(start, duration, calendar, k);
        NoOverflowBeyond(start, duration, calendar, k);
        return Ok(Some(now));
      }
      if !Representable(now + SlotStep) {
        return Err(YearOutOfRange);
      }
      now := now + SlotStep;
      k := k + 1;
      if !Representable(now + duration) {
        assert Reaches(start, duration, calendar, k) && StepOverflows(start, duration, calendar, k);
        return Err(YearOutOfRange);
      }
    }
    NoOverflowBeyond(start, duration, calendar, k);
    return Ok(None);
  }

  /** Before the calendar's last day, a sweep with a non-negative duration overflows
      exactly when its very first window already ends past the calendar. */
  lemma SweepOverflowsOnlyAtEnd(start: Instant, duration: int, calendar: seq<CalendarEvent>)
    requires Representable(start) && 0 <= duration
    requires EndOfDay(start) < LastMinute
    ensures SweepOverflows(start, duration, calendar) <==> !Representable(start + duration)
  {
    if !Representable(start + duration) {
      assert Reaches(start, duration, calendar, 0) && StepOverflows(start, duration, calendar, 0);
    } else {
      assert EndOfDay(start) + MinutesPerDay <= LastMinute by {
        assert EndOfDay(start) % MinutesPerDay == LastMinute % MinutesPerDay;
      }
      forall k: nat | Reaches(start, duration, calendar, k)
        ensures !StepOverflows(start, duration, calendar, k)
      {
        if k > 0 {
          assert Fits(start, duration, k - 1);
        }
      }
    }
  }

  /** On 9999-12-31, a day on which every window that fits is taken makes the sweep
      overflow instead of answering None: the first window past 23:59 ends past the calendar. */
  lemma LastDayAllTakenOverflows(start: Instant, duration: int, calendar: seq<CalendarEvent>)
    requires Representable(start) && 0 <= duration
    requires EndOfDay(start) == LastMinute
    requires forall k: nat :: Fits(start, duration, k) ==> Taken(start, duration, calendar, k)
    ensures SweepOverflows(start, duration, calendar)
  {
    var k: nat := if start + duration > LastMinute then 0 else (LastMinute - start - duration) / SlotStep + 1;
    forall j: nat | j < k ensures Fits(start, duration, j) && Taken(start, duration, calendar, j) {
    }
    assert Reaches(start, duration, calendar, k) && StepOverflows(start, duration, calendar, k);
  }

  /** The sweep's answer is determined by the start, the duration and the calendar. */
  lemma SweepOutcomeUnique(start: Instant, duration: int, calendar: seq<CalendarEvent>,
                           a: Option<Instant>, b: Option<Instant>)
    requires SweepOutcome(start, duration, calendar, a)
    requires SweepOutcome(start, duration, calendar, b)
    ensures a == b
  {
  }

  /** None is answered exactly when every window that fits before 23:59 is taken. */
  lemma SweepNoneIffAllTaken(start: Instant, duration: int, calendar: seq<CalendarEvent>,
                             slot: Option<Instant>, k: nat)
    requires SweepOutcome(start, duration, calendar, slot)
    ensures slot.None? && Fits(start, duration, k) ==> Taken(start, duration, calendar, k)
    ensures slot.Some? ==> exists j: nat :: Fits(start, duration, j) && !Taken(start, duration, calendar, j)
  {
  }

  /** A slot found lies on the start's day, at or after the start, and its window ends
      by 23:59. */
  lemma SlotOnStartDay(start: Instant, duration: int, calendar: seq<CalendarEvent>, slot: Option<Instant>)
    requires duration >= 0
    requires SweepOutcome(start, duration, calendar, slot) && slot.Some?
    ensures start <= slot.value && slot.value + duration <= EndOfDay(start)
    ensures StartOfDay(slot.value) == StartOfDay(start)
    ensures (slot.value - start) % SlotStep == 0
  {
  }

  /** When the requested window is free, the sweep answers the requested start itself. */
  lemma FreeStartIsKept(start: Instant, duration: int, calendar: seq<CalendarEvent>, slot: Option<Instant>)
    requires SweepOutcome(start, duration, calendar, slot)
    requires Fits(start, duration, 0) && !Taken(start, duration, calendar, 0)
    ensures slot == Some(start)
  {
  }

  /** Over a day without events, the requested start is answered unchanged. */
  lemma EmptyDayKeepsStart(start: Instant, duration: int, slot: Option<Instant>)
    requires SweepOutcome(start, duration, [], slot)
    requires Fits(start, duration, 0)
    ensures slot == Some(start)
  {
    FreeStartIsKept(start, duration, [], slot);
  }

  /** When even the first window runs past 23:59, the answer is None at once. */
  lemma TooLateIsNone(start: Instant, duration: int, calendar: seq<CalendarEvent>, slot: Option<Instant>)
    requires SweepOutcome(start, duration, calendar, slot)
    requires !Fits(start, duration, 0)
    ensures slot == None
  {
  }

  /** A meeting from 15:00 to 16:00 blocks a one-hour request at 15:00; the sweep
      tries 15:00, 15:15, 15:30, 15:45 and answers 16:00, where the windows touch. */
  lemma BusyAfternoonExample(day: int, slot: Option<Instant>)
    requires var start := day * MinutesPerDay + 15 * 60;
             SweepOutcome(start, 60, [CalendarEvent(Some(start), Some(start + 60))], slot)
    ensures slot == Some(day * MinutesPerDay + 16 * 60)
  {
    var start := day * MinutesPerDay + 15 * 60;
    var meeting := CalendarEvent(Some(start), Some(start + 60));
    var calendar := [meeting];
    assert EndOfDay(start) == day * MinutesPerDay + 23 * 60 + 59 by {
      assert start % MinutesPerDay == 15 * 60;
    }
    forall j: nat | j < 4 ensures Taken(start, 60, calendar, j) {
      assert Overlaps(Candidate(start, j), Candidate(start, j) + 60, meeting);
    }
    assert !Taken(start, 60, calendar, 4) by {
      forall e | e in calendar ensures !Overlaps(Candidate(start, 4), Candidate(start, 4) + 60, e) {
        assert e == meeting;
      }
    }
    assert FirstFree(start, 60, calendar, 4);
    assert SweepOutcome(start, 60, calendar, Some(Candidate(start, 4)));
    SweepOutcomeUnique(start, 60, calendar, slot, Some(Candidate(start, 4)));
  }

  /** Two two-digit numbers joined by a colon. */
  function ColonPair(a: nat, b: nat): (s: string)
    requires a < 100 && b < 100
    ensures |s| == 5 && s[2] == ':' && AllDigits(s[..2]) && AllDigits(s[3..])
    ensures Number(s[..2]) == a && Number(s[3..]) == b
  {
    NumberOfPad(a, 2);
    NumberOfPad(b, 2);
    var s := Pad(a, 2) + ":" + Pad(b, 2);
    assert s[..2] == Pad(a, 2) && s[3..] == Pad(b, 2);
    s
  }

  /** `now.strftime("%H:%M")`: the hour and minute of the local day, two digits each. */
  function ClockText(t: Instant): (s: string)
    ensures |s| == 5 && s[2] == ':' && AllDigits(s[..2]) && AllDigits(s[3..])
    ensures Number(s[..2]) == (t % MinutesPerDay) / 60
    ensures Number(s[3..]) == t % 60
  {
    var m := t % MinutesPerDay;
    assert m % 60 == t % 60 by {
      assert t == (t / MinutesPerDay) * MinutesPerDay + m;
      assert t == ((t / MinutesPerDay) * 24 + m / 60) * 60 + m % 60;
    }
    ColonPair(m / 60, m % 60)
  }

  /** `suggest_next_available_time(date_str, time_str, duration_minutes)` with today's date
      and the calendar's events passed in: the clock time of the first free window, or None. */
  method SuggestNextAvailableTime(dateStr: string, time: TimeOfDay, duration: int, today: Date,
                                  calendar: seq<CalendarEvent>)
    returns (r: Result<Option<string>, DateError>)
    requires ValidTime(time) && InRange(today)
    ensures ConvertToDateTime(dateStr, time, today).Err? ==> r == Err(ConvertToDateTime(dateStr, time, today).error)
    ensures ConvertToDateTime(dateStr, time, today).Ok? ==>
      var start := ToInstant(ConvertToDateTime(dateStr, time, today).value);
      (r.Err? <==> SweepOverflows(start, duration, calendar)) && (r.Err? ==> r.error == YearOutOfRange)
    ensures r.Ok? ==>
      var start := ToInstant(ConvertToDateTime(dateStr, time, today).value);
      exists slot :: SweepOutcome(start, duration, calendar, slot) &&
        r.value == (if slot.Some? then Some(ClockText(slot.value)) else None)
  {
    var resolved := ConvertToDateTime(dateStr, time, today);
    if resolved.Err? {
      return Err(resolved.error);
    }
    var found := NextFreeSlot(ToInstant(resolved.value), duration, calendar);
    if found.Err? {
      return Err(found.error);
    }
    var slot := found.value;
    r := Ok(if slot.Some? then Some(ClockText(slot.value)) else None);
  }
}
