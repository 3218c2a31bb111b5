/** Turning the date text of a request into a date: weekday names resolve to
    their next occurrence after today, anything else is read as `YYYY-MM-DD`,
    and a date in the past is moved forward a year at a time
    (`convert_to_datetime` and `fix_past_date_if_needed`). */
module Resolution {
  import opened Outcomes
  import opened Dates
  import opened Iso

  /** The names `convert_to_datetime` recognises, indexed as `date.weekday()` counts. */
  const WeekdayNames: seq<string> :=
    ["monday", "tuesday", "wednesday", "thursday", "friday", "saturday", "sunday"]

  function LowerChar(c: char): char {
    if 'A' <= c <= 'Z' then (c as int - 'A' as int + 'a' as int) as char else c
  }

  /** `str.lower()` on the letters that can spell a weekday name: no upper-case letter
      remains, and every other character is kept. */
  function Lower(s: string): (r: string)
    ensures |r| == |s|
    ensures forall i :: 0 <= i < |r| ==> !('A' <= r[i] <= 'Z')
    ensures forall i :: 0 <= i < |s| && !('A' <= s[i] <= 'Z') ==> r[i] == s[i]
    ensures forall i :: 0 <= i < |s| && 'A' <= s[i] <= 'Z' ==> r[i] as int - s[i] as int == 'a' as int - 'A' as int
  {
    seq(|s|, i requires 0 <= i < |s| => LowerChar(s[i]))
  }

  /** Lower-casing twice is lower-casing once. */
  lemma LowerIdempotent(s: string)
    ensures Lower(Lower(s)) == Lower(s)
  {
    assert forall i :: 0 <= i < |s| ==> Lower(Lower(s))[i] == Lower(s)[i];
  }

  /** `weekdays.index(s)` when `s in weekdays`, and None otherwise. */
  function WeekdayIndex(s: string): (r: Option<int>)
    ensures r.Some? <==> s in WeekdayNames
    ensures r.Some? ==> 0 <= r.value < 7 && WeekdayNames[r.value] == s
  {
    if s == "monday" then Some(0)
    else if s == "tuesday" then Some(1)
    else if s == "wednesday" then Some(2)
    else if s == "thursday" then Some(3)
    else if s == "friday" then Some(4)
    else if s == "saturday" then Some(5)
    else if s == "sunday" then Some(6)
    else None
  }

  /** Days from a day with weekday `todayWeekday` to the next day with weekday `target`,
      never zero: a request for today's weekday means the same day next week. */
  function DaysAhead(todayWeekday: int, target: int): (n: int)
    requires 0 <= todayWeekday < 7 && 0 <= target < 7
    ensures 1 <= n <= 7
    ensures (todayWeekday + n) % 7 == target
  {
    var n := target - todayWeekday;
    if n <= 0 then n + 7 else n
  }

  /** No day strictly between today and the resolved day has the target weekday. */
  lemma DaysAheadIsLeast(todayWeekday: int, target: int, j: int)
    requires 0 <= todayWeekday < 7 && 0 <= target < 7
    requires 1 <= j < DaysAhead(todayWeekday, target)
    ensures (todayWeekday + j) % 7 != target
  {
  }

  /** A weekday name typed in any mixture of upper and lower case is recognised. */
  lemma AnyCaseResolves(s: string, target: int)
    requires 0 <= target < 7
    requires |s| == |WeekdayNames[target]|
    requires forall i :: 0 <= i < |s| ==> LowerChar(s[i]) == WeekdayNames[target][i]
    ensures WeekdayIndex(Lower(s)) == Some(target)
  {
    assert Lower(s) == WeekdayNames[target];
  }

  /** The weekday branch of `convert_to_datetime`: `today + timedelta(days=days_ahead)`,
      which overflows past 9999-12-31. */
  function NextWeekday(today: Date, target: int): (r: Result<Date, DateError>)
    requires InRange(today) && 0 <= target < 7
    ensures r.Ok? ==> InRange(r.value)
    ensures r.Ok? ==> Before(today, r.value)
    ensures r.Ok? ==> Ordinal(r.value) - Ordinal(today) == DaysAhead(Weekday(today), target)
    ensures r.Err? ==> r.error == YearOutOfRange && today.year == MaxYear
    ensures r.Err? <==> Ordinal(today) + DaysAhead(Weekday(today), target) > Ordinal(Date(MaxYear, 12, 31))
  {
    var ahead := DaysAhead(Weekday(today), target);
    var date := Forward(today, ahead);
    OrdinalMonotone(today, date);
    OrdinalMonotone(date, Date(MaxYear, 12, 31));
    YearAfterShortStep(today, date);
    if date.year > MaxYear then Err(YearOutOfRange) else Ok(date)
  }

  /** A day `n` days after today, where today's weekday plus `n` is the target modulo 7,
      has the target weekday. */
  lemma LandsOnTarget(today: Date, e: Date, n: int, target: int)
    requires WellFormed(today) && WellFormed(e)
    requires Ordinal(e) == Ordinal(today) + n && (Weekday(today) + n) % 7 == target
    ensures Weekday(e) == target
  {
    WeekdayOfOrdinals(today, e, n);
  }

  /** The resolved day has the requested weekday. */
  lemma NextWeekdayLands(today: Date, target: int)
    requires InRange(today) && 0 <= target < 7
    requires NextWeekday(today, target).Ok?
    ensures Weekday(NextWeekday(today, target).value) == target
  {
    var ahead := DaysAhead(Weekday(today), target);
    LandsOnTarget(today, NextWeekday(today, target).value, ahead, target);
  }

  /** The resolved day is the first day after today with the target weekday: every
      day in between has another weekday. */
  lemma NextWeekdayIsNext(today: Date, target: int, e: Date)
    requires InRange(today) && 0 <= target < 7 && WellFormed(e)
    requires Ordinal(today) < Ordinal(e) < Ordinal(today) + DaysAhead(Weekday(today), target)
    ensures Weekday(e) != target
  {
    var w := Weekday(today);
    var j := Ordinal(e) - Ordinal(today);
    DaysAheadIsLeast(w, target, j);
    WeekdayOfOrdinals(today, e, j);
  }

  /** `convert_to_datetime(date_str, time_str)` with today's date passed in and the
      time already parsed: the next occurrence of a named weekday, or the ISO date. */
  function ConvertToDateTime(dateStr: string, time: TimeOfDay, today: Date): (r: Result<DateTime, DateError>)
    requires InRange(today)
    ensures r.Ok? ==> InRange(r.value.date) && r.value.time == time
    ensures WeekdayIndex(Lower(dateStr)).Some? ==>
      (r.Ok? <==> NextWeekday(today, WeekdayIndex(Lower(dateStr)).value).Ok?) &&
      (r.Ok? ==> r.value.date == NextWeekday(today, WeekdayIndex(Lower(dateStr)).value).value)
    ensures WeekdayIndex(Lower(dateStr)).None? ==>
      (r.Ok? <==> ParseIsoDate(dateStr).Ok?) &&
      (r.Ok? ==> r.value.date == ParseIsoDate(dateStr).value)
    ensures r.Err? ==> r.error == (if WeekdayIndex(Lower(dateStr)).Some? then YearOutOfRange else MalformedDate)
  {
    match WeekdayIndex(Lower(dateStr))
    case Some(target) =>
      var date :- NextWeekday(today, target);
      Ok(DateTime(date, time))
    case None =>
      var date :- ParseIsoDate(dateStr);
      Ok(DateTime(date, time))
  }

  /** `date.replace(year=y)`: the year is checked first, then the day against the month. */
  function ReplaceYear(d: Date, y: int): (r: Result<Date, DateError>)
    requires InRange(d)
    ensures r.Ok? ==> InRange(r.value) && r.value == Date(y, d.month, d.day)
    ensures r.Err? ==> (r.error == YearOutOfRange <==> !(MinYear <= y <= MaxYear))
    ensures r.Err? ==> r.error == YearOutOfRange || (d.month == 2 && d.day == 29 && !IsLeap(y))
    ensures r.Err? && r.error != YearOutOfRange ==> r.error == DayOutOfRange
  {
    if !(MinYear <= y <= MaxYear) then Err(YearOutOfRange)
    else if d.day > DaysInMonth(y, d.month) then Err(DayOutOfRange)
    else Ok(Date(y, d.month, d.day))
  }

  /** The date-level core of `fix_past_date_if_needed`: a stale year becomes the current
      one, and a date still before today moves to the following year. */
  function FixPastDate(d: Date, today: Date): (r: Result<Date, DateError>)
    requires InRange(d) && InRange(today)
    ensures r.Ok? ==> InRange(r.value)
    ensures r.Ok? ==> r.value.month == d.month && r.value.day == d.day
    ensures r.Ok? ==> !Before(r.value, d) && !Before(r.value, today)
    ensures r.Ok? ==> d.year <= r.value.year <= (if d.year < today.year then today.year else d.year) + 1
    ensures !Before(d, today) ==> r == Ok(d)
    ensures r.Err? ==> (d.month == 2 && d.day == 29) || today.year == MaxYear
    ensures r.Ok? && r.value.year > d.year ==> Before(Date(r.value.year - 1, d.month, d.day), today)
    ensures r.Err? <==>
      (d.year < today.year && d.month == 2 && d.day == 29 && !IsLeap(today.year)) ||
      (var c := if d.year < today.year then Date(today.year, d.month, d.day) else d;
       Before(c, today) && (c.year == MaxYear || (c.month == 2 && c.day == 29 && !IsLeap(c.year + 1))))
  {
    var current :- if d.year < today.year then ReplaceYear(d, today.year) else Ok(d);
    if Before(current, today) then ReplaceYear(current, current.year + 1) else Ok(current)
  }

  /** Correcting a corrected date changes nothing. */
  lemma FixPastDateIdempotent(d: Date, today: Date)
    requires InRange(d) && InRange(today)
    requires FixPastDate(d, today).Ok?
    ensures FixPastDate(FixPastDate(d, today).value, today) == FixPastDate(d, today)
  {
  }

  /** `fix_past_date_if_needed(date_str)` with today's date passed in: read the
      `YYYY-MM-DD` text, correct it, and write it back in the same form. */
  function FixPastDateIfNeeded(dateStr: string, today: Date): (r: Result<string, DateError>)
    requires InRange(today)
    ensures r.Ok? <==> ParseIsoDate(dateStr).Ok? && FixPastDate(ParseIsoDate(dateStr).value, today).Ok?
    ensures r.Ok? ==> IsoShaped(r.value)
  {
    var d :- ParseIsoDate(dateStr);
    var fixed :- FixPastDate(d, today);
    Ok(IsoFormat(fixed))
  }

  /** The text form keeps the date-level promises: the result reads back as a date
      with the same month and day, no earlier than the input and no earlier than today. */
  lemma FixPastDateIfNeededReadsBack(dateStr: string, today: Date)
    requires InRange(today)
    requires FixPastDateIfNeeded(dateStr, today).Ok?
    ensures ParseIsoDate(FixPastDateIfNeeded(dateStr, today).value).Ok?
    ensures var d := ParseIsoDate(dateStr).value;
            var e := ParseIsoDate(FixPastDateIfNeeded(dateStr, today).value).value;
            e == FixPastDate(d, today).value &&
            e.month == d.month && e.day == d.day && !Before(e, d) && !Before(e, today)
  {
    ParseOfFormat(FixPastDate(ParseIsoDate(dateStr).value, today).value);
  }

  /** Applying `fix_past_date_if_needed` to its own output returns that output. */
  lemma FixPastDateIfNeededIdempotent(dateStr: string, today: Date)
    requires InRange(today)
    requires FixPastDateIfNeeded(dateStr, today).Ok?
    ensures FixPastDateIfNeeded(FixPastDateIfNeeded(dateStr, today).value, today)
            == FixPastDateIfNeeded(dateStr, today)
  {
    var e := FixPastDate(ParseIsoDate(dateStr).value, today).value;
    ParseOfFormat(e);
  }

  /** A date given with a past year moves into the current year when that day is
      still ahead this year. */
  lemma StaleYearExample()
    ensures FixPastDate(Date(2023, 1, 5), Date(2025, 1, 3)) == Ok(Date(2025, 1, 5))
  {
    assert ReplaceYear(Date(2023, 1, 5), 2025) == Ok(Date(2025, 1, 5));
  }

  /** A date given with a past year whose day has already gone by this year moves to
      the next year. */
  lemma StaleYearPassedExample()
    ensures FixPastDate(Date(2023, 1, 5), Date(2025, 3, 10)) == Ok(Date(2026, 1, 5))
  {
    assert ReplaceYear(Date(2023, 1, 5), 2025) == Ok(Date(2025, 1, 5));
    assert ReplaceYear(Date(2025, 1, 5), 2026) == Ok(Date(2026, 1, 5));
  }

  /** 29 February moved into a common year does not exist: `replace` raises. */
  lemma LeapDayExample()
    ensures FixPastDate(Date(2024, 2, 29), Date(2026, 10, 15)) == Err(DayOutOfRange)
  {
    assert ReplaceYear(Date(2024, 2, 29), 2026) == Err(DayOutOfRange);
  }
}
