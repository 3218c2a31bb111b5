/** Calendar arithmetic of Python's `datetime` module, restricted to what the
    scheduling helpers use: proleptic Gregorian dates, day ordinals, weekdays,
    adding days, and instants counted in minutes of one fixed local zone. */
module Dates {

  const MinYear := 1
  const MaxYear := 9999
  const MinutesPerDay := 1440

  /** A calendar date; `WellFormed` and `InRange` say when it is a real one. */
  datatype Date = Date(year: int, month: int, day: int)

  /** A time of day with minute precision (seconds are always zero here). */
  datatype TimeOfDay = TimeOfDay(hour: int, minute: int)

  /** A date combined with a time of day, in the user's local zone. */
  datatype DateTime = DateTime(date: Date, time: TimeOfDay)

  /** Minutes since the start of ordinal day 0, in one fixed local zone. */
  type Instant = int

  /** The errors the date helpers raise (all `ValueError`/`OverflowError` in Python). */
  datatype DateError =
    | MalformedDate    // the text is neither a weekday name nor a YYYY-MM-DD date
    | DayOutOfRange    // the day does not exist in the month (29 February of a common year)
    | YearOutOfRange   // the year would leave 1..9999

  predicate IsLeap(y: int) {
    y % 4 == 0 && (y % 100 != 0 || y % 400 == 0)
  }

  function DaysInMonth(y: int, m: int): (n: int)
    requires 1 <= m <= 12
    ensures 28 <= n <= 31
    ensures n == 29 <==> m == 2 && IsLeap(y)
  {
    if m == 2 then (if IsLeap(y) then 29 else 28)
    else if m == 4 || m == 6 || m == 9 || m == 11 then 30
    else 31
  }

  /** A proleptic Gregorian date from year 1 on, with no upper bound on the year. */
  predicate WellFormed(d: Date) {
    MinYear <= d.year && 1 <= d.month <= 12 && 1 <= d.day <= DaysInMonth(d.year, d.month)
  }

  /** A date Python's `date` type can hold: years 1 to 9999. */
  predicate InRange(d: Date) {
    WellFormed(d) && d.year <= MaxYear
  }

  predicate ValidTime(t: TimeOfDay) {
    0 <= t.hour < 24 && 0 <= t.minute < 60
  }

  /** Python's `date.__lt__`: year, then month, then day. */
  predicate Before(a: Date, b: Date) {
    a.year < b.year ||
    (a.year == b.year && (a.month < b.month || (a.month == b.month && a.day < b.day)))
  }

  /** Days in the years before `y` (Python's `_days_before_year`). */
  function DaysBeforeYear(y: int): (n: int)
    requires y >= MinYear
    ensures n >= 0
  {
    var a := y - 1;
    a * 365 + a / 4 - a / 100 + a / 400
  }

  /** Days in the months of year `y` before month `m` (Python's `_days_before_month`). */
  function DaysBeforeMonth(y: int, m: int): (n: int)
    requires 1 <= m <= 12
    ensures 0 <= n <= 335
  {
    var common :=
      if m == 1 then 0 else if m == 2 then 31 else if m == 3 then 59
      else if m == 4 then 90 else if m == 5 then 120 else if m == 6 then 151
      else if m == 7 then 181 else if m == 8 then 212 else if m == 9 then 243
      else if m == 10 then 273 else if m == 11 then 304 else 334;
    common + (if m > 2 && IsLeap(y) then 1 else 0)
  }

  function DaysInYear(y: int): int {
    if IsLeap(y) then 366 else 365
  }

  /** Python's `date.toordinal()`: 0001-01-01 is day 1. */
  function Ordinal(d: Date): (n: int)
    requires WellFormed(d)
    ensures n >= 1
  {
    DaysBeforeYear(d.year) + DaysBeforeMonth(d.year, d.month) + d.day
  }

  /** Python's `date.weekday()`: Monday is 0, Sunday is 6. */
  function Weekday(d: Date): (w: int)
    requires WellFormed(d)
    ensures 0 <= w < 7
  {
    (Ordinal(d) + 6) % 7
  }

  lemma YearLength(y: int)
    requires y >= MinYear
    ensures DaysBeforeYear(y + 1) == DaysBeforeYear(y) + DaysInYear(y)
  {
    var a := y - 1;
    DivStep4(a);
    DivStep100(a);
    DivStep400(a);
    DivisorChain(y);
    assert DaysBeforeYear(y + 1) == a * 365 + 365 + (a + 1) / 4 - (a + 1) / 100 + (a + 1) / 400;
  }

  /** A multiple of 400 is a multiple of 100, and a multiple of 100 is a multiple of 4. */
  lemma DivisorChain(y: int)
    ensures y % 400 == 0 ==> y % 100 == 0
    ensures y % 100 == 0 ==> y % 4 == 0
  {
    if y % 400 == 0 {
      var k := y / 400;
      var m := 4 * k;
      assert y == 100 * m;
    }
    if y % 100 == 0 {
      var k := y / 100;
      var m := 25 * k;
      assert y == 4 * m;
    }
  }

  lemma DivStep4(a: int)
    ensures (a + 1) / 4 == a / 4 + (if (a + 1) % 4 == 0 then 1 else 0)
  {
  }

  lemma DivStep100(a: int)
    ensures (a + 1) / 100 == a / 100 + (if (a + 1) % 100 == 0 then 1 else 0)
  {
  }

  lemma DivStep400(a: int)
    ensures (a + 1) / 400 == a / 400 + (if (a + 1) % 400 == 0 then 1 else 0)
  {
  }

  /** The last day of a month ends exactly where the next month begins. */
  lemma MonthLength(y: int, m: int)
    requires 1 <= m <= 12
    ensures m < 12 ==> DaysBeforeMonth(y, m + 1) == DaysBeforeMonth(y, m) + DaysInMonth(y, m)
    ensures m == 12 ==> DaysBeforeMonth(y, m) + DaysInMonth(y, m) == DaysInYear(y)
  {
  }

  /** The day after `d`, by the rules of the Gregorian calendar. */
  function NextDay(d: Date): (r: Date)
    requires WellFormed(d)
    ensures WellFormed(r) && Before(d, r)
    ensures Ordinal(r) == Ordinal(d) + 1
  {
    MonthLength(d.year, d.month);
    if d.day < DaysInMonth(d.year, d.month) then Date(d.year, d.month, d.day + 1)
    else if d.month < 12 then Date(d.year, d.month + 1, 1)
    else
      YearLength(d.year);
      Date(d.year + 1, 1, 1)
  }

  /** Stepping `n` days forward from `d`, one calendar day at a time. */
  function AddDays(d: Date, n: nat): (r: Date)
    requires WellFormed(d)
    ensures WellFormed(r)
    ensures Ordinal(r) == Ordinal(d) + n
    ensures n > 0 ==> Before(d, r)
    decreases n
  {
    if n == 0 then d else AddDays(NextDay(d), n - 1)
  }

  /** Two valid dates with the same ordinal are the same date. */
  lemma OrdinalInjective()
    ensures forall a: Date, b: Date {:trigger Ordinal(a), Ordinal(b)} ::
      WellFormed(a) && WellFormed(b) && Ordinal(a) == Ordinal(b) ==> a == b
  {
    forall a: Date, b: Date | WellFormed(a) && WellFormed(b) && Ordinal(a) == Ordinal(b)
      ensures a == b
    {
      OrdinalMonotone(a, b);
      OrdinalMonotone(b, a);
    }
  }

  /** Counting `n` days on from `d` reaches a date with ordinal `o`. */
  lemma ReachedFrom(d: Date, n: nat, o: int)
    requires WellFormed(d) && o == Ordinal(d) + n
    ensures exists e :: WellFormed(e) && Ordinal(e) == o
  {
    var e := AddDays(d, n);
  }

  /** `d + timedelta(days=n)` for n >= 0, without Python's upper year bound. Python
      computes it as `date.fromordinal(d.toordinal() + n)`: the one date whose ordinal
      is `n` higher. */
  function Forward(d: Date, n: nat): (r: Date)
    requires WellFormed(d)
    ensures WellFormed(r) && Ordinal(r) == Ordinal(d) + n
  {
    ReachedFrom(d, n, Ordinal(d) + n);
    OrdinalInjective();
    var e :| WellFormed(e) && Ordinal(e) == Ordinal(d) + n;
    e
  }

  /** Stepping day by day and jumping by ordinal reach the same date. */
  lemma AddDaysIsForward(d: Date, n: nat)
    requires WellFormed(d)
    ensures AddDays(d, n) == Forward(d, n)
  {
    OrdinalInjective();
  }

  /** Adding `n` days moves the weekday forward by `n` modulo 7. */
  lemma WeekdayAfter(d: Date, n: nat)
    requires WellFormed(d)
    ensures Weekday(AddDays(d, n)) == (Weekday(d) + n) % 7
  {
    WeekdayOfOrdinals(d, AddDays(d, n), n);
  }

  /** Two dates `n` days apart have weekdays `n` apart modulo 7. */
  lemma WeekdayOfOrdinals(d: Date, e: Date, n: int)
    requires WellFormed(d) && WellFormed(e) && Ordinal(e) == Ordinal(d) + n
    ensures Weekday(e) == (Weekday(d) + n) % 7
  {
    ShiftMod7(Ordinal(d), Ordinal(e), n);
  }

  /** Weekdays of two ordinals `n` days apart are `n` apart modulo 7. */
  lemma ShiftMod7(a: int, b: int, n: int)
    requires b == a + n
    ensures (b + 6) % 7 == ((a + 6) % 7 + n) % 7
  {
    var q := (a + 6) / 7;
    assert b + 6 == 7 * q + ((a + 6) % 7 + n);
  }

  /** Days before the years from `y` up to `z` grow with `z`. */
  lemma {:induction false} DaysBeforeYearGrows(y: int, z: int)
    requires MinYear <= y <= z
    ensures DaysBeforeYear(y) + (z - y) * 365 <= DaysBeforeYear(z)
    decreases z - y
  {
    if y < z {
      YearLength(y);
      DaysBeforeYearGrows(y + 1, z);
    }
  }

  /** Comparing dates as Python does agrees with comparing their ordinals. */
  lemma OrdinalMonotone(a: Date, b: Date)
    requires WellFormed(a) && WellFormed(b)
    ensures Before(a, b) <==> Ordinal(a) < Ordinal(b)
  {
    if a.year < b.year {
      OrdinalBelowNextYear(a);
      DaysBeforeYearGrows(a.year + 1, b.year);
    } else if b.year < a.year {
      OrdinalBelowNextYear(b);
      DaysBeforeYearGrows(b.year + 1, a.year);
    } else if a.month != b.month {
      MonthsGrow(a.year, a.month, b.month);
      MonthsGrow(a.year, b.month, a.month);
    }
  }

  /** A date at most a year of days after `d` lies in `d`'s year or the next one. */
  lemma YearAfterShortStep(d: Date, e: Date)
    requires WellFormed(d) && WellFormed(e) && Ordinal(d) <= Ordinal(e) <= Ordinal(d) + 365
    ensures e.year <= d.year + 1
  {
    if e.year > d.year + 1 {
      OrdinalBelowNextYear(d);
      DaysBeforeYearGrows(d.year + 1, e.year);
    }
  }

  lemma OrdinalBelowNextYear(d: Date)
    requires WellFormed(d)
    ensures Ordinal(d) <= DaysBeforeYear(d.year + 1)
  {
    YearLength(d.year);
    MonthLength(d.year, d.month);
    MonthsGrow(d.year, d.month, 12);
  }

  /** A later month starts after every day of an earlier one. */
  lemma {:induction false} MonthsGrow(y: int, m: int, n: int)
    requires 1 <= m <= 12 && 1 <= n <= 12
    ensures m < n ==> DaysBeforeMonth(y, m) + DaysInMonth(y, m) <= DaysBeforeMonth(y, n)
    ensures m <= n ==> DaysBeforeMonth(y, m) <= DaysBeforeMonth(y, n)
    decreases n
  {
    MonthLength(y, m);
    if m < n {
      MonthsGrow(y, m, n - 1);
      MonthLength(y, n - 1);
    }
  }

  /** The instant at which `dt` begins, counted in minutes of the local zone. */
  function ToInstant(dt: DateTime): (t: Instant)
    requires WellFormed(dt.date) && ValidTime(dt.time)
    ensures t / MinutesPerDay == Ordinal(dt.date)
    ensures t % MinutesPerDay == dt.time.hour * 60 + dt.time.minute
  {
    Ordinal(dt.date) * MinutesPerDay + dt.time.hour * 60 + dt.time.minute
  }

  /** Midnight of the day `t` falls on (`t.replace(hour=0, minute=0)`). */
  function StartOfDay(t: Instant): (s: Instant)
    ensures s <= t < s + MinutesPerDay
    ensures s % MinutesPerDay == 0
  {
    t - t % MinutesPerDay
  }

  /** 23:59 of the day `t` falls on (`t.replace(hour=23, minute=59)`). */
  function EndOfDay(t: Instant): (e: Instant)
    ensures e % MinutesPerDay == 23 * 60 + 59
    ensures t <= e < t + MinutesPerDay
  {
    StartOfDay(t) + 23 * 60 + 59
  }

  /** `date(9999, 12, 31).toordinal()`, the last day a `date` can hold. */
  const LastOrdinal := 3652059

  /** 0001-01-01 00:00 and 9999-12-31 23:59, the first and the last whole minute a
      `datetime` can hold; adding a `timedelta` that leaves this range raises. */
  const FirstMinute: Instant := MinutesPerDay
  const LastMinute: Instant := LastOrdinal * MinutesPerDay + 23 * 60 + 59

  predicate Representable(t: Instant) {
    FirstMinute <= t <= LastMinute
  }

  /** The first minute lies on day 1, 0001-01-01. */
  lemma CalendarStart()
    ensures InRange(Date(MinYear, 1, 1)) && Ordinal(Date(MinYear, 1, 1)) == 1
  {
  }

  /** The last minute lies on day `LastOrdinal`, 9999-12-31. */
  lemma CalendarEnds()
    ensures InRange(Date(MaxYear, 12, 31)) && Ordinal(Date(MaxYear, 12, 31)) == LastOrdinal
  {
    DaysBeforeLastYear();
    assert DaysBeforeMonth(MaxYear, 12) == 334 by {
      assert !IsLeap(MaxYear);
    }
  }

  lemma DaysBeforeLastYear()
    ensures DaysBeforeYear(MaxYear) == 3651694
  {
    var a := MaxYear - 1;
    assert a / 4 == 2499 && a / 100 == 99 && a / 400 == 24;
  }

  /** Every date and time a `datetime` holds is a representable instant. */
  lemma InstantRepresentable(dt: DateTime)
    requires InRange(dt.date) && ValidTime(dt.time)
    ensures Representable(ToInstant(dt))
  {
    var n := Ordinal(dt.date);
    assert n <= LastOrdinal by {
      CalendarEnds();
      OrdinalMonotone(Date(MaxYear, 12, 31), dt.date);
    }
    assert ToInstant(dt) == n * 1440 + dt.time.hour * 60 + dt.time.minute;
  }
}
