# SchedulAI availability core in Dafny

SchedulAI turns a scheduling request into a Google Calendar event. This project models
the availability logic of `google_calendar_helper.py` and proves properties about it.
The logic has five parts:

- **Date resolution** (`convert_to_datetime`). A weekday name in any letter case resolves to
  the next day with that weekday strictly after today. Any other text is read as an ISO 8601
  calendar date in the extended complete form `YYYY-MM-DD` (section 4.1.2.2 of ISO 8601:2004).
  The date is then combined with the time of day.
- **Past-date correction** (`fix_past_date_if_needed`). A past year becomes the current year.
  A date still before today then moves to the next year. 29 February moved into a common year
  raises, as `date.replace` does.
- **Conflict check** (`check_time_conflict`). The candidate window is `[start, start + duration)`.
  It conflicts with an event when it starts before the event ends and ends after the event starts.
  Back-to-back windows do not conflict, and events without a `dateTime` are skipped.
- **Next-slot sweep** (`suggest_next_available_time`). Starting at the requested time, the sweep
  tries windows 15 minutes apart. It stops once a window would end after 23:59 of the same day.
  It answers the clock time (`HH:MM`) of the first free window, or None.
- **Event body** (`create_calendar_event`). The title defaults to "Scheduled Event". The
  description lists the participants, comma-joined. Start and end carry the same timezone id.

How the model is laid out:

- Dates follow Python's `datetime`: proleptic Gregorian dates in years 1 to 9999.
  `toordinal` counts days with 0001-01-01 as day 1. `weekday()` gives Monday as 0.
  Dates compare by year, then month, then day.
- `date + timedelta(days=n)` is `Forward`: as in Python, the date whose ordinal is n higher.
  `AddDays` steps one calendar day at a time, and `AddDaysIsForward` shows both agree.
- Instants are whole minutes in one fixed local zone: the day's ordinal times 1440, plus the
  minute of the day.
- A `datetime` holds instants from 0001-01-01 00:00 to 9999-12-31 23:59 (`Representable`).
  Every `start + timedelta(minutes=...)` that leaves this range raises, as `OverflowError` does
  in Python. The model reports it as a year out of range, in the conflict check, in each step
  of the sweep and in the event body.
- Today's date and the calendar's events are parameters of the model.
- The calendar query (`events().list` with `timeMin` and `timeMax`) is a filter over the
  calendar's events. It keeps a timed event when the event ends after `timeMin` and starts
  before `timeMax`.
- The conflict loop is one method, `FindConflict`. `check_time_conflict` uses it on the events
  of the whole day. The sweep uses it on each window's own query.
- `DayQueryKeepsConflicts` and `DayQueryMissesLateEvent` show one consequence of the day query
  ending at 23:59. A candidate window that runs past 23:59 is not checked against events that
  start at 23:59 or later.

Two facts about the past-date correction:

- The past-date correction is applied only by `create_calendar_event` and by the app after
  extraction. `convert_to_datetime` itself does not apply it.
- The correction never moves a date backwards. `FixPastDate` proves this.

## Model

| member | source | states |
|---|---|---|
| Dates.NextDay | google_calendar_helper.py:26 | the next calendar day is a valid date, strictly later, with ordinal one higher |
| Dates.AddDays | google_calendar_helper.py:26 | stepping n days forward one calendar day at a time gives a valid date whose ordinal is n higher, strictly later when n > 0 |
| Dates.Forward | google_calendar_helper.py:26 | `d + timedelta(days=n)`, computed as `fromordinal(toordinal() + n)`, is the one valid date whose ordinal is n higher |
| Dates.AddDaysIsForward | google_calendar_helper.py:26 | stepping day by day and jumping by ordinal reach the same date |
| Dates.WeekdayAfter | google_calendar_helper.py:23-26 | adding n days moves `weekday()` forward by n modulo 7 |
| Dates.OrdinalMonotone | google_calendar_helper.py:185 | comparing dates by year, month and day agrees with comparing their ordinals, in both directions |
| Dates.ToInstant | google_calendar_helper.py:32-33 | a date and time become an instant whose day is the date's ordinal and whose minute of day is hour·60 + minute |
| Dates.EndOfDay | google_calendar_helper.py:99 | 23:59 of an instant's day is at or after the instant, less than a day later, at minute 1439 of the day |
| Dates.StartOfDay | google_calendar_helper.py:55 | midnight of an instant's day is a whole-day boundary at or before the instant and less than a day before it |
| Dates.CalendarStart | google_calendar_helper.py:41 | 0001-01-01 is ordinal day 1, so the first representable minute is the first minute of the calendar |
| Dates.CalendarEnds | google_calendar_helper.py:41 | 9999-12-31 is in range and is ordinal day 3652059, so the last representable minute is 23:59 of the last day |
| Dates.InstantRepresentable | google_calendar_helper.py:40-41 | every date and time a `datetime` holds lies within the representable minutes, so only adding a duration can leave them |
| Iso.ParseIsoDate | google_calendar_helper.py:29 | only ten-character `YYYY-MM-DD` text naming an existing date in years 1..9999 is accepted; everything else is a malformed date |
| Iso.ParseOfFormat | google_calendar_helper.py:178-188 | reading back the `isoformat` text of any date gives that date |
| Iso.IsoFormat | google_calendar_helper.py:188 | `isoformat()` writes ten characters `YYYY-MM-DD`; with `ParseOfFormat` it reads back as the same date |
| Iso.FormatOfParse | google_calendar_helper.py:178-188 | any text that is read as a date is exactly that date's `isoformat` text |
| Resolution.WeekdayIndex | google_calendar_helper.py:18-22 | a name is recognised iff it is one of the seven lower-case weekday names, and its index names it |
| Resolution.Lower | google_calendar_helper.py:20 | lower-casing keeps the length, leaves no upper-case ASCII letter, keeps every other character and maps each upper-case letter to its lower-case one |
| Resolution.LowerIdempotent | google_calendar_helper.py:20 | lower-casing an already lower-cased text changes nothing |
| Resolution.AnyCaseResolves | google_calendar_helper.py:18-22 | a weekday name spelled in any mixture of upper and lower case is recognised as that weekday |
| Resolution.DaysAhead | google_calendar_helper.py:22-25 | the offset is in 1..7 and (today's weekday + offset) mod 7 is the target, so today is never chosen |
| Resolution.DaysAheadIsLeast | google_calendar_helper.py:23-25 | no smaller positive offset reaches the target weekday |
| Resolution.NextWeekday | google_calendar_helper.py:20-26 | the resolved date is valid, strictly after today, lies the offset's number of days ahead, and fails exactly when that day would fall after 9999-12-31 |
| Resolution.NextWeekdayLands | google_calendar_helper.py:20-26 | the resolved date has the requested weekday |
| Resolution.NextWeekdayIsNext | google_calendar_helper.py:20-26 | every date strictly between today and the resolved date has another weekday |
| Resolution.ConvertToDateTime | google_calendar_helper.py:16-35 | a recognised weekday name resolves as NextWeekday does; any other text succeeds iff it reads as an ISO date, and gives that date; the time is kept; a weekday that runs past 9999-12-31 fails with a year error, unreadable text with a malformed-date error |
| Resolution.ReplaceYear | google_calendar_helper.py:182 | `replace(year=y)` keeps month and day; it fails with a year error for a year outside 1..9999, otherwise with a day error for 29 February in a common year |
| Resolution.FixPastDate | google_calendar_helper.py:177-188 | only the year changes; the result is never before the input nor before today; the year rises by at most one past the later of the two years; a date on or after today is unchanged; the year is the least one, from the input's year or today's, that is not before today; it fails exactly when 29 February lands in a common year or the move would pass year 9999 |
| Resolution.FixPastDateIdempotent | google_calendar_helper.py:177-188 | correcting a corrected date gives the same date |
| Resolution.FixPastDateIfNeeded | google_calendar_helper.py:172-188 | the text form succeeds iff the text reads as a date that can be corrected, and yields `YYYY-MM-DD` text |
| Resolution.FixPastDateIfNeededReadsBack | google_calendar_helper.py:178-188 | the returned text reads back as the corrected date: same month and day, not before the input, not before today |
| Resolution.FixPastDateIfNeededIdempotent | google_calendar_helper.py:172-188 | applying the text form to its own output returns that output |
| Resolution.StaleYearExample | google_calendar_helper.py:180-182 | 2023-01-05 becomes 2025-01-05 when today is 2025-01-03 |
| Resolution.StaleYearPassedExample | google_calendar_helper.py:180-186 | 2023-01-05 becomes 2026-01-05 when today is 2025-03-10 |
| Resolution.LeapDayExample | google_calendar_helper.py:181-182 | 2024-02-29 with today 2026-10-15 fails with a day-out-of-range error: the day does not exist in 2026 |
| Availability.ListEvents | google_calendar_helper.py:58-66 | the query result holds exactly the calendar's events that end after `timeMin` and start before `timeMax`, plus those without a `dateTime` |
| Availability.FindConflict | google_calendar_helper.py:69-85 | true iff some event with both `dateTime`s overlaps the half-open window; an empty list gives false |
| Availability.OverlapSymmetric | google_calendar_helper.py:82 | swapping the window and the event gives the same overlap answer |
| Availability.Overlaps | google_calendar_helper.py:82 | the test at line 82, repeated at line 127: only timed events overlap; for non-empty intervals an overlap has a minute both share, the later of the two starts |
| Availability.SharedMinuteOverlaps | google_calendar_helper.py:82 | a window and a timed event that share a minute overlap, the converse of `Overlaps`' witness |
| Availability.BackToBackIsFree | google_calendar_helper.py:82 | [10:00,11:00) does not conflict with [11:00,12:00); [10:59,11:01) conflicts with [10:00,11:00) |
| Availability.UntimedEventsNeverConflict | google_calendar_helper.py:73 | events without a `dateTime` on both ends never conflict, and neither does an empty list |
| Availability.WindowQueryKeepsConflicts | google_calendar_helper.py:105-127 | querying exactly the window loses no conflicting event |
| Availability.DayQueryKeepsConflicts | google_calendar_helper.py:55-82 | querying the whole day loses no conflicting event when the window ends by 23:59 |
| Availability.DayQueryMissesLateEvent | google_calendar_helper.py:55-82 | a 23:30 window of 60 minutes overlaps an event from 23:59, but the day query does not return that event |
| Availability.CheckTimeConflict | google_calendar_helper.py:37-85 | fails with the resolution error when the date does not resolve, and with an overflow exactly when start + duration leaves the calendar (line 41); otherwise the answer is whether the window overlaps an event of the day query, which equals overlap with the whole calendar when the window ends by 23:59 |
| Availability.NextFreeSlot | google_calendar_helper.py:99-136 | overflows exactly when some window the sweep reaches has an end, or a next step, past the calendar; otherwise the answer is start + 15·k for the least k whose window fits before 23:59 and is free, with every earlier window taken, or None when every window that fits is taken |
| Availability.SweepOverflowsOnlyAtEnd | google_calendar_helper.py:101-134 | before 9999-12-31, with a non-negative duration, the sweep overflows exactly when its first window already ends past the calendar |
| Availability.LastDayAllTakenOverflows | google_calendar_helper.py:101-136 | on 9999-12-31 a day whose fitting windows are all taken raises instead of answering None |
| Availability.SweepOutcomeUnique | google_calendar_helper.py:101-134 | the sweep's specification allows exactly one answer |
| Availability.SweepNoneIffAllTaken | google_calendar_helper.py:102-136 | None exactly when every window that fits before 23:59 is taken; a found slot means a free window that fits exists |
| Availability.SlotOnStartDay | google_calendar_helper.py:99-102 | a found slot is at or after the start, on the start's day, a multiple of 15 minutes later, and its window ends by 23:59 |
| Availability.FreeStartIsKept | google_calendar_helper.py:101-132 | if the requested window fits and is free, the answer is the requested start unchanged |
| Availability.EmptyDayKeepsStart | google_calendar_helper.py:101-132 | over a day without events, the answer is the requested start whenever its window ends by 23:59 |
| Availability.TooLateIsNone | google_calendar_helper.py:99-102 | if the first window already runs past 23:59, the answer is None |
| Availability.BusyAfternoonExample | google_calendar_helper.py:101-134 | with a meeting from 15:00 to 16:00, a one-hour request at 15:00 is answered with 16:00 |
| Availability.ClockText | google_calendar_helper.py:132 | the text is five characters `HH:MM` whose digits give the instant's hour of day and minute |
| Availability.SuggestNextAvailableTime | google_calendar_helper.py:87-136 | fails with the resolution error when the date does not resolve, and with an overflow exactly when the sweep overflows; otherwise it answers the clock text of the sweep's unique answer, or None |
| Payload.JoinNamesLength | google_calendar_helper.py:157 | the joined participants are as long as the names plus one ", " between each two |
| Payload.JoinNamesHoldsEach | google_calendar_helper.py:157 | each participant appears in the joined text, in order, at the offset of the names and separators before it |
| Payload.JoinNames | google_calendar_helper.py:157 | no names join to the empty text, one name to itself; with `JoinNamesLength`, `JoinNamesHoldsEach` and `JoinNamesSeparates` the joined text is fixed character by character |
| Payload.JoinNamesSeparates | google_calendar_helper.py:157 | between each name and the next the joined text holds exactly ", " |
| Payload.Description | google_calendar_helper.py:157 | the description is "Created by SchedulAI for " followed by the joined participants; with no participants, nothing follows the prefix |
| Payload.IsoTextIsNoWeekday | google_calendar_helper.py:141-142 | corrected `YYYY-MM-DD` text is never taken for a weekday name |
| Payload.BuildEvent | google_calendar_helper.py:138-166 | fails with the correction error when the date correction fails, and with an overflow exactly when start + duration leaves the calendar (line 143); otherwise start is the corrected date at the requested time and on or after today, end = start + duration, both ends carry the given timezone id, the summary is the title or "Scheduled Event" when the title is absent, and the description is as above |

## Left out

- Authentication and every Google Calendar call (`authenticate_google`, the `execute()` of `list` and `insert`). These are network I/O. The calendar's events are a parameter, and the list query is modelled by `ListEvents`.
- Availability.ListEvents: events without a `dateTime` (all-day events) pass every query, while the calendar filters them by their dates. No conflict answer changes, because `Overlaps` skips such events.
- Paging of the list query. The source reads only the first page of `items`, and the model sees every event.
- The calendar's refusal of a query whose `timeMax` is not after `timeMin` (a duration of zero or less). It is a backend error.
- Timezones: pytz `localize`/`astimezone`, UTC offsets and daylight-saving shifts. These need the timezone database. All instants are minutes in one fixed local zone.
- Payload.BuildEvent: the `dateTime` fields hold instants rather than ISO 8601 text with a UTC offset, because rendering the offset needs the timezone database.
- `dateutil.parser.parse` of the time text and `isoparse` of event timestamps. These are a permissive third-party parser. The time arrives parsed as hour and minute with a validity precondition, and seconds are taken as zero. The events arrive as instants.
- Resolution.ConvertToDateTime, Iso.ParseIsoDate, Resolution.FixPastDateIfNeeded: only the `YYYY-MM-DD` form of `datetime.fromisoformat` is modelled. A time suffix after the date, which it has accepted since Python 3.7, and the `YYYYMMDD` and week-date forms that Python 3.11 added are treated as malformed.
- Resolution.Lower: only ASCII letters are lower-cased. Python lower-cases some other characters to text containing letters of weekday names (U+0130 'İ' becomes "i" followed by U+0307), and the Kelvin sign becomes 'k', which no weekday name contains. None of them lower-cases to a single letter of a weekday name, so a text whose Python lower-casing is a weekday name is a text `Lower` also maps to that name.
- `datetime.today()`. Today's date is a parameter.
- Default arguments (`duration_minutes=60`). The duration is always passed explicitly.
- Request fields of the wrong JSON type (a `null` title or participant list). Only absent keys and strings are modelled.
- All of `app.py`: the Streamlit UI, the OpenAI call, stripping code fences, `json.loads` and turning exceptions into messages. It is glue around these helpers.
- `st.secrets` configuration lookups. They are configuration plumbing.
