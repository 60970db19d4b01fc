# Reminder bot: registry and command handlers

A Dafny model of the reminder registry of a chat bot (`reminder.py`) and of
the decisions its slash commands make before they touch it.

- **Registry** (`reminders.dfy`, module `Reminders`). The module-level
  dictionary `reminders` maps a user id to that user's records (job id,
  message, time, type) in insertion order. `Registry` is a class holding that
  dictionary as a `map<int, seq<Record>>`. Its methods `Add`, `Remove` and
  `UpdateTime` change it in place, as `add_reminder`, `remove_reminder` and
  `update_reminder_date` do. `View` is the check made by `view_reminders`. Each
  method is proved against a function on the whole dictionary (`Appended`,
  `Removed`, `Updated`, `Listing`). Lemmas about those functions state what
  the code promises: the record is appended, other users are untouched, the
  survivors keep their order, removal is idempotent, only the first matching
  record is retimed, and no user is left with an empty list.
- **Commands** (`commands.dfy`, module `Commands`). Each command handler
  (`remindme`, `remind_every_x_days`, `remind_daily`, `remind_weekly`,
  `remind_on_date`) is a `Plan` function. A plan is either a rejection with its
  reply, or the job to schedule plus the record to add. The handler methods
  apply a plan to a `Registry`. A job's callback is the explicit `Fire`
  operation, run at a given `now`.
- **Text** (`text.dfy`). The renderings used in job ids: `str()` of an int,
  the `02d` format, `repr()` of a timestamp and ASCII `lower()`.
- **Calendar** (`calendar.dfy`). The parts of Python's naive `datetime` that
  the handlers use. A time is a count of microseconds since 1970-01-01 00:00.
  The module covers the validation of `datetime(year, month, day, hour,
  minute)`, its conversion to a time, and `replace(hour, minute, 0, 0) +
  one day`.

The clock (`datetime.now()`) is a parameter. `remindme` reads it twice, so
its plan takes two readings: `idNow` for the job id and `now` for the time.

The model follows the code as written. Three places where the code works
against what its own calls are for are kept as they are, and lemmas state
what happens:

- `remindme`'s callback calls `remove_reminder(user_id, job_id)` after sending
  (line 85), so it is meant to drop the record once the reminder has fired.
  But the job id passed to it is `single_{user}_{ts}` (line 75), while the
  record is stored as `single_{remind_time.timestamp()}` (line 88). The removal
  therefore never matches, and the record stays listed after the reminder
  fires (`OnceIdsNeverMatch`, `OnceRecordOutlivesItsJob`).
- `remind_every_x_days` schedules an interval job whose callback removes the
  record on its first firing (line 104), although the job goes on firing
  (`EveryDaysRecordRemovedOnFire`).
- `remind_daily` schedules under `id=job_id` with `replace_existing=True`
  (lines 141-142), so registering the same hour:minute again replaces the
  scheduled job. The registry, though, gets a second record with the same id
  (line 150), and the callback's `update_reminder_date` (line 134) moves on
  only the first of them (`DailyTwiceRetimesFirstOnly`).

Exceptions that leave a handler before `add_reminder` are the reply `Raised`:

- `remind_daily` with an hour outside 0..23 or a minute outside 0..59
  (`datetime.replace` at line 146 rejects it).
- `remindme`, `remind_every_x_days` and `remind_daily` when the time they
  compute (lines 76, 107, 148) falls outside `datetime.min`..`datetime.max`.
  Adding the `timedelta` then raises `OverflowError`.
- `remind_on_date` with a field outside the C `int` range. `datetime(...)` at
  line 188 then raises `OverflowError`, which the `except ValueError` at line
  193 does not catch.

A job's callback sends the message before its cleanup. In `Fire` the
parameter `delivered` says whether that send returned. When it did not, the
callback ends and the registry is unchanged.

## Model

| member | source | states |
|---|---|---|
| `Reminders.Registry.constructor` | reminder.py:38 | the registry starts as an empty dictionary, which keeps no empty list |
| `Reminders.Registry.Add` | reminder.py:40-48 | the in-place update equals `Appended` of the old dictionary and keeps the no-empty-list invariant |
| `Reminders.AppendedSpec` | reminder.py:40-48 | after add, the user is present; the list is one longer; its prefix is the old list (or empty when the user was absent); the last element is the new record; every other user's entry is unchanged; the invariant is kept |
| `Reminders.Registry.Remove` | reminder.py:50-54 | the in-place filter and key deletion equal `Removed` of the old dictionary and keep the invariant |
| `Reminders.RemovedSpec` | reminder.py:50-54 | after remove, the user's records are exactly the old ones filtered by job id, and none of them has that job id; other users are unchanged; an absent user means no change; the key is deleted rather than left with an empty list |
| `Reminders.RemovedIdempotent` | reminder.py:50-54 | removing the same job id twice equals removing it once |
| `Reminders.WithoutMembers` | reminder.py:52 | a record survives the comprehension if and only if it was in the list and its job id differs |
| `Reminders.WithoutConcat` | reminder.py:52 | the comprehension distributes over concatenation, so survivors keep their relative order |
| `Reminders.WithoutNoMatch` | reminder.py:52 | when no record has the job id, the list is unchanged |
| `Reminders.WithoutIdempotent` | reminder.py:52 | filtering a filtered list again changes nothing |
| `Reminders.Registry.UpdateTime` | reminder.py:110-115 | the loop that overwrites the first matching record's time and breaks equals `Updated` of the old dictionary and keeps the invariant |
| `Reminders.UpdatedSpec` | reminder.py:110-115 | the length and presence of the user's list are unchanged; each record is unchanged except that the first one with the job id may get the new time; with no match (or no user) nothing changes; other users are unchanged; the invariant is kept |
| `Reminders.RetimedAt` | reminder.py:112-115 | when index i is the first match, the result is the list with only record i's time replaced |
| `Reminders.RetimedNoMatch` | reminder.py:112-115 | when no record matches, the loop leaves the list as it was |
| `Reminders.FirstMatch` | reminder.py:112-113 | when some record matches, there is a first matching index |
| `Reminders.ListingSpec` | reminder.py:59-61 | "no reminders" is reported exactly when the user has no records; under the invariant, exactly when the user has no entry; otherwise the list shown is the user's records in order |
| `Reminders.Registry.View` | reminder.py:58-64 | returns `Listing` of the dictionary; under the invariant, nothing exactly when the user has no entry, and otherwise the user's non-empty list of records |
| `Text.NatText` | reminder.py:95 | `str()` of a non-negative int is a non-empty string of digits, one digit exactly below 10 |
| `Text.ParseNatText` | reminder.py:95 | reading the digits of `str(n)` back gives n |
| `Text.IntTextRoundTrip` | reminder.py:95 | `str()` of any int, sign included, reads back to the same int |
| `Text.IntTextInjective` | reminder.py:186 | distinct ints render to distinct text |
| `Text.IntTextHasNoUnderscore` | reminder.py:75 | the rendering of an int contains no underscore |
| `Text.Pad2InRange` | reminder.py:120 | for 0..99 the `02d` format gives exactly two digits that read back as the number |
| `Text.SixDigits` | reminder.py:88 | the fractional part of a timestamp is six digits |
| `Text.TrimTrailingZeros` | reminder.py:88 | float repr drops trailing zeros of the fraction but keeps at least one digit, and the result is a prefix |
| `Text.TimestampTextHasNoUnderscore` | reminder.py:88 | `repr(timestamp())` contains no underscore |
| `Text.Lower` | reminder.py:165 | `lower()` keeps the length |
| `Text.LowerIdempotent` | reminder.py:165 | lowering twice equals lowering once, and the result has no upper-case ASCII letter |
| `Calendar.DaysInMonth` | reminder.py:188 | a month has 28 to 31 days |
| `Calendar.DaysBeforeMonth` | reminder.py:188 | the days before month m lie between 28(m-1) and 31(m-1) |
| `Calendar.NextYearStart` | reminder.py:188 | the day count before year y+1 is the count before year y plus the length of year y (the Gregorian leap rule) |
| `Calendar.DaysBeforeYearGrows` | reminder.py:188 | every later year starts after the whole of an earlier year |
| `Calendar.DaysBeforeMonthGrows` | reminder.py:188 | every later month starts after the whole of an earlier month |
| `Calendar.YearLength` | reminder.py:188 | the twelve months add up to the length of the year |
| `Calendar.OrdinalWithinYear` | reminder.py:188 | a valid date's ordinal lies within its own year |
| `Calendar.OrdinalOrder` | reminder.py:188 | an earlier valid date has a smaller ordinal |
| `Calendar.ToTimeIncreasing` | reminder.py:188-190 | an earlier valid datetime converts to a smaller time |
| `Calendar.ToTimeOrderIff` | reminder.py:188-190 | between valid datetimes, `a < b` holds if and only if their times compare the same way, and equal times mean equal datetimes |
| `Calendar.ToTimeInRange` | reminder.py:188 | every datetime the constructor accepts lies between `datetime.min` and `datetime.max`, and its fields fit a C int |
| `Calendar.PastCheckIsDatetimeOrder` | reminder.py:188-190 | `remind_time <= now`, with now carrying seconds and microseconds, holds exactly when now's minute is not before `remind_time` |
| `Calendar.NextDailyTimeIsTomorrow` | reminder.py:146-148 | the stored daily time falls on the day after now, exactly at hour:minute with zero seconds, strictly after now and less than two days later |
| `Calendar.NextDailyTimeAdvancesOneDay` | reminder.py:130-132 | when the callback runs on the stored time's day, at or after that time, the new time is exactly one day later |
| `Calendar.DailyTimesAreOneDayApart` | reminder.py:130-148 | recomputing from the stored time gives the stored time plus one day |
| `Commands.OnceIdsNeverMatch` | reminder.py:75-88 | the job id remindme removes on firing never equals the id it stored, for every user and every pair of clock readings |
| `Commands.EveryDaysJobIdInjective` | reminder.py:95 | two interval job ids are equal only for the same number of days |
| `Commands.DailyJobIdInjective` | reminder.py:120 | for in-range clock times, daily ids are equal if and only if hour and minute are |
| `Commands.WeekdayCheck` | reminder.py:161-166 | a weekday is accepted if and only if its lower-case form is one of the seven full day names, in whatever case it was typed |
| `Commands.RegisteredSpec` | reminder.py:40-48 | after an accepted command the user's listing is the old records followed by the new record; other users are unchanged; a rejected command changes nothing; the invariant is kept |
| `Commands.PlansAreWellFormed` | reminder.py:87-205 | every scheduled job belongs to the calling user, and a daily job carries a valid clock time |
| `Commands.FiredSpec` | reminder.py:78-134 | a firing callback keeps the invariant and touches no other user; when the send raises, the registry is unchanged |
| `Commands.OnceRecordOutlivesItsJob` | reminder.py:74-88 | after an accepted remindme and a firing whose send returns, the user's records are the old ones without the job's id, followed by the new record, which is still there, timed now + minutes |
| `Commands.EveryDaysRecordRemovedOnFire` | reminder.py:94-107 | the first delivered firing of an interval job removes the new record and every other record with its id |
| `Commands.DailyPlanSpec` | reminder.py:119-150 | remind_daily registers if and only if hour and minute are in range and tomorrow is within `datetime.max`, and otherwise raises; the stored time is tomorrow at hour:minute, after now, with the submitted message and type Daily |
| `Commands.DailyTwiceRetimesFirstOnly` | reminder.py:110-150 | registering the same daily reminder twice stores two records with one id, and a delivered firing retimes only the first |
| `Commands.DailyFireAdvancesStoredTime` | reminder.py:129-134 | a delivered daily firing on the stored time's day sets that record's time to exactly one day later, while that stays within `datetime.max` |
| `Commands.WeeklyPlanSpec` | reminder.py:159-179 | remind_weekly registers if and only if the weekday check passes; otherwise it replies "invalid weekday" and changes nothing; the record's time is now; firing leaves the registry as it was |
| `Commands.OnDatePlanSpec` | reminder.py:185-206 | the handler raises exactly when a field does not fit a C int; otherwise an invalid date is rejected as invalid and only then; a valid time at or before now is rejected as past and only then; an accepted record is timed at the datetime, after now and within range, and has the job's id, so a delivered firing removes it |
| `Commands.RejectedExamples` | reminder.py:161-195 | weekday "Funday" is refused as an invalid weekday, month 13 as an invalid date, and year 3000000000 raises |
| `Commands.PastDateExample` | reminder.py:188-192 | 2000-01-01 09:00 (the default hour and minute) is refused as past once now is later |
| `Commands.Register` | reminder.py:87-88 | a rejected plan changes nothing and returns its reply; an accepted one appends its record and returns its job |
| `Commands.RemindMe` | reminder.py:74-89 | schedules exactly when now + minutes is within datetime's range, and otherwise raises; registers as `OncePlan` says |
| `Commands.RemindEveryDays` | reminder.py:94-108 | schedules exactly when now + days is within datetime's range, and otherwise raises; registers as `EveryDaysPlan` says |
| `Commands.RemindDaily` | reminder.py:119-154 | schedules if and only if the clock time is in range and tomorrow is within `datetime.max`, and otherwise raises; the returned job is well formed |
| `Commands.RemindWeekly` | reminder.py:159-180 | replies "invalid weekday" exactly when the lower-cased weekday is not a day name, and registers as `WeeklyPlan` says |
| `Commands.RemindOnDate` | reminder.py:185-207 | raises when a field does not fit a C int, and otherwise replies "invalid date", "in the past" or scheduled as the date's validity and its time against now decide; registers as `OnDatePlan` says |
| `Commands.Fire` | reminder.py:78-134 | runs a job's callback on the registry: nothing when the send raised; otherwise remove by job id (lines 85, 104, 203), retime the first matching daily record unless tomorrow is past `datetime.max` (lines 130-134), or nothing (weekly) |

## Left out

- Discord I/O is left out: the client, intents, `on_ready`, command sync and all reply and listing text (`strftime`, `title()`).
- `Commands.Fire`: the channel lookup and the send or DM fallback are reduced to whether they returned (`delivered`). Which of them fails, for example `interaction.guild` being `None` in a direct message (line 34) or a refused DM (lines 83, 102, 127, 202), is not modelled.
- The scheduler is left out: `add_job`, the date, interval and cron triggers, when they fire, and `replace_existing`. A job is a value, and its callback runs only when `Fire` is called.
- `Commands.RemindWeekly`: line 178 passes `args=` to the cron trigger instead of to `add_job`. With the scheduling library's trigger signature this would raise before line 179 adds the record. The scheduler is outside the model, so the model assumes that call returns and follows line 179.
- `Commands.RemindWeekly`: an hour or minute that the cron trigger rejects is not modelled, because the trigger's validation belongs to the scheduling library.
- `datetime.now()` is a parameter, taken to be within `datetime.min`..`datetime.max` as any clock reading is. Local time is taken to be UTC, so `timestamp()` is the microsecond count divided by 10^6. Time zones and daylight saving are not modelled.
- `Text.TimestampText` renders the exact microsecond value. The binary-float rounding and the exponent form of `repr()` are not modelled. The only property used is that the text has no underscore.
- `Text.Lower` maps only ASCII letters. Python's full Unicode lowering gives the same weekday check, because the one non-ASCII character that lowers to an ASCII letter is the Kelvin sign (to `k`), and no day name contains `k`.
- `Commands.RemindEveryDays`: on overflow the model reports `Raised` and registers nothing. Line 106 may already have scheduled the job before line 107 raises, or the interval trigger may raise first; the scheduler is outside the model, so which happens is not modelled.
- `Commands.RemindDaily`: on datetime's last day the model reports `Raised` and registers nothing, although line 137 has already scheduled the job when line 148 raises.
- A record's `type` text is the datatype `Kind`. A weekly record keeps the lower-case day name, not its `title()` form.
- Records are Python dicts updated in place by `update_reminder_date`. Nothing but the user's list refers to them, so they are modelled as values.
- The token and environment loading and `bot.run` are configuration and process start-up, so they are left out.
