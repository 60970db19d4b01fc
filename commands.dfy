/** The slash-command handlers of reminder.py, reduced to what they decide
    and what they do to the registry. Each handler first computes a Plan (the
    reply it gives, and when it registers, the scheduled job and the record it
    adds); the scheduled job's callback is the Fire operation, invoked
    explicitly instead of by a timer. The clock is a parameter. */
module Commands {
  import opened Text
  import opened Calendar
  import opened Reminders

  /** The outcome the handler reports: Raised stands for an exception that
      leaves the handler before anything is registered. */
  datatype Reply = Scheduled | InvalidWeekday | TimeInPast | InvalidDate | Raised

  /** The trigger the handler hands to the scheduler. */
  datatype Trigger =
    | RunAt(at: Time)
    | IntervalDays(days: int)
    | DailyCron(hour: int, minute: int)
    | WeeklyCron(dayOfWeek: string, hour: int, minute: int)

  /** What the job's callback does to the registry once sending the message
      has returned. */
  datatype Cleanup = RemoveRecord | RetimeDaily(hour: int, minute: int) | LeaveRecord

  /** A scheduled job: whose it is, the job id passed to its callback, when it
      fires and what its callback does to the registry. */
  datatype Job = Job(user: UserId, jobId: string, trigger: Trigger, cleanup: Cleanup)

  datatype Plan = Rejected(reply: Reply) | Accepted(job: Job, record: Record)

  predicate IsClockTime(hour: int, minute: int) {
    0 <= hour <= 23 && 0 <= minute <= 59
  }

  /** A daily job only ever carries an hour and minute that replace() accepts. */
  predicate WellFormed(job: Job) {
    job.cleanup.RetimeDaily? ==> IsClockTime(job.cleanup.hour, job.cleanup.minute)
  }

  // ------------------------------------------------------------------- job ids

  /** The id remindme gives to the scheduled job and its callback. */
  function OnceJobId(user: UserId, idNow: Time): string {
    "single_" + IntText(user) + "_" + TimestampText(idNow)
  }

  /** The id remindme stores in the record. */
  function OnceRecordId(remindTime: Time): string {
    "single_" + TimestampText(remindTime)
  }

  function EveryDaysJobId(days: int): string {
    "recurring_" + IntText(days) + "d"
  }

  function DailyJobId(hour: int, minute: int): string {
    "daily_" + Pad2(hour) + Pad2(minute)
  }

  function WeeklyJobId(weekday: string, hour: int, minute: int): string {
    "weekly_" + Lower(weekday) + "_" + Pad2(hour) + Pad2(minute)
  }

  function OnDateJobId(year: int, month: int, day: int, hour: int, minute: int): string {
    "date_" + IntText(year) + "_" + IntText(month) + "_" + IntText(day) + "_" + IntText(hour) + "_" + IntText(minute)
  }

  /** The id remindme's callback removes never equals the id it stored: the
      former holds two underscores, the latter one. */
  lemma OnceIdsNeverMatch(user: UserId, idNow: Time, remindTime: Time)
    ensures OnceJobId(user, idNow) != OnceRecordId(remindTime)
  {
    IntTextHasNoUnderscore(user);
    TimestampTextHasNoUnderscore(idNow);
    TimestampTextHasNoUnderscore(remindTime);
    UnderscoreCountsDiffer(IntText(user), TimestampText(idNow), TimestampText(remindTime));
  }

  lemma UnderscoreCountsDiffer(a: string, b: string, c: string)
    requires '_' !in a && '_' !in b && '_' !in c
    ensures "single_" + a + "_" + b != "single_" + c
  {
    assert multiset("single_")['_'] == 1;
    assert multiset("_")['_'] == 1;
    assert multiset(a)['_'] == 0 && multiset(b)['_'] == 0 && multiset(c)['_'] == 0;
    assert multiset("single_" + a + "_" + b)['_'] == 2;
    assert multiset("single_" + c)['_'] == 1;
  }

  /** Interval jobs share one id per number of days, and only then. */
  lemma EveryDaysJobIdInjective(d1: int, d2: int)
    requires EveryDaysJobId(d1) == EveryDaysJobId(d2)
    ensures d1 == d2
  {
    var s1, s2 := EveryDaysJobId(d1), EveryDaysJobId(d2);
    assert IntText(d1) == s1[10..|s1| - 1];
    assert IntText(d2) == s2[10..|s2| - 1];
    IntTextInjective(d1, d2);
  }

  /** Daily ids are the same exactly for the same hour and minute. */
  lemma DailyJobIdInjective(h1: int, m1: int, h2: int, m2: int)
    requires IsClockTime(h1, m1) && IsClockTime(h2, m2)
    ensures DailyJobId(h1, m1) == DailyJobId(h2, m2) <==> h1 == h2 && m1 == m2
  {
    Pad2InRange(h1);
    Pad2InRange(m1);
    Pad2InRange(h2);
    Pad2InRange(m2);
    var s1, s2 := DailyJobId(h1, m1), DailyJobId(h2, m2);
    if s1 == s2 {
      assert Pad2(h1) == s1[6..8] == s2[6..8] == Pad2(h2);
      assert Pad2(m1) == s1[8..10] == s2[8..10] == Pad2(m2);
    }
  }

  // ------------------------------------------------------------------ weekdays

  /** The days_map of remind_weekly: full lower-case day name to cron abbreviation. */
  const DaysMap: map<string, string> := map[
    "monday" := "mon", "tuesday" := "tue", "wednesday" := "wed",
    "thursday" := "thu", "friday" := "fri", "saturday" := "sat", "sunday" := "sun"]

  /** A weekday is accepted exactly when its lower-case form is one of the
      seven full day names, whatever the case it was typed in. */
  lemma WeekdayCheck(weekday: string)
    ensures Lower(weekday) in DaysMap <==> Lower(weekday) in {"monday", "tuesday", "wednesday", "thursday", "friday", "saturday", "sunday"}
    ensures Lower(weekday) in DaysMap <==> Lower(Lower(weekday)) in DaysMap
  {
    LowerIdempotent(weekday);
  }

  // --------------------------------------------------------------------- plans

  /** remindme: registers unless now + minutes leaves datetime's range, where
      the addition raises before the job is scheduled. The job and the record
      get different ids (see OnceIdsNeverMatch); the clock is read once for the
      job id (idNow) and once for the reminder time (now). */
  function OncePlan(user: UserId, minutes: int, message: string, idNow: Time, now: Time): Plan {
    var remindTime := now + minutes * MicrosPerMinute;
    if !InDatetimeRange(remindTime) then Rejected(Raised)
    else Accepted(Job(user, OnceJobId(user, idNow), RunAt(remindTime), RemoveRecord),
             Record(OnceRecordId(remindTime), message, remindTime, Single))
  }

  /** remind_every_x_days: registers unless now + days leaves datetime's range,
      where the addition raises before the record is added; the callback
      removes the record. */
  function EveryDaysPlan(user: UserId, days: int, message: string, now: Time): Plan {
    var jobId := EveryDaysJobId(days);
    var due := now + days * MicrosPerDay;
    if !InDatetimeRange(due) then Rejected(Raised)
    else
      Accepted(Job(user, jobId, IntervalDays(days), RemoveRecord),
               Record(jobId, message, due, EveryDays(days)))
  }

  /** remind_daily: registers hour:minute tomorrow when the clock fields are in
      range; outside them the trigger and replace() raise first, and on
      datetime's last day adding one day raises. */
  function DailyPlan(user: UserId, hour: int, minute: int, message: string, now: Time): Plan {
    if !IsClockTime(hour, minute) || !InDatetimeRange(NextDailyTime(now, hour, minute)) then Rejected(Raised)
    else
      var jobId := DailyJobId(hour, minute);
      Accepted(Job(user, jobId, DailyCron(hour, minute), RetimeDaily(hour, minute)),
               Record(jobId, message, NextDailyTime(now, hour, minute), Daily))
  }

  /** remind_weekly: rejects a weekday whose lower-case form is not a day name;
      otherwise registers a record stamped with now, which its callback never
      touches. */
  function WeeklyPlan(user: UserId, weekday: string, hour: int, minute: int, message: string, now: Time): Plan {
    var day := Lower(weekday);
    if day !in DaysMap then Rejected(InvalidWeekday)
    else
      var jobId := WeeklyJobId(weekday, hour, minute);
      Accepted(Job(user, jobId, WeeklyCron(DaysMap[day], hour, minute), LeaveRecord),
               Record(jobId, message, now, Weekly(day)))
  }

  /** remind_on_date: a field beyond a C int raises OverflowError, which the
      handler does not catch; an invalid date is reported next, then a time at
      or before now; otherwise the record is kept until the job fires. */
  function OnDatePlan(user: UserId, now: Time, year: int, month: int, day: int,
                      hour: int := 9, minute: int := 0, message: string := "Reminder!"): Plan
  {
    var dt := DateTime(year, month, day, hour, minute);
    if !FieldsFitCInt(dt) then Rejected(Raised)
    else if !IsValidDateTime(dt) then Rejected(InvalidDate)
    else if ToTime(dt) <= now then Rejected(TimeInPast)
    else
      var jobId := OnDateJobId(year, month, day, hour, minute);
      Accepted(Job(user, jobId, RunAt(ToTime(dt)), RemoveRecord),
               Record(jobId, message, ToTime(dt), SpecificDate))
  }

  // ------------------------------------------------------ effect on the registry

  /** A handler adds its record when it accepts and changes nothing otherwise. */
  function Registered(m: Table, plan: Plan): Table {
    if plan.Accepted? then Appended(m, plan.job.user, plan.record) else m
  }

  /** The job's callback, run at `now`. The message is sent first; when the
      send raises (delivered is false) the callback ends before its cleanup.
      The daily callback also raises, changing nothing, when tomorrow is past
      datetime.max. */
  function Fired(m: Table, job: Job, now: Time, delivered: bool): Table
    requires WellFormed(job)
  {
    if !delivered then m
    else
      match job.cleanup
      case RemoveRecord => Removed(m, job.user, job.jobId)
      case RetimeDaily(hour, minute) =>
        var next := NextDailyTime(now, hour, minute);
        if InDatetimeRange(next) then Updated(m, job.user, job.jobId, next) else m
      case LeaveRecord => m
  }

  /** Right after a registration the user's listing ends with the new record,
      carrying the submitted message and kind; other users see no change, and
      a rejected command changes nothing. */
  lemma RegisteredSpec(m: Table, plan: Plan)
    ensures plan.Accepted? ==>
      Listing(Registered(m, plan), plan.job.user) == Some(Entries(m, plan.job.user) + [plan.record])
    ensures plan.Accepted? ==> forall u :: u != plan.job.user ==> SameEntry(m, Registered(m, plan), u)
    ensures plan.Rejected? ==> Registered(m, plan) == m
    ensures NoEmptyList(m) ==> NoEmptyList(Registered(m, plan))
  {
    if plan.Accepted? {
      AppendedSpec(m, plan.job.user, plan.record);
    }
  }

  /** Every job a handler schedules belongs to the calling user and can be fired. */
  lemma PlansAreWellFormed(user: UserId, now: Time, idNow: Time, n: int, hour: int, minute: int,
                           weekday: string, year: int, month: int, day: int, message: string)
    ensures OncePlan(user, n, message, idNow, now).Accepted? ==> OncePlan(user, n, message, idNow, now).job.user == user
    ensures EveryDaysPlan(user, n, message, now).Accepted? ==> EveryDaysPlan(user, n, message, now).job.user == user
    ensures DailyPlan(user, hour, minute, message, now).Accepted? ==>
      DailyPlan(user, hour, minute, message, now).job.user == user && WellFormed(DailyPlan(user, hour, minute, message, now).job)
    ensures WeeklyPlan(user, weekday, hour, minute, message, now).Accepted? ==>
      WeeklyPlan(user, weekday, hour, minute, message, now).job.user == user
    ensures OnDatePlan(user, now, year, month, day, hour, minute, message).Accepted? ==>
      OnDatePlan(user, now, year, month, day, hour, minute, message).job.user == user
  {
  }

  /** The firing callback keeps the registry free of empty lists and leaves
      other users alone; a failed send changes nothing at all. */
  lemma FiredSpec(m: Table, job: Job, now: Time, delivered: bool)
    requires WellFormed(job)
    ensures NoEmptyList(m) ==> NoEmptyList(Fired(m, job, now, delivered))
    ensures forall u :: u != job.user ==> SameEntry(m, Fired(m, job, now, delivered), u)
    ensures !delivered ==> Fired(m, job, now, delivered) == m
  {
    if delivered {
      match job.cleanup
      case RemoveRecord => RemovedSpec(m, job.user, job.jobId);
      case RetimeDaily(hour, minute) => UpdatedSpec(m, job.user, job.jobId, NextDailyTime(now, hour, minute));
      case LeaveRecord =>
    }
  }

  // ------------------------------------------------- what each command promises

  /** remindme: firing the job does not remove the record it added, because the
      callback removes by the job's id; the record stays listed. */
  lemma OnceRecordOutlivesItsJob(m: Table, user: UserId, minutes: int, message: string, idNow: Time, now: Time, later: Time)
    ensures var plan := OncePlan(user, minutes, message, idNow, now);
      plan.Accepted? ==>
        && plan.record.time == now + minutes * MicrosPerMinute
        && Entries(Fired(Registered(m, plan), plan.job, later, true), user)
             == Without(Entries(m, user), plan.job.jobId) + [plan.record]
  {
    var plan := OncePlan(user, minutes, message, idNow, now);
    if plan.Accepted? {
      OnceIdsNeverMatch(user, idNow, now + minutes * MicrosPerMinute);
      WithoutConcat(Entries(m, user), [plan.record], plan.job.jobId);
    }
  }

  /** remind_every_x_days: the first firing removes the record (and every other
      record of the user with the same id) instead of moving its time on. */
  lemma EveryDaysRecordRemovedOnFire(m: Table, user: UserId, days: int, message: string, now: Time, later: Time)
    ensures var plan := EveryDaysPlan(user, days, message, now);
      plan.Accepted? ==>
        var after := Entries(Fired(Registered(m, plan), plan.job, later, true), user);
        && plan.record !in after
        && after == Without(Entries(m, user), EveryDaysJobId(days))
  {
    var plan := EveryDaysPlan(user, days, message, now);
    if plan.Rejected? {
      return;
    }
    var m1 := Registered(m, plan);
    RemovedSpec(m1, user, plan.job.jobId);
    WithoutConcat(Entries(m, user), [plan.record], plan.job.jobId);
    WithoutMembers(Entries(m1, user), plan.job.jobId, plan.record);
  }

  /** remind_daily accepts exactly the in-range clock times (short of
      datetime's last day) and stores a time on the next day at hour:minute. */
  lemma DailyPlanSpec(user: UserId, hour: int, minute: int, message: string, now: Time)
    ensures var plan := DailyPlan(user, hour, minute, message, now);
      && (plan.Accepted? <==> IsClockTime(hour, minute) && InDatetimeRange(NextDailyTime(now, hour, minute)))
      && (plan.Rejected? ==> plan.reply == Raised)
      && (plan.Accepted? ==>
            && plan.record.time / MicrosPerDay == now / MicrosPerDay + 1
            && plan.record.time % MicrosPerDay == hour * MicrosPerHour + minute * MicrosPerMinute
            && now < plan.record.time
            && plan.record.message == message && plan.record.kind == Daily)
  {
    if IsClockTime(hour, minute) {
      NextDailyTimeIsTomorrow(now, hour, minute);
    }
  }

  /** Registering the same daily reminder twice stores two records with the same
      id, and a firing moves on the time of the first of them only. */
  lemma DailyTwiceRetimesFirstOnly(m: Table, user: UserId, hour: int, minute: int, message: string,
                                   now1: Time, now2: Time, fireAt: Time)
    requires IsClockTime(hour, minute)
    requires InDatetimeRange(NextDailyTime(now1, hour, minute)) && InDatetimeRange(NextDailyTime(now2, hour, minute))
    requires InDatetimeRange(NextDailyTime(fireAt, hour, minute))
    requires forall x :: x in Entries(m, user) ==> x.jobId != DailyJobId(hour, minute)
    ensures var p1 := DailyPlan(user, hour, minute, message, now1);
      var p2 := DailyPlan(user, hour, minute, message, now2);
      var twice := Registered(Registered(m, p1), p2);
      && Entries(twice, user) == Entries(m, user) + [p1.record, p2.record]
      && p1.record.jobId == p2.record.jobId
      && Entries(Fired(twice, p1.job, fireAt, true), user)
           == Entries(m, user) + [p1.record.(time := NextDailyTime(fireAt, hour, minute)), p2.record]
  {
    var p1 := DailyPlan(user, hour, minute, message, now1);
    var p2 := DailyPlan(user, hour, minute, message, now2);
    var old_ := Entries(m, user);
    var rs := old_ + [p1.record, p2.record];
    assert Entries(Registered(Registered(m, p1), p2), user) == rs;
    forall k | 0 <= k < |old_|
      ensures rs[k].jobId != p1.job.jobId
    {
      assert rs[k] == old_[k];
      assert old_[k] in Entries(m, user);
    }
    RetimedAt(rs, p1.job.jobId, NextDailyTime(fireAt, hour, minute), |old_|);
  }

  /** remind_weekly: the weekday check decides alone whether anything is
      registered, and the job's callback leaves the record as it is. */
  lemma WeeklyPlanSpec(m: Table, user: UserId, weekday: string, hour: int, minute: int, message: string,
                       now: Time, later: Time)
    ensures var plan := WeeklyPlan(user, weekday, hour, minute, message, now);
      && (plan.Accepted? <==> Lower(weekday) in DaysMap)
      && (plan.Rejected? ==> plan.reply == InvalidWeekday && Registered(m, plan) == m)
      && (plan.Accepted? ==> Fired(Registered(m, plan), plan.job, later, true) == Registered(m, plan)
                              && plan.record.time == now)
  {
  }

  /** remind_on_date: a field beyond a C int raises; an invalid date is
      rejected as such; a valid one at or before now is rejected as past;
      otherwise a record with a future time is added, and a firing whose send
      returns removes it again. */
  lemma OnDatePlanSpec(m: Table, user: UserId, now: Time, year: int, month: int, day: int,
                       hour: int, minute: int, message: string, later: Time)
    ensures var dt := DateTime(year, month, day, hour, minute);
      var plan := OnDatePlan(user, now, year, month, day, hour, minute, message);
      && (plan == Rejected(Raised) <==> !FieldsFitCInt(dt))
      && (plan == Rejected(InvalidDate) <==> FieldsFitCInt(dt) && !IsValidDateTime(dt))
      && (plan == Rejected(TimeInPast) <==> IsValidDateTime(dt) && ToTime(dt) <= now)
      && (plan.Accepted? ==> IsValidDateTime(dt) && now < plan.record.time == ToTime(dt))
      && (plan.Accepted? ==> InDatetimeRange(plan.record.time) && plan.record.jobId == plan.job.jobId)
      && (plan.Accepted? ==> plan.record !in Entries(Fired(Registered(m, plan), plan.job, later, true), user))
  {
    var dt := DateTime(year, month, day, hour, minute);
    if IsValidDateTime(dt) {
      ToTimeInRange(dt);
    }
    var plan := OnDatePlan(user, now, year, month, day, hour, minute, message);
    if plan.Accepted? {
      var m1 := Registered(m, plan);
      RemovedSpec(m1, user, plan.job.jobId);
    }
  }

  /** The two examples of rejected input: an unknown weekday and a month 13. */
  lemma RejectedExamples(user: UserId, now: Time)
    ensures WeeklyPlan(user, "Funday", 9, 0, "x", now) == Rejected(InvalidWeekday)
    ensures OnDatePlan(user, now, 2099, 13, 1, 9, 0, "x") == Rejected(InvalidDate)
    ensures OnDatePlan(user, now, 3000000000, 1, 1, 9, 0, "x") == Rejected(Raised)
  {
    assert Lower("Funday") == "funday";
  }

  /** A date in the past is refused whatever time it is now, once now is past it. */
  lemma PastDateExample(user: UserId, now: Time)
    requires now >= ToTime(DateTime(2000, 1, 1, 9, 0))
    ensures OnDatePlan(user, now, 2000, 1, 1) == Rejected(TimeInPast)
  {
  }

  /** The daily callback fired on the day of the stored time, at or after it,
      moves that time on by exactly one day. */
  lemma DailyFireAdvancesStoredTime(m: Table, job: Job, stored: Time, now: Time)
    requires job.cleanup.RetimeDaily? && WellFormed(job)
    requires stored % MicrosPerDay == job.cleanup.hour * MicrosPerHour + job.cleanup.minute * MicrosPerMinute
    requires stored <= now && now / MicrosPerDay == stored / MicrosPerDay
    requires InDatetimeRange(stored + MicrosPerDay)
    ensures Fired(m, job, now, true) == Updated(m, job.user, job.jobId, stored + MicrosPerDay)
  {
    NextDailyTimeAdvancesOneDay(stored, now, job.cleanup.hour, job.cleanup.minute);
  }

  // ------------------------------------------------------ the handlers in place

  method Register(reg: Registry, plan: Plan) returns (reply: Reply, job: Option<Job>)
    requires reg.Valid()
    modifies reg
    ensures reg.Valid()
    ensures reg.reminders == Registered(old(reg.reminders), plan)
    ensures reply == (if plan.Accepted? then Scheduled else plan.reply)
    ensures job == (if plan.Accepted? then Some(plan.job) else None)
  {
    if plan.Rejected? {
      return plan.reply, None;
    }
    var r := plan.record;
    reg.Add(plan.job.user, r.jobId, r.message, r.time, r.kind);
    return Scheduled, Some(plan.job);
  }

  method RemindMe(reg: Registry, user: UserId, minutes: int, message: string, idNow: Time, now: Time)
    returns (reply: Reply, job: Option<Job>)
    requires reg.Valid()
    modifies reg
    ensures reg.Valid()
    ensures reg.reminders == Registered(old(reg.reminders), OncePlan(user, minutes, message, idNow, now))
    ensures reply == (if InDatetimeRange(now + minutes * MicrosPerMinute) then Scheduled else Raised)
    ensures var plan := OncePlan(user, minutes, message, idNow, now); job == (if plan.Accepted? then Some(plan.job) else None)
  {
    reply, job := Register(reg, OncePlan(user, minutes, message, idNow, now));
  }

  method RemindEveryDays(reg: Registry, user: UserId, days: int, message: string, now: Time)
    returns (reply: Reply, job: Option<Job>)
    requires reg.Valid()
    modifies reg
    ensures reg.Valid()
    ensures reg.reminders == Registered(old(reg.reminders), EveryDaysPlan(user, days, message, now))
    ensures reply == (if InDatetimeRange(now + days * MicrosPerDay) then Scheduled else Raised)
    ensures var plan := EveryDaysPlan(user, days, message, now); job == (if plan.Accepted? then Some(plan.job) else None)
  {
    reply, job := Register(reg, EveryDaysPlan(user, days, message, now));
  }

  method RemindDaily(reg: Registry, user: UserId, hour: int, minute: int, message: string, now: Time)
    returns (reply: Reply, job: Option<Job>)
    requires reg.Valid()
    modifies reg
    ensures reg.Valid()
    ensures reg.reminders == Registered(old(reg.reminders), DailyPlan(user, hour, minute, message, now))
    ensures reply == Scheduled <==> IsClockTime(hour, minute) && InDatetimeRange(NextDailyTime(now, hour, minute))
    ensures reply != Scheduled ==> reply == Raised
    ensures job.Some? ==> WellFormed(job.value)
  {
    reply, job := Register(reg, DailyPlan(user, hour, minute, message, now));
  }

  method RemindWeekly(reg: Registry, user: UserId, weekday: string, hour: int, minute: int, message: string, now: Time)
    returns (reply: Reply, job: Option<Job>)
    requires reg.Valid()
    modifies reg
    ensures reg.Valid()
    ensures reg.reminders == Registered(old(reg.reminders), WeeklyPlan(user, weekday, hour, minute, message, now))
    ensures reply == (if Lower(weekday) in DaysMap then Scheduled else InvalidWeekday)
  {
    reply, job := Register(reg, WeeklyPlan(user, weekday, hour, minute, message, now));
  }

  method RemindOnDate(reg: Registry, user: UserId, now: Time, year: int, month: int, day: int,
                      hour: int := 9, minute: int := 0, message: string := "Reminder!")
    returns (reply: Reply, job: Option<Job>)
    requires reg.Valid()
    modifies reg
    ensures reg.Valid()
    ensures reg.reminders == Registered(old(reg.reminders), OnDatePlan(user, now, year, month, day, hour, minute, message))
    ensures var dt := DateTime(year, month, day, hour, minute);
      && (!FieldsFitCInt(dt) ==> reply == Raised)
      && (FieldsFitCInt(dt) && !IsValidDateTime(dt) ==> reply == InvalidDate)
      && (IsValidDateTime(dt) && ToTime(dt) <= now ==> reply == TimeInPast)
      && (IsValidDateTime(dt) && now < ToTime(dt) ==> reply == Scheduled)
  {
    reply, job := Register(reg, OnDatePlan(user, now, year, month, day, hour, minute, message));
  }

  /** A scheduled job's callback, run at `now`; delivered says whether sending
      the message returned. */
  method Fire(reg: Registry, job: Job, now: Time, delivered: bool)
    requires reg.Valid() && WellFormed(job)
    modifies reg
    ensures reg.Valid()
    ensures reg.reminders == Fired(old(reg.reminders), job, now, delivered)
  {
    if !delivered {
      return;
    }
    match job.cleanup
    case RemoveRecord =>
      reg.Remove(job.user, job.jobId);
    case RetimeDaily(hour, minute) =>
      var next := NextDailyTime(now, hour, minute);
      if InDatetimeRange(next) {
        reg.UpdateTime(job.user, job.jobId, next);
      }
    case LeaveRecord =>
  }
}
