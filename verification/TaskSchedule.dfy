/**
  When a recurring task runs next: picking the first slot from a request, and
  advancing it on completion. Zones have a fixed offset from UTC.
 */
module TaskSchedule {
  import opened Wrappers
  import opened Calendar

  const HOUR: int := 3_600_000_000
  const DAY: int := 86_400_000_000

  /** A local wall-clock time: a day number and the microseconds into that day. */
  datatype Stamp = Stamp(day: int, micros: int)

  predicate IsStamp(s: Stamp) {
    s.day >= 1 && 0 <= s.micros < DAY
  }

  predicate Earlier(s: Stamp, t: Stamp) {
    s.day < t.day || (s.day == t.day && s.micros < t.micros)
  }

  /** UTC instants, as stored, in microseconds; offset is the zone's distance from UTC. */
  function ToInstant(s: Stamp, offset: int): int {
    s.day * DAY + s.micros - offset
  }

  function ToLocal(instant: int, offset: int): Stamp {
    Stamp((instant + offset) / DAY, (instant + offset) % DAY)
  }

  lemma LocalRoundTrip(s: Stamp, offset: int)
    requires IsStamp(s)
    ensures ToLocal(ToInstant(s, offset), offset) == s
  {
  }

  lemma LocalOf(instant: int, offset: int)
    ensures ToInstant(ToLocal(instant, offset), offset) == instant
  {
  }

  /** datetime weekday: Monday is 0, and day 1 was a Monday. */
  function Weekday(day: int): int {
    (day + 6) % 7
  }

  /** 1 January 1970 was a Thursday. */
  lemma EpochIsThursday()
    ensures DayNumber(Date(1970, 1, 1)) == 719163 && Weekday(719163) == 3
  {
    DaysBeforeYear(1970);
  }

  function PlusMonths(s: Stamp, months: int): Stamp
    requires IsStamp(s)
  {
    Stamp(DayNumber(AddMonths(DateOf(s.day), months)), s.micros)
  }

  function PlusDays(s: Stamp, days: int): Stamp {
    Stamp(s.day + days, s.micros)
  }

  // ------------------------------------------------------- first slot

  datatype Recurrence = Once | Daily | Weekly | Monthly | Quarterly | Yearly

  /** A date written in the request, with its time if one was given. */
  datatype IsoStamp = IsoStamp(date: Date, hour: Option<int>, minute: Option<int>)

  /** What the text of the request says about time. */
  datatype Cues = Cues(iso: Option<IsoStamp>, nextWeek: bool, tomorrow: bool, hour: int)

  /** The hour and weekday kept in the recurrence rule. */
  datatype Rule = Rule(hour: Option<int>, weekday: int)

  datatype Slot = At(s: Stamp) | Unscheduled | Invalid

  function HourOf(cues: Cues, rule: Rule): int {
    if rule.hour.Some? && rule.hour.value != 0 then rule.hour.value else cues.hour
  }

  predicate OnSlot(s: Stamp, hour: int, recurrence: Recurrence, rule: Rule) {
    s.micros == hour * HOUR && (recurrence.Weekly? ==> Weekday(s.day) == rule.weekday)
  }

  function IsoSlot(iso: IsoStamp, cues: Cues): Slot {
    var hour := if iso.hour.Some? then iso.hour.value else cues.hour;
    var minute := if iso.minute.Some? then iso.minute.value else 0;
    if IsDate(iso.date) && 0 <= hour < 24 && 0 <= minute < 60
    then At(Stamp(DayNumber(iso.date), hour * HOUR + minute * 60_000_000))
    else Invalid
  }

  /** The date written, at its hour and minute; the hour defaults to the text's and the minute to zero. */
  lemma IsoSlotIs(iso: IsoStamp, cues: Cues, hour: int, minute: int)
    requires iso.hour == Some(hour) || (iso.hour.None? && hour == cues.hour)
    requires iso.minute == Some(minute) || (iso.minute.None? && minute == 0)
    ensures IsoSlot(iso, cues).Invalid? <==> !(IsDate(iso.date) && 0 <= hour < 24 && 0 <= minute < 60)
    ensures !IsoSlot(iso, cues).Unscheduled?
    ensures IsoSlot(iso, cues).At? ==>
              var s := IsoSlot(iso, cues).s;
              && IsStamp(s) && DateOf(s.day) == iso.date
              && s.micros / HOUR == hour && s.micros % HOUR / 60_000_000 == minute && s.micros % 60_000_000 == 0
  {
    hide DateOf, DayNumber, IsDate;
    if IsDate(iso.date) { DateRoundTrip(iso.date); }
  }

  function MonthsOf(recurrence: Recurrence): nat {
    match recurrence
    case Monthly => 1
    case Quarterly => 3
    case Yearly => 12
    case _ => 0
  }

  /** Adding the months of a recurrence lands later, on the clamped date. */
  lemma MonthSlot(s: Stamp, recurrence: Recurrence)
    requires IsStamp(s) && MonthsOf(recurrence) > 0
    ensures PlusMonths(s, MonthsOf(recurrence)).day > s.day
    ensures DateOf(PlusMonths(s, MonthsOf(recurrence)).day) == AddMonths(DateOf(s.day), MonthsOf(recurrence))
  {
    MonthsAreLater(s);
    DayNumberRoundTrip(s.day);
    AddMonthsByIndex(DateOf(s.day), MonthsOf(recurrence));
    DateRoundTrip(AddMonths(DateOf(s.day), MonthsOf(recurrence)));
  }

  /** The first day with a given weekday, from a day on. */
  lemma NextWeekday(day: int, weekday: int)
    requires 0 <= weekday < 7
    ensures var days := (weekday - Weekday(day)) % 7;
            && 0 <= days < 7 && Weekday(day + days) == weekday
            && forall d :: day <= d && Weekday(d) == weekday ==> d == day + days || d >= day + days + 7
    ensures Weekday(day + 7) == Weekday(day)
  {
    hide Weekday;
    var days := (weekday - Weekday(day)) % 7;
    WeekdayAhead(day, days);
    WeekdayAhead(day, 7);
    forall d | day <= d && Weekday(d) == weekday ensures d == day + days || d >= day + days + 7 {
      SameWeekday(day + days, d);
    }
  }

  lemma WeekdayAhead(day: int, k: int)
    ensures 0 <= Weekday(day) < 7 && Weekday(day + k) == (Weekday(day) + k) % 7
  {
  }

  lemma SameWeekday(a: int, b: int)
    requires Weekday(a) == Weekday(b) && b > a - 7
    ensures b == a || b >= a + 7
  {
    assert (b - a) % 7 == 0;
  }

  /** _next_run, in local time. */
  method NextRun(cues: Cues, recurrence: Recurrence, rule: Rule, now: Stamp) returns (r: Slot)
    requires IsStamp(now) && 0 <= HourOf(cues, rule) < 24 && 0 <= rule.weekday < 7
    ensures cues.iso.Some? ==> r == IsoSlot(cues.iso.value, cues)
    ensures cues.iso.None? ==> (r.Unscheduled? <==> recurrence.Once? && !cues.nextWeek && !cues.tomorrow) && !r.Invalid?
    ensures cues.iso.None? && r.At? ==> Earlier(now, r.s)
    ensures cues.iso.None? && r.At? && rule.hour.Some? && rule.hour.value > 0 ==> r.s.micros == rule.hour.value * HOUR
    ensures cues.iso.None? && r.At? && (rule.hour.None? || rule.hour.value == 0) ==> r.s.micros == cues.hour * HOUR
    ensures cues.iso.None? && cues.nextWeek ==> r.At? && r.s.day == now.day + 7
    ensures cues.iso.None? && !cues.nextWeek && cues.tomorrow ==> r.At? && r.s.day == now.day + 1
    ensures cues.iso.None? && !cues.nextWeek && !cues.tomorrow && (recurrence.Daily? || recurrence.Weekly?) ==>
              && r.At?
              && OnSlot(r.s, HourOf(cues, rule), recurrence, rule)
              && forall t :: Earlier(now, t) && OnSlot(t, HourOf(cues, rule), recurrence, rule) ==> !Earlier(t, r.s)
    ensures cues.iso.None? && !cues.nextWeek && !cues.tomorrow && MonthsOf(recurrence) > 0 ==>
              r.At? && r.s.day >= 1 && DateOf(r.s.day) == AddMonths(DateOf(now.day), MonthsOf(recurrence))
  {
    if cues.iso.Some? {
      return IsoSlot(cues.iso.value, cues);
    }
    var candidate := now.(micros := HourOf(cues, rule) * HOUR);
    if cues.nextWeek {
      return At(PlusDays(candidate, 7));
    }
    if cues.tomorrow {
      return At(PlusDays(candidate, 1));
    }
    match recurrence {
      case Daily =>
        if !Earlier(now, candidate) {
          candidate := PlusDays(candidate, 1);
        }
      case Weekly =>
        NextWeekday(now.day, rule.weekday);
        var days := (rule.weekday - Weekday(now.day)) % 7;
        if days == 0 && !Earlier(now, candidate) {
          days := 7;
        }
        candidate := PlusDays(candidate, days);
      case Monthly =>
        MonthSlot(candidate, recurrence);
        candidate := PlusMonths(candidate, 1);
      case Quarterly =>
        MonthSlot(candidate, recurrence);
        candidate := PlusMonths(candidate, 3);
      case Yearly =>
        MonthSlot(candidate, recurrence);
        candidate := PlusMonths(candidate, 12);
      case Once =>
        return Unscheduled;
    }
    return At(candidate);
  }

  lemma MonthsAreLater(s: Stamp)
    requires IsStamp(s)
    ensures 28 <= PlusMonths(s, 1).day - s.day <= 31
    ensures 89 <= PlusMonths(s, 3).day - s.day <= 92
    ensures 365 <= PlusMonths(s, 12).day - s.day <= 366
  {
    DayNumberRoundTrip(s.day);
    OneMonthOn(DateOf(s.day));
    ThreeMonthsOn(DateOf(s.day));
    OneYearOn(DateOf(s.day));
  }

  // ------------------------------------------------------- advancing

  /** The next run after base for a stored recurrence type; unknown types count days like custom ones. */
  function Advanced(recurrence: string, interval: Option<int>, base: Stamp): Stamp
    requires IsStamp(base)
  {
    if recurrence == "daily" then PlusDays(base, 1)
    else if recurrence == "weekly" then PlusDays(base, 7)
    else if recurrence == "monthly" then PlusMonths(base, 1)
    else if recurrence == "quarterly" then PlusMonths(base, 3)
    else if recurrence == "yearly" then PlusMonths(base, 12)
    else PlusDays(base, CustomDays(interval))
  }

  /** interval_days, where a missing or zero interval means one day. */
  function CustomDays(interval: Option<int>): int {
    if interval.Some? && interval.value != 0 then interval.value else 1
  }

  /** Every advance keeps the time of day and moves on by the days its recurrence promises. */
  lemma AdvanceBounds(recurrence: string, interval: Option<int>, base: Stamp)
    requires IsStamp(base)
    ensures var next := Advanced(recurrence, interval, base);
            var gap := next.day - base.day;
            && next.micros == base.micros
            && (recurrence == "daily" ==> gap == 1)
            && (recurrence == "weekly" ==> gap == 7)
            && (recurrence == "monthly" ==> 28 <= gap <= 31)
            && (recurrence == "quarterly" ==> 89 <= gap <= 92)
            && (recurrence == "yearly" ==> 365 <= gap <= 366)
            && (recurrence !in {"daily", "weekly", "monthly", "quarterly", "yearly"} ==>
                  && (interval.Some? && interval.value != 0 ==> gap == interval.value)
                  && (interval.None? || interval.value == 0 ==> gap == 1))
  {
    MonthsAreLater(base);
  }

  /** An advance is strictly later unless the recurrence is custom with a negative interval. */
  lemma AdvanceIsLaterIff(recurrence: string, interval: Option<int>, base: Stamp)
    requires IsStamp(base)
    ensures Earlier(base, Advanced(recurrence, interval, base)) <==>
            recurrence in {"daily", "weekly", "monthly", "quarterly", "yearly"} || interval.None? || interval.value >= 0
  {
    MonthsAreLater(base);
  }

  /** advance_next_run on stored values: a task that does not recur has no next run. */
  function AdvanceNextRun(recurrence: string, interval: Option<int>, nextRun: Option<int>, now: int, offset: int): Option<int>
    requires recurrence == "" || recurrence == "none" || IsStamp(ToLocal(Base(nextRun, now), offset))
  {
    if recurrence == "" || recurrence == "none" then None
    else Some(ToInstant(Advanced(recurrence, interval, ToLocal(Base(nextRun, now), offset)), offset))
  }

  function Base(nextRun: Option<int>, now: int): int {
    if nextRun.Some? then nextRun.value else now
  }

  // ------------------------------------------------- repeated month steps

  /** Months per step of a calendar recurrence. */
  function MonthStep(recurrence: string): nat {
    if recurrence == "monthly" then 1 else if recurrence == "quarterly" then 3 else if recurrence == "yearly" then 12 else 0
  }

  /** The smallest of a day and the lengths of the months reached in n steps from month m. */
  function LeastDay(day: int, m: int, step: int, n: nat): int {
    if n == 0 then day else Min(LeastDay(day, m, step, n - 1), MonthLength(m + step * n))
  }

  function Repeated(recurrence: string, interval: Option<int>, base: Stamp, n: nat): Stamp
    requires IsStamp(base)
    requires recurrence in {"daily", "weekly", "monthly", "quarterly", "yearly"} || interval.None? || interval.value >= 0
    ensures IsStamp(Repeated(recurrence, interval, base, n))
  {
    if n == 0 then base
    else
      var s := Repeated(recurrence, interval, base, n - 1);
      AdvanceIsLaterIff(recurrence, interval, s);
      AdvanceBounds(recurrence, interval, s);
      Advanced(recurrence, interval, s)
  }

  lemma OneMonthStep(recurrence: string, interval: Option<int>, s: Stamp)
    requires IsStamp(s) && MonthStep(recurrence) > 0
    ensures IsStamp(Advanced(recurrence, interval, s))
    ensures var d, e := DateOf(s.day), DateOf(Advanced(recurrence, interval, s).day);
            && IsDate(d) && IsDate(e)
            && MonthIndex(e) == MonthIndex(d) + MonthStep(recurrence)
            && e.day == Min(d.day, MonthLength(MonthIndex(e)))
            && Advanced(recurrence, interval, s).micros == s.micros
  {
    MonthsAreLater(s);
    DayNumberRoundTrip(s.day);
    AddMonthsByIndex(DateOf(s.day), MonthStep(recurrence));
    DateRoundTrip(AddMonths(DateOf(s.day), MonthStep(recurrence)));
  }

  lemma OneMoreStep(step: nat, n: nat)
    requires n > 0
    ensures step * n == step * (n - 1) + step
  {
  }

  /** s stands n steps of months after base, on the smallest day seen, at the same time of day. */
  ghost predicate StandsAt(base: Stamp, s: Stamp, step: nat, n: nat)
    requires IsStamp(base) && IsStamp(s)
  {
    var start, date := DateOf(base.day), DateOf(s.day);
    && MonthIndex(date) == MonthIndex(start) + step * n
    && date.day == LeastDay(start.day, MonthIndex(start), step, n)
    && s.micros == base.micros
  }

  lemma StandsOneFurther(recurrence: string, interval: Option<int>, base: Stamp, s: Stamp, n: nat)
    requires IsStamp(base) && IsStamp(s) && MonthStep(recurrence) > 0 && n > 0
    requires StandsAt(base, s, MonthStep(recurrence), n - 1)
    ensures IsStamp(Advanced(recurrence, interval, s))
    ensures StandsAt(base, Advanced(recurrence, interval, s), MonthStep(recurrence), n)
  {
    OneMonthStep(recurrence, interval, s);
    OneMoreStep(MonthStep(recurrence), n);
  }

  /**
    n advances of a calendar recurrence land n steps of months on, on the
    smallest of the first day and the lengths of all months visited.
   */
  lemma {:induction false} RepeatedMonths(recurrence: string, interval: Option<int>, base: Stamp, n: nat)
    requires IsStamp(base) && MonthStep(recurrence) > 0
    ensures StandsAt(base, Repeated(recurrence, interval, base, n), MonthStep(recurrence), n)
  {
    if n > 0 {
      var s := Repeated(recurrence, interval, base, n - 1);
      RepeatedMonths(recurrence, interval, base, n - 1);
      StandsOneFurther(recurrence, interval, base, s, n);
    }
  }

  lemma {:induction false} LeastDayKept(day: int, m: int, n: nat)
    requires day <= 28
    ensures LeastDay(day, m, 1, n) == day
  {
    if n > 0 { LeastDayKept(day, m, n - 1); }
  }

  /** From any month a run of single months reaches the February of a common year. */
  lemma ReachesShortFebruary(d: Date) returns (n: nat)
    requires IsDate(d)
    ensures n > 0 && MonthLength(MonthIndex(d) + 1 * n) == 28
  {
    var year := if IsLeap(d.year + 1) then d.year + 2 else d.year + 1;
    n := year * 12 + 1 - MonthIndex(d);
    MonthIndexSplits(Date(year, 2, 1));
  }

  /** A monthly task keeps its day through every completion exactly when that day is at most the 28th. */
  lemma MonthlyDayKeptIffAtMost28(interval: Option<int>, base: Stamp)
    requires IsStamp(base)
    ensures (forall n: nat :: DateOf(Repeated("monthly", interval, base, n).day).day == DateOf(base.day).day) <==>
            DateOf(base.day).day <= 28
  {
    var start := DateOf(base.day);
    if start.day <= 28 {
      forall n: nat ensures DateOf(Repeated("monthly", interval, base, n).day).day == start.day {
        RepeatedMonths("monthly", interval, base, n);
        LeastDayKept(start.day, MonthIndex(start), n);
      }
    } else {
      DayNumberRoundTrip(base.day);
      var n := ReachesShortFebruary(start);
      RepeatedMonths("monthly", interval, base, n);
      assert DateOf(Repeated("monthly", interval, base, n).day).day != start.day;
    }
  }
}
