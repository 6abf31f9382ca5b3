/**
  The rollover scheduler shared by both hooks (`rolloverAfter`): the pattern is rendered at
  `now` and at five probes, one minute, one hour, one day, one month and one year later; the
  first probe whose rendered name differs decides the granularity, and the result is the
  distance from `now` to the start of that unit at the probed instant.
*/
module Scheduler {
  import opened CivilTime

  /** Go's `t.Format(pattern)`. The layout dialect is not modelled: any renderer will do. */
  type Renderer = (string, Civil) -> string

  /** The five granularities, finest first. */
  datatype Unit = Minute | Hour | Day | Month | Year

  function Rank(u: Unit): nat {
    match u
    case Minute => 0
    case Hour => 1
    case Day => 2
    case Month => 3
    case Year => 4
  }

  /** The instant probed for `u`: `Add` for minute and hour, `AddDate` for the calendar units. */
  function Probe(u: Unit, now: Civil): (t: Civil)
    requires Valid(now)
    ensures Valid(t)
  {
    match u
    case Minute => Add(now, NanosPerMinute)
    case Hour => Add(now, NanosPerHour)
    case Day => AddDate(now, 0, 0, 1)
    case Month => AddDate(now, 0, 1, 0)
    case Year => AddDate(now, 1, 0, 0)
  }

  /**
    The first instant of the unit `u` that contains the valid reading `t`: every field finer
    than `u` at its least value.  Go builds it with `time.Date`, which leaves these in-range
    fields as they are (`StartOfIsTimeDate`).
  */
  function StartOf(u: Unit, t: Civil): (s: Civil)
    requires Valid(t)
    ensures Valid(s)
  {
    match u
    case Minute => Civil(t.year, t.month, t.day, t.hour, t.minute, 0, 0)
    case Hour => Civil(t.year, t.month, t.day, t.hour, 0, 0, 0)
    case Day => Civil(t.year, t.month, t.day, 0, 0, 0, 0)
    case Month => Civil(t.year, t.month, 1, 0, 0, 0, 0)
    case Year => Civil(t.year, 1, 1, 0, 0, 0, 0)
  }

  /** `StartOf` is what the `time.Date` calls of `rolloverAfter` return. */
  lemma StartOfIsTimeDate(u: Unit, t: Civil)
    requires Valid(t)
    ensures StartOf(u, t) ==
      match u
      case Minute => MakeTime(t.year, t.month, t.day, t.hour, t.minute, 0, 0)
      case Hour => MakeTime(t.year, t.month, t.day, t.hour, 0, 0, 0)
      case Day => MakeTime(t.year, t.month, t.day, 0, 0, 0, 0)
      case Month => MakeTime(t.year, t.month, 1, 0, 0, 0, 0)
      case Year => MakeTime(t.year, 1, 1, 0, 0, 0, 0)
  {
    MakeTimeOfValid(StartOf(u, t));
  }

  /** True when the reading `c` is the first instant of a `u`. */
  predicate IsStartOf(u: Unit, c: Civil) {
    && c.second == 0 && c.nanosecond == 0
    && (Rank(u) >= 1 ==> c.minute == 0)
    && (Rank(u) >= 2 ==> c.hour == 0)
    && (Rank(u) >= 3 ==> c.day == 1)
    && (Rank(u) >= 4 ==> c.month == 1)
  }

  /** The rendered name at the probe for `u` differs from the name at `now`. */
  predicate Changes(render: Renderer, pattern: string, now: Civil, u: Unit)
    requires Valid(now)
  {
    render(pattern, Probe(u, now)) != render(pattern, now)
  }

  /** `u` is the finest granularity whose probe changes the name. */
  predicate Fires(render: Renderer, pattern: string, now: Civil, u: Unit)
    requires Valid(now)
  {
    && Changes(render, pattern, now, u)
    && (Rank(u) > 0 ==> !Changes(render, pattern, now, Minute))
    && (Rank(u) > 1 ==> !Changes(render, pattern, now, Hour))
    && (Rank(u) > 2 ==> !Changes(render, pattern, now, Day))
    && (Rank(u) > 3 ==> !Changes(render, pattern, now, Month))
  }

  /** No probe changes the rendered name: the pattern has no time-varying part up to years. */
  predicate NeverChanges(render: Renderer, pattern: string, now: Civil)
    requires Valid(now)
  {
    && !Changes(render, pattern, now, Minute)
    && !Changes(render, pattern, now, Hour)
    && !Changes(render, pattern, now, Day)
    && !Changes(render, pattern, now, Month)
    && !Changes(render, pattern, now, Year)
  }

  /** The month whose first day is the monthly boundary: the next month, or the one after it when `now.day` overflows the next month. */
  function MonthBoundary(now: Civil): (r: Date)
    requires Valid(now)
    ensures 1 <= r.month <= 12 && r.day == 1
  {
    var n := NextMonth(now.year, now.month);
    if now.day <= DaysIn(n.year, n.month) then n else NextMonth(n.year, n.month)
  }

  /** Closed form of the distance from `now` to the boundary of unit `u`, in nanoseconds. */
  function Distance(u: Unit, now: Civil): int
    requires Valid(now)
  {
    match u
    case Minute => NanosPerMinute - ClockNanos(0, 0, now.second, now.nanosecond)
    case Hour => NanosPerHour - ClockNanos(0, now.minute, now.second, now.nanosecond)
    case Day => NanosPerDay - ClockNanos(now.hour, now.minute, now.second, now.nanosecond)
    case Month => DayNumber(MonthBoundary(now)) * NanosPerDay - ToNanos(now)
    case Year => DaysBeforeYear(now.year + 1) * NanosPerDay - ToNanos(now)
  }

  /** The longest a rollover of unit `u` can be away. */
  function MaxDistance(u: Unit): int {
    match u
    case Minute => NanosPerMinute
    case Hour => NanosPerHour
    case Day => NanosPerDay
    case Month => 31 * NanosPerDay
    case Year => 366 * NanosPerDay
  }

  /** Going from the probe back to the start of its unit lands exactly `Distance(u, now)` after `now`. */
  lemma ProbeDistance(u: Unit, now: Civil)
    requires Valid(now)
    ensures ToNanos(StartOf(u, Probe(u, now))) - ToNanos(now) == Distance(u, now)
  {
    match u
    case Minute => ProbeMinute(now);
    case Hour => ProbeHour(now);
    case Day => ProbeDay(now);
    case Month => ProbeMonth(now);
    case Year => ProbeYear(now);
  }

  lemma ProbeMinute(now: Civil)
    requires Valid(now)
    ensures ToNanos(StartOf(Minute, Probe(Minute, now))) - ToNanos(now) == Distance(Minute, now)
  {
    MinuteApart(now, Probe(Minute, now));
  }

  lemma ProbeHour(now: Civil)
    requires Valid(now)
    ensures ToNanos(StartOf(Hour, Probe(Hour, now))) - ToNanos(now) == Distance(Hour, now)
  {
    HourApart(now, Probe(Hour, now));
  }

  lemma ProbeDay(now: Civil)
    requires Valid(now)
    ensures ToNanos(StartOf(Day, Probe(Day, now))) - ToNanos(now) == Distance(Day, now)
  {
    DayApart(now, Probe(Day, now));
  }

  /** `now.AddDate(0, 1, 0)` lies in the month `MonthBoundary(now)`. */
  lemma ProbeMonth(now: Civil)
    requires Valid(now)
    ensures Probe(Month, now).year == MonthBoundary(now).year
    ensures Probe(Month, now).month == MonthBoundary(now).month
  {
    var n := NextMonth(now.year, now.month);
    MakeTimeOfValidClock(now.year, now.month + 1, now.day, now.hour, now.minute, now.second, now.nanosecond);
    assert NormMonth(now.year, now.month + 1) == n;
    var date := NormalizeDate(n.year, n.month, now.day);
    assert Probe(Month, now).year == date.year && Probe(Month, now).month == date.month;
    assert date == CarryDays(n.year, n.month, now.day);
    if now.day > DaysIn(n.year, n.month) {
      var nn := NextMonth(n.year, n.month);
      assert date == CarryDays(nn.year, nn.month, now.day - DaysIn(n.year, n.month));
      assert CarryDays(nn.year, nn.month, now.day - DaysIn(n.year, n.month)) == Date(nn.year, nn.month, now.day - DaysIn(n.year, n.month));
    }
  }

  /** `now.AddDate(1, 0, 0)` lies in the year after `now` (February 29 becomes March 1). */
  lemma ProbeYear(now: Civil)
    requires Valid(now)
    ensures Probe(Year, now).year == now.year + 1
  {
    MakeTimeOfValidClock(now.year + 1, now.month, now.day, now.hour, now.minute, now.second, now.nanosecond);
    assert NormMonth(now.year + 1, now.month) == Date(now.year + 1, now.month, 1);
    var date := NormalizeDate(now.year + 1, now.month, now.day);
    assert Probe(Year, now).year == date.year;
    assert date == CarryDays(now.year + 1, now.month, now.day);
    if now.day > DaysIn(now.year + 1, now.month) {
      assert now.month == 2;
      assert date == CarryDays(now.year + 1, 3, now.day - DaysIn(now.year + 1, 2));
      assert CarryDays(now.year + 1, 3, now.day - DaysIn(now.year + 1, 2)) == Date(now.year + 1, 3, 1);
    }
  }

  /** Every boundary is strictly after `now` and at most one unit away (31 days for a month, 366 for a year). */
  lemma DistanceBounds(u: Unit, now: Civil)
    requires Valid(now)
    ensures 0 < Distance(u, now) <= MaxDistance(u)
  {
    var today := Date(now.year, now.month, now.day);
    match u
    case Minute =>
    case Hour =>
    case Day =>
    case Month =>
      var n := NextMonth(now.year, now.month);
      MonthStep(now.year, now.month);
      MonthStep(n.year, n.month);
      assert DayNumber(today) < DayNumber(MonthBoundary(now)) <= DayNumber(today) + 31;
    case Year =>
      DayNumberInYear(today);
      YearStep(now.year);
      assert DaysBeforeYear(now.year) <= DayNumber(today);
  }

  /** Waiting `Distance(u, now)` lands exactly on the start of unit `u` at the probed instant. */
  lemma LandsOnStart(u: Unit, now: Civil)
    requires Valid(now)
    ensures var b := Add(now, Distance(u, now));
      && b == StartOf(u, Probe(u, now))
      && IsStartOf(u, b)
      && (u == Month ==> b == Civil(MonthBoundary(now).year, MonthBoundary(now).month, 1, 0, 0, 0, 0))
      && (u == Year ==> b == Civil(now.year + 1, 1, 1, 0, 0, 0, 0))
  {
    var b := Add(now, Distance(u, now));
    var t1 := Probe(u, now);
    ProbeDistance(u, now);
    ToNanosInjective(b, StartOf(u, t1));
    if u == Month {
      ProbeMonth(now);
    } else if u == Year {
      ProbeYear(now);
    }
  }

  /** The next coarser unit. */
  function Coarser(u: Unit): (c: Unit)
    requires u != Year
    ensures Rank(c) == Rank(u) + 1
  {
    match u
    case Minute => Hour
    case Hour => Day
    case Day => Month
    case Month => Year
  }

  /**
    Go's `rolloverAfter`: probes minute, hour, day, month and year in that order and, at the
    first probe whose rendered name differs from the name at `now`, returns the distance to
    the start of that unit at the probed instant; 0 when no probe changes the name.
  */
  function RolloverAfter(render: Renderer, pattern: string, now: Civil): (d: int)
    requires Valid(now)
    ensures d >= 0
  {
    RolloverFrom(render, pattern, now, Minute)
  }

  /** The probes from `u` up to years, in order; the first that changes the name decides. */
  function RolloverFrom(render: Renderer, pattern: string, now: Civil, u: Unit): (d: int)
    requires Valid(now)
    ensures d >= 0
    decreases 4 - Rank(u)
  {
    if Changes(render, pattern, now, u) then Rolled(u, now)
    else if u == Year then 0
    else RolloverFrom(render, pattern, now, Coarser(u))
  }

  /** `rolloverAfter` returns 0 exactly when no probe changes the rendered name. */
  lemma RolloverAfterZero(render: Renderer, pattern: string, now: Civil)
    requires Valid(now)
    ensures RolloverAfter(render, pattern, now) == 0 <==> NeverChanges(render, pattern, now)
  {
    RolloverFromStep(render, pattern, now, Minute);
    RolloverFromStep(render, pattern, now, Hour);
    RolloverFromStep(render, pattern, now, Day);
    RolloverFromStep(render, pattern, now, Month);
    RolloverFromStep(render, pattern, now, Year);
  }

  /**
    When `u` is the finest unit whose probe changes the rendered name, `rolloverAfter` returns
    the distance to the start of `u` at the probed instant.
  */
  lemma RolloverAfterFires(render: Renderer, pattern: string, now: Civil, u: Unit)
    requires Valid(now)
    ensures Fires(render, pattern, now, u) ==> RolloverAfter(render, pattern, now) == Distance(u, now)
  {
    RolloverFromStep(render, pattern, now, Minute);
    if Rank(u) > 0 {
      RolloverFromStep(render, pattern, now, Hour);
    }
    if Rank(u) > 1 {
      RolloverFromStep(render, pattern, now, Day);
    }
    if Rank(u) > 2 {
      RolloverFromStep(render, pattern, now, Month);
    }
    if Rank(u) > 3 {
      RolloverFromStep(render, pattern, now, Year);
    }
  }

  /** One step of the walk: the probe for `u` decides, or the walk goes on with the next unit. */
  lemma RolloverFromStep(render: Renderer, pattern: string, now: Civil, u: Unit)
    requires Valid(now)
    ensures var d := RolloverFrom(render, pattern, now, u);
      && (Changes(render, pattern, now, u) ==> 0 < d == Distance(u, now))
      && (!Changes(render, pattern, now, u) && u != Year ==> d == RolloverFrom(render, pattern, now, Coarser(u)))
      && (!Changes(render, pattern, now, u) && u == Year ==> d == 0)
  {
  }

  /** `t2.Sub(now)` where `t2` is the start of unit `u` at the probed instant. */
  function Rolled(u: Unit, now: Civil): (d: int)
    requires Valid(now)
    ensures 0 < d == Distance(u, now) <= MaxDistance(u)
  {
    ProbeDistance(u, now);
    DistanceBounds(u, now);
    ToNanos(StartOf(u, Probe(u, now))) - ToNanos(now)
  }

  /** When a rollover is due, waiting the returned duration lands on the start of the firing unit. */
  lemma RolloverLandsOnBoundary(render: Renderer, pattern: string, now: Civil)
    requires Valid(now)
    ensures var d := RolloverAfter(render, pattern, now);
      d > 0 ==> exists u :: Fires(render, pattern, now, u) && IsStartOf(u, Add(now, d)) && d <= MaxDistance(u)
  {
    var d := RolloverAfter(render, pattern, now);
    RolloverAfterZero(render, pattern, now);
    if d > 0 {
      var u :=
        if Changes(render, pattern, now, Minute) then Minute
        else if Changes(render, pattern, now, Hour) then Hour
        else if Changes(render, pattern, now, Day) then Day
        else if Changes(render, pattern, now, Month) then Month
        else Year;
      assert Fires(render, pattern, now, u);
      RolloverAfterFires(render, pattern, now, u);
      LandsOnStart(u, now);
    }
  }

  /**
    The documented example, for any year: at 23:59:01 on December 31 with a per-minute
    pattern, the next file is opened 59 seconds later, at midnight on January 1.
  */
  lemma NewYearMinuteRollover(render: Renderer, pattern: string, year: int)
    requires Changes(render, pattern, Civil(year, 12, 31, 23, 59, 1, 0), Minute)
    ensures var now := Civil(year, 12, 31, 23, 59, 1, 0);
      && RolloverAfter(render, pattern, now) == 59 * NanosPerSecond
      && Add(now, 59 * NanosPerSecond) == Civil(year + 1, 1, 1, 0, 0, 0, 0)
  {
    var now := Civil(year, 12, 31, 23, 59, 1, 0);
    var midnight := Civil(year + 1, 1, 1, 0, 0, 0, 0);
    RolloverAfterFires(render, pattern, now, Minute);
    assert DayNumber(Date(year + 1, 1, 1)) == DayNumber(Date(year, 12, 31)) + 1 by {
      YearStep(year);
    }
    ToNanosInjective(Add(now, 59 * NanosPerSecond), midnight);
  }

  /**
    For a pattern whose name the minute, hour and day probes leave alone but the month probe
    changes, the rollover from January 31 is on March 1, following Go's normalisation of
    February 31.  A pattern that shows the month does not qualify: its day probe already
    reaches February (see MonthlyPatternFromJanuary31).
  */
  lemma MonthlyRolloverFromJanuary31(render: Renderer, pattern: string, year: int)
    requires var now := Civil(year, 1, 31, 12, 0, 0, 0);
      && !Changes(render, pattern, now, Minute) && !Changes(render, pattern, now, Hour)
      && !Changes(render, pattern, now, Day) && Changes(render, pattern, now, Month)
    ensures var now := Civil(year, 1, 31, 12, 0, 0, 0);
      Add(now, RolloverAfter(render, pattern, now)) == Civil(year, 3, 1, 0, 0, 0, 0)
  {
    var now := Civil(year, 1, 31, 12, 0, 0, 0);
    assert Fires(render, pattern, now, Month);
    RolloverAfterFires(render, pattern, now, Month);
    LandsOnStart(Month, now);
  }

  /** The rendered name shows the year and the month, and nothing finer. */
  ghost predicate NamesMonth(render: Renderer, pattern: string) {
    forall c: Civil, e: Civil :: render(pattern, c) == render(pattern, e) <==> c.year == e.year && c.month == e.month
  }

  /** From January 31 a pattern that shows the month rolls over at midnight on February 1, by the day probe. */
  lemma MonthlyPatternFromJanuary31(render: Renderer, pattern: string, year: int)
    requires NamesMonth(render, pattern)
    ensures var now := Civil(year, 1, 31, 12, 0, 0, 0);
      Add(now, RolloverAfter(render, pattern, now)) == Civil(year, 2, 1, 0, 0, 0, 0)
  {
    var now := Civil(year, 1, 31, 12, 0, 0, 0);
    SameMonthProbes(render, pattern, year, 31);
    var b := Civil(year, 2, 1, 0, 0, 0, 0);
    assert DayNumber(Date(year, 2, 1)) == DayNumber(Date(year, 1, 31)) + 1 by {
      MonthStep(year, 1);
    }
    assert Distance(Day, now) == 12 * NanosPerHour;
    assert Add(now, Distance(Day, now)) == b by {
      ToNanosInjective(Add(now, Distance(Day, now)), b);
    }
    assert Changes(render, pattern, now, Day) by {
      LandsOnStart(Day, now);
    }
    RolloverAfterFires(render, pattern, now, Day);
  }

  /**
    From January 30 a pattern that shows the month skips February: no probe up to the day leaves
    January, the month probe lands on March 1 or 2, and the next file is opened on March 1.
  */
  lemma MonthlyPatternSkipsFebruary(render: Renderer, pattern: string, year: int)
    requires NamesMonth(render, pattern)
    ensures var now := Civil(year, 1, 30, 12, 0, 0, 0);
      Add(now, RolloverAfter(render, pattern, now)) == Civil(year, 3, 1, 0, 0, 0, 0)
  {
    var now := Civil(year, 1, 30, 12, 0, 0, 0);
    SameMonthProbes(render, pattern, year, 30);
    var d := AddDate(now, 0, 0, 1);
    MakeTimeOfValid(Civil(year, 1, 31, 12, 0, 0, 0));
    assert d.month == 1;
    LandsOnStart(Month, now);
    assert Fires(render, pattern, now, Month);
    RolloverAfterFires(render, pattern, now, Month);
  }

  /** On January `day` at noon, the minute and hour probes stay in January. */
  lemma SameMonthProbes(render: Renderer, pattern: string, year: int, day: int)
    requires NamesMonth(render, pattern) && 1 <= day <= 31
    ensures var now := Civil(year, 1, day, 12, 0, 0, 0);
      !Changes(render, pattern, now, Minute) && !Changes(render, pattern, now, Hour)
  {
    var now := Civil(year, 1, day, 12, 0, 0, 0);
    ToNanosInjective(Probe(Minute, now), Civil(year, 1, day, 12, 1, 0, 0));
    ToNanosInjective(Probe(Hour, now), Civil(year, 1, day, 13, 0, 0, 0));
  }

  /**
    The boundary a monthly rollover should land on: the first day of the calendar month after
    `now`, exactly one month later.
  */
  function IntendedMonthBoundary(now: Civil): (r: Date)
    requires Valid(now)
    ensures 1 <= r.month <= 12 && r.day == 1
    ensures DayNumber(r) == DayNumber(Date(now.year, now.month, 1)) + DaysIn(now.year, now.month)
  {
    MonthStep(now.year, now.month);
    NextMonth(now.year, now.month)
  }

  /**
    The month boundary as written misses the intended one exactly when today's day of the month
    does not exist in the next month; it then lands a whole month later.
  */
  lemma MonthBoundaryAsWritten(now: Civil)
    requires Valid(now)
    ensures var n := IntendedMonthBoundary(now);
      && (MonthBoundary(now) == n <==> now.day <= DaysIn(n.year, n.month))
      && (MonthBoundary(now) != n ==>
            DayNumber(MonthBoundary(now)) == DayNumber(n) + DaysIn(n.year, n.month))
  {
    var n := IntendedMonthBoundary(now);
    MonthStep(n.year, n.month);
    if now.day > DaysIn(n.year, n.month) {
      assert DayNumber(MonthBoundary(now)) != DayNumber(n);
    }
  }
}
