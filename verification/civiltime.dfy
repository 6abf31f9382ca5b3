/**
  Civil (wall-clock) time in one fixed-offset zone, with the normalisation rules of Go's
  `time.Date`, `Time.Add` and `Time.AddDate`. An instant is a count of nanoseconds from
  0001-01-01T00:00:00 in that zone (proleptic Gregorian calendar), so the difference of two
  instants is Go's `Time.Sub`.
*/
module CivilTime {

  const NanosPerSecond: int := 1_000_000_000
  const NanosPerMinute: int := 60_000_000_000
  const NanosPerHour: int := 3_600_000_000_000
  const NanosPerDay: int := 86_400_000_000_000

  /** The fields of a Go `time.Time` as reported by Year(), Month(), Day(), Hour(), ... */
  datatype Civil = Civil(year: int, month: int, day: int, hour: int, minute: int, second: int, nanosecond: int)

  /** A calendar day; `day` may be out of range before normalisation. */
  datatype Date = Date(year: int, month: int, day: int)

  predicate IsLeapYear(y: int) {
    y % 4 == 0 && (y % 100 != 0 || y % 400 == 0)
  }

  function DaysIn(y: int, m: int): (n: int)
    requires 1 <= m <= 12
    ensures 28 <= n <= 31
    ensures n == 29 <==> m == 2 && IsLeapYear(y)
  {
    if m == 2 then (if IsLeapYear(y) then 29 else 28)
    else if m == 4 || m == 6 || m == 9 || m == 11 then 30
    else 31
  }

  function DaysInYear(y: int): int {
    if IsLeapYear(y) then 366 else 365
  }

  predicate ValidDate(d: Date) {
    1 <= d.month <= 12 && 1 <= d.day <= DaysIn(d.year, d.month)
  }

  /** The field ranges every Go `time.Time` satisfies. */
  predicate Valid(c: Civil) {
    && ValidDate(Date(c.year, c.month, c.day))
    && 0 <= c.hour < 24
    && 0 <= c.minute < 60
    && 0 <= c.second < 60
    && 0 <= c.nanosecond < NanosPerSecond
  }

  /** Days from 0001-01-01 to January 1 of year `y` (negative before year 1). */
  function DaysBeforeYear(y: int): int
    decreases if y >= 1 then y - 1 else 1 - y
  {
    if y == 1 then 0
    else if y > 1 then DaysBeforeYear(y - 1) + DaysInYear(y - 1)
    else DaysBeforeYear(y + 1) - DaysInYear(y)
  }

  /** Days from January 1 to the first of month `m`; `m == 13` gives the length of the year. */
  function DaysBeforeMonth(y: int, m: int): int
    requires 1 <= m <= 13
  {
    var common :=
      if m == 1 then 0 else if m == 2 then 31 else if m == 3 then 59
      else if m == 4 then 90 else if m == 5 then 120 else if m == 6 then 151
      else if m == 7 then 181 else if m == 8 then 212 else if m == 9 then 243
      else if m == 10 then 273 else if m == 11 then 304 else if m == 12 then 334
      else 365;
    common + (if m > 2 && IsLeapYear(y) then 1 else 0)
  }

  /** Day index of `d` counted from 0001-01-01; linear in `d.day`, so it also reads unnormalised days. */
  function DayNumber(d: Date): int
    requires 1 <= d.month <= 12
  {
    DaysBeforeYear(d.year) + DaysBeforeMonth(d.year, d.month) + d.day - 1
  }

  function ClockNanos(hour: int, minute: int, second: int, nanosecond: int): int {
    hour * NanosPerHour + minute * NanosPerMinute + second * NanosPerSecond + nanosecond
  }

  /** The instant a civil reading denotes. */
  function ToNanos(c: Civil): int
    requires 1 <= c.month <= 12
  {
    DayNumber(Date(c.year, c.month, c.day)) * NanosPerDay + ClockNanos(c.hour, c.minute, c.second, c.nanosecond)
  }

  function NextMonth(y: int, m: int): (r: Date)
    requires 1 <= m <= 12
    ensures 1 <= r.month <= 12 && r.day == 1
  {
    if m == 12 then Date(y + 1, 1, 1) else Date(y, m + 1, 1)
  }

  function PrevMonth(y: int, m: int): (r: Date)
    requires 1 <= m <= 12
    ensures 1 <= r.month <= 12 && r.day == 1
    ensures NextMonth(r.year, r.month) == Date(y, m, 1)
  {
    if m == 1 then Date(y - 1, 12, 1) else Date(y, m - 1, 1)
  }

  lemma YearStep(y: int)
    ensures DaysBeforeYear(y + 1) == DaysBeforeYear(y) + DaysInYear(y)
  {
  }

  /** The first of the next month is exactly `DaysIn` days after the first of this one. */
  lemma MonthStep(y: int, m: int)
    requires 1 <= m <= 12
    ensures DayNumber(NextMonth(y, m)) == DayNumber(Date(y, m, 1)) + DaysIn(y, m)
  {
    MonthTable(y, m);
    if m == 12 {
      YearStep(y);
      assert DaysBeforeMonth(y, 13) == DaysInYear(y);
    }
  }

  lemma MonthTable(y: int, m: int)
    requires 1 <= m <= 12
    ensures DaysBeforeMonth(y, m + 1) == DaysBeforeMonth(y, m) + DaysIn(y, m)
  {
  }

  /** Moves an overflowing day into later months, as Go's date arithmetic does. */
  function CarryDays(y: int, m: int, d: int): (r: Date)
    requires 1 <= m <= 12 && 1 <= d
    ensures ValidDate(r)
    ensures DayNumber(r) == DayNumber(Date(y, m, d))
    decreases d
  {
    if d <= DaysIn(y, m) then Date(y, m, d)
    else
      var n := NextMonth(y, m);
      MonthStep(y, m);
      CarryDays(n.year, n.month, d - DaysIn(y, m))
  }

  /** Normalises any (year, month, day) with `1 <= month <= 12` to a valid date denoting the same day. */
  function NormalizeDate(y: int, m: int, d: int): (r: Date)
    requires 1 <= m <= 12
    ensures ValidDate(r)
    ensures DayNumber(r) == DayNumber(Date(y, m, d))
    decreases if d < 1 then 1 - d else 0
  {
    if 1 <= d then CarryDays(y, m, d)
    else
      var p := PrevMonth(y, m);
      MonthStep(p.year, p.month);
      NormalizeDate(p.year, p.month, d + DaysIn(p.year, p.month))
  }

  /** Go's month normalisation: month 13 is January of the next year, month 0 December of the previous. */
  function NormMonth(y: int, mo: int): (r: Date)
    ensures 1 <= r.month <= 12 && r.day == 1
    ensures 1 <= mo <= 12 ==> r == Date(y, mo, 1)
  {
    Date(y + (mo - 1) / 12, (mo - 1) % 12 + 1, 1)
  }

  /** The instant Go's `time.Date` assigns to possibly out-of-range fields. */
  function Nanos(y: int, mo: int, d: int, h: int, mi: int, s: int, ns: int): int {
    var ym := NormMonth(y, mo);
    DayNumber(Date(ym.year, ym.month, d)) * NanosPerDay + ClockNanos(h, mi, s, ns)
  }

  lemma CarryClock(d: int, h: int, mi: int, s: int, ns: int)
    ensures
      var s1 := s + ns / NanosPerSecond;
      var mi1 := mi + s1 / 60;
      var h1 := h + mi1 / 60;
      (d + h1 / 24) * NanosPerDay + ClockNanos(h1 % 24, mi1 % 60, s1 % 60, ns % NanosPerSecond)
        == d * NanosPerDay + ClockNanos(h, mi, s, ns)
  {
    var s1 := s + ns / NanosPerSecond;
    var mi1 := mi + s1 / 60;
    var h1 := h + mi1 / 60;
    assert ns == (ns / NanosPerSecond) * NanosPerSecond + ns % NanosPerSecond;
    assert s1 == (s1 / 60) * 60 + s1 % 60;
    assert mi1 == (mi1 / 60) * 60 + mi1 % 60;
    assert h1 == (h1 / 24) * 24 + h1 % 24;
  }

  /**
    Go's `time.Date(y, mo, d, h, mi, s, ns, loc)` in a fixed-offset zone: every field is
    carried into the next coarser one (month into year first, then nanoseconds up to days, then
    days across months), and the result is a valid reading of the same instant.
  */
  function MakeTime(y: int, mo: int, d: int, h: int, mi: int, s: int, ns: int): (c: Civil)
    ensures Valid(c)
    ensures ToNanos(c) == Nanos(y, mo, d, h, mi, s, ns)
  {
    var ym := NormMonth(y, mo);
    var s1 := s + ns / NanosPerSecond;
    var mi1 := mi + s1 / 60;
    var h1 := h + mi1 / 60;
    var date := NormalizeDate(ym.year, ym.month, d + h1 / 24);
    CarryClock(DayNumber(Date(ym.year, ym.month, d)), h, mi, s, ns);
    Civil(date.year, date.month, date.day, h1 % 24, mi1 % 60, s1 % 60, ns % NanosPerSecond)
  }

  /** With the clock fields in range, `time.Date` only normalises the month and the day. */
  lemma MakeTimeOfValidClock(y: int, mo: int, d: int, h: int, mi: int, s: int, ns: int)
    requires 0 <= h < 24 && 0 <= mi < 60 && 0 <= s < 60 && 0 <= ns < NanosPerSecond
    ensures var ym := NormMonth(y, mo);
      var date := NormalizeDate(ym.year, ym.month, d);
      MakeTime(y, mo, d, h, mi, s, ns) == Civil(date.year, date.month, date.day, h, mi, s, ns)
  {
    assert ns / NanosPerSecond == 0 && ns % NanosPerSecond == ns;
    assert s / 60 == 0 && s % 60 == s;
    assert mi / 60 == 0 && mi % 60 == mi;
    assert h / 24 == 0 && h % 24 == h;
  }

  /** Go's `t.Add(dur)`: the reading `dur` nanoseconds later. */
  function Add(t: Civil, dur: int): (r: Civil)
    requires Valid(t)
    ensures Valid(r)
    ensures ToNanos(r) == ToNanos(t) + dur
  {
    MakeTime(t.year, t.month, t.day, t.hour, t.minute, t.second, t.nanosecond + dur)
  }

  /** Go's `t.AddDate(years, months, days)`: calendar fields added, then normalised by `time.Date`. */
  function AddDate(t: Civil, years: int, months: int, days: int): (r: Civil)
    requires Valid(t)
    ensures Valid(r)
    ensures ToNanos(r) == Nanos(t.year + years, t.month + months, t.day + days, t.hour, t.minute, t.second, t.nanosecond)
  {
    MakeTime(t.year + years, t.month + months, t.day + days, t.hour, t.minute, t.second, t.nanosecond)
  }

  /** On fields that are already in range, `time.Date` changes nothing. */
  lemma MakeTimeOfValid(c: Civil)
    requires Valid(c)
    ensures MakeTime(c.year, c.month, c.day, c.hour, c.minute, c.second, c.nanosecond) == c
  {
  }

  lemma DaysBeforeYearMonotone(a: int, b: int)
    requires a <= b
    ensures DaysBeforeYear(a) + (b - a) * 365 <= DaysBeforeYear(b)
    decreases b - a
  {
    if a < b {
      YearStep(b - 1);
      DaysBeforeYearMonotone(a, b - 1);
    }
  }

  /** A valid date's day number lies inside its year. */
  lemma DayNumberInYear(d: Date)
    requires ValidDate(d)
    ensures DaysBeforeYear(d.year) <= DayNumber(d) < DaysBeforeYear(d.year + 1)
  {
    YearStep(d.year);
  }

  /** Distinct valid dates have distinct day numbers. */
  lemma DayNumberInjective(a: Date, b: Date)
    requires ValidDate(a) && ValidDate(b)
    requires DayNumber(a) == DayNumber(b)
    ensures a == b
  {
    DayNumberInYear(a);
    DayNumberInYear(b);
    if a.year < b.year {
      DaysBeforeYearMonotone(a.year + 1, b.year);
      assert false;
    } else if b.year < a.year {
      DaysBeforeYearMonotone(b.year + 1, a.year);
      assert false;
    }
  }

  lemma ClockUnique(c: Civil, e: Civil)
    requires Valid(c) && Valid(e)
    requires ClockNanos(c.hour, c.minute, c.second, c.nanosecond) == ClockNanos(e.hour, e.minute, e.second, e.nanosecond)
    ensures c.hour == e.hour && c.minute == e.minute && c.second == e.second && c.nanosecond == e.nanosecond
  {
  }

  /** Two valid readings exactly one minute apart agree on the second and the nanosecond. */
  lemma MinuteApart(c: Civil, e: Civil)
    requires Valid(c) && Valid(e)
    requires ToNanos(e) == ToNanos(c) + NanosPerMinute
    ensures e.second == c.second && e.nanosecond == c.nanosecond
  {
    var qc := DayNumber(Date(c.year, c.month, c.day)) * 1440 + c.hour * 60 + c.minute;
    var qe := DayNumber(Date(e.year, e.month, e.day)) * 1440 + e.hour * 60 + e.minute;
    var rc, re := ClockNanos(0, 0, c.second, c.nanosecond), ClockNanos(0, 0, e.second, e.nanosecond);
    assert ToNanos(c) == qc * NanosPerMinute + rc;
    assert ToNanos(e) == qe * NanosPerMinute + re;
    assert qe == qc + 1;
  }

  /** Two valid readings exactly one hour apart agree on the minute, second and nanosecond. */
  lemma HourApart(c: Civil, e: Civil)
    requires Valid(c) && Valid(e)
    requires ToNanos(e) == ToNanos(c) + NanosPerHour
    ensures e.minute == c.minute && e.second == c.second && e.nanosecond == c.nanosecond
  {
    var qc := DayNumber(Date(c.year, c.month, c.day)) * 24 + c.hour;
    var qe := DayNumber(Date(e.year, e.month, e.day)) * 24 + e.hour;
    var rc, re := ClockNanos(0, c.minute, c.second, c.nanosecond), ClockNanos(0, e.minute, e.second, e.nanosecond);
    assert ToNanos(c) == qc * NanosPerHour + rc;
    assert ToNanos(e) == qe * NanosPerHour + re;
    assert qe == qc + 1;
  }

  /** Two valid readings exactly one day apart show the same clock time. */
  lemma DayApart(c: Civil, e: Civil)
    requires Valid(c) && Valid(e)
    requires ToNanos(e) == ToNanos(c) + NanosPerDay
    ensures e.hour == c.hour && e.minute == c.minute && e.second == c.second && e.nanosecond == c.nanosecond
  {
    var qc := DayNumber(Date(c.year, c.month, c.day));
    var qe := DayNumber(Date(e.year, e.month, e.day));
    assert qe == qc + 1;
  }

  /** A valid reading is determined by the instant it denotes. */
  lemma ToNanosInjective(c: Civil, e: Civil)
    requires Valid(c) && Valid(e)
    requires ToNanos(c) == ToNanos(e)
    ensures c == e
  {
    var dc, de := DayNumber(Date(c.year, c.month, c.day)), DayNumber(Date(e.year, e.month, e.day));
    var kc, ke := ClockNanos(c.hour, c.minute, c.second, c.nanosecond), ClockNanos(e.hour, e.minute, e.second, e.nanosecond);
    assert 0 <= kc < NanosPerDay && 0 <= ke < NanosPerDay;
    assert dc * NanosPerDay + kc == de * NanosPerDay + ke;
    assert dc == de;
    ClockUnique(c, e);
    DayNumberInjective(Date(c.year, c.month, c.day), Date(e.year, e.month, e.day));
  }
}
