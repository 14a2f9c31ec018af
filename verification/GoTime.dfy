/**
 The part of Go's time package (version 1.25) the report buckets rest on: an instant is a
 signed 64-bit count of seconds since 1 January of year 1 plus nanoseconds. Converting to Unix
 seconds wraps around, adding a duration saturates, and dates are taken from and turned into
 an unsigned 64-bit count that starts at 1 March of year -292277022400.
 */
module GoTime {
  import opened CivilCalendar

  const MAX64: int := 0x7FFF_FFFF_FFFF_FFFF
  const MIN64: int := -0x8000_0000_0000_0000
  const NANOS_PER_SECOND := 1_000_000_000
  const SECONDS_PER_DAY := 86400

  const TWO_TO_THE_64: int := 0x1_0000_0000_0000_0000

  /** Years from the absolute zero to year 0, a multiple of 400. */
  const ABSOLUTE_YEARS := 292277022400

  /** 1 March of year -292277022400, as a day and as a second. */
  const ZERO_DAY := -106751990354238
  const ABSOLUTE_ZERO := ZERO_DAY * SECONDS_PER_DAY

  /** Unix time 0, in seconds since year 1. */
  const UNIX_EPOCH := 62135596800

  /** Seconds since year 1, UTC, and the nanosecond within that second. */
  datatype Time = Time(sec: int, nsec: int)

  predicate IsTime(t: Time) {
    MIN64 <= t.sec <= MAX64 && 0 <= t.nsec < NANOS_PER_SECOND
  }

  predicate IsDuration(d: int) {
    MIN64 <= d <= MAX64
  }

  /** Two's complement wrap-around to 64 bits. */
  function Wrap64(x: int): (w: int)
    ensures MIN64 <= w <= MAX64
    ensures MIN64 <= x <= MAX64 ==> w == x
    ensures MAX64 < x <= 2 * MAX64 ==> w == x - 0x1_0000_0000_0000_0000
    ensures 2 * MIN64 <= x < MIN64 ==> w == x + 0x1_0000_0000_0000_0000
  {
    var m := x % 0x1_0000_0000_0000_0000;
    if m > MAX64 then m - 0x1_0000_0000_0000_0000 else m
  }

  /** Division of the Go language: it truncates towards zero. */
  function TruncDiv(a: int, b: int): int
    requires b > 0
  {
    if a >= 0 then a / b else -((-a) / b)
  }

  function Unix(t: Time): int {
    Wrap64(t.sec - UNIX_EPOCH)
  }

  function FromUnix(sec: int, nsec: int): Time {
    Time(Wrap64(sec + UNIX_EPOCH), nsec)
  }

  predicate Before(a: Time, b: Time) {
    a.sec < b.sec || (a.sec == b.sec && a.nsec < b.nsec)
  }

  /** Adds a duration in nanoseconds; seconds out of range stick to the boundary. */
  function Add(t: Time, d: int): Time {
    var dsec := TruncDiv(d, NANOS_PER_SECOND);
    var nsec := t.nsec + (d - NANOS_PER_SECOND * dsec);
    if nsec >= NANOS_PER_SECOND then Time(AddSeconds(t.sec, dsec + 1), nsec - NANOS_PER_SECOND)
    else if nsec < 0 then Time(AddSeconds(t.sec, dsec - 1), nsec + NANOS_PER_SECOND)
    else Time(AddSeconds(t.sec, dsec), nsec)
  }

  /** The sum wraps first; a wrapped sum is recognised by its order and replaced by the boundary. */
  function AddSeconds(s: int, d: int): int {
    var sum := Wrap64(s + d);
    if (sum > s) == (d > 0) then sum else if d > 0 then MAX64 else -MAX64
  }

  // ---------- dates, by unsigned absolute days ----------

  /** Seconds since the absolute zero, in unsigned 64-bit arithmetic. */
  function Absolute(sec: int): (a: int)
    ensures 0 <= a < TWO_TO_THE_64
    ensures ABSOLUTE_ZERO <= sec <= MAX64 ==> a == sec - ABSOLUTE_ZERO
    ensures MIN64 <= sec < ABSOLUTE_ZERO ==> a == sec - ABSOLUTE_ZERO + TWO_TO_THE_64
  {
    (sec - ABSOLUTE_ZERO) % TWO_TO_THE_64
  }

  /** The second whose date is reported: before the absolute zero, one 2^64 seconds later. */
  function Unrolled(sec: int): (w: int)
    ensures ABSOLUTE_ZERO <= w < ABSOLUTE_ZERO + TWO_TO_THE_64
    ensures ABSOLUTE_ZERO <= sec <= MAX64 ==> w == sec
    ensures MIN64 <= sec < ABSOLUTE_ZERO ==> w == sec + TWO_TO_THE_64
  {
    ABSOLUTE_ZERO + Absolute(sec)
  }

  function DayOf(t: Time): Date {
    FromDays(Unrolled(t.sec) / SECONDS_PER_DAY)
  }

  function HourOf(t: Time): int {
    Unrolled(t.sec) % SECONDS_PER_DAY / 3600
  }

  /** Years counted from March, starting at the absolute zero. */
  function MarchYear(year: int, month: int): int {
    year - (if month < 3 then 1 else 0) + ABSOLUTE_YEARS
  }

  /** Days since the absolute zero; a year before it wraps, and so does the product. */
  function AbsoluteDays(year: int, month: int, day: int): int {
    var y := MarchYear(year, month) % TWO_TO_THE_64;
    146097 * (y / 100) % TWO_TO_THE_64 / 4 + 1461 * (y % 100) / 4 + MarchDays(month) + day - 1
  }

  /** Days from 1 March to the first of a month. */
  function MarchDays(month: int): int {
    (979 * (if month < 3 then month + 12 else month) - 2919) / 32
  }

  /** The year before the absolute zero wraps to the last unsigned one, and its century overflows. */
  lemma WrappedYear()
    ensures AbsoluteDays(-ABSOLUTE_YEARS, 1, 1) == 4473335437874566207
  {
    var y := MarchYear(-ABSOLUTE_YEARS, 1) % TWO_TO_THE_64;
    assert y == TWO_TO_THE_64 - 1;
    Quotient(100, 184467440737095516, 15, y);
    Quotient(TWO_TO_THE_64, 1460, 17893341751498241692, 146097 * 184467440737095516);
  }

  /** Midnight-based construction; out-of-range months and days carry, and seconds wrap. */
  function DateTime(year: int, month: int, day: int, hour: int): Time {
    var y := year + (month - 1) / 12;
    var m := (month - 1) % 12 + 1;
    Time(Wrap64(ABSOLUTE_ZERO + AbsoluteDays(y, m, day) * SECONDS_PER_DAY + hour * 3600), 0)
  }

  function AddDate(t: Time, years: int, months: int, days: int): Time {
    var d := DayOf(t);
    var clock := Unrolled(t.sec) % SECONDS_PER_DAY;
    var moved := DateTime(d.year + years, d.month + months, d.day + days, 0);
    Time(Wrap64(moved.sec + clock), t.nsec)
  }

  // ---------- where the absolute days are the calendar's ----------

  /** The date lies after the absolute zero and within the reach of 64-bit time. */
  predicate InReach(year: int, month: int) {
    0 <= MarchYear(year, month) && year <= 1_000_000_000_000
  }

  lemma MarchCentury(y: int)
    ensures 146097 * (y / 100) / 4 + 1461 * (y % 100) / 4 == 365 * y + y / 4 - y / 100 + y / 400
  {
    var c, r := y / 100, y % 100;
    assert 146097 * c / 4 == 36524 * c + c / 4;
    assert 1461 * r / 4 == 365 * r + r / 4;
    Quotient(4, 25 * c + r / 4, r % 4, y);
    Quotient(400, c / 4, c % 4 * 100 + r, y);
  }

  lemma MarchTable(year: int, month: int)
    requires 1 <= month <= 12
    ensures month >= 3 ==> YearLength(year) + MarchDays(month) - 306 == MonthStart(year, month)
    ensures month < 3 ==> MarchDays(month) - 306 == MonthStart(year, month)
  {
  }

  /** 1 January of the year after y, counted from year 0 on. */
  function YearsToDays(y: int): int {
    365 * y + y / 4 - y / 100 + y / 400
  }

  lemma ShiftedYears(y: int)
    ensures YearsToDays(y + ABSOLUTE_YEARS) == YearsToDays(y) + 106751990353932
  {
    var k := ABSOLUTE_YEARS / 400;
    Quotient(4, y / 4 + 100 * k, y % 4, y + ABSOLUTE_YEARS);
    Quotient(100, y / 100 + 4 * k, y % 100, y + ABSOLUTE_YEARS);
    Quotient(400, y / 400 + k, y % 400, y + ABSOLUTE_YEARS);
  }

  /** Within reach, the unsigned day count is the calendar's day, counted from the absolute zero. */
  lemma AbsoluteDaysExact(year: int, month: int, day: int)
    requires 1 <= month <= 12 && InReach(year, month)
    ensures AbsoluteDays(year, month, day) == ToDays(year, month, day) - ZERO_DAY
  {
    hide MarchDays, MonthStart, YearStart, YearLength;
    var y := MarchYear(year, month);
    assert y % TWO_TO_THE_64 == y && 146097 * (y / 100) % TWO_TO_THE_64 == 146097 * (y / 100);
    MarchCentury(y);
    ShiftedYears(y - ABSOLUTE_YEARS);
    MarchTable(year, month);
    YearsFromStart(year);
  }

  lemma YearsFromStart(year: int)
    ensures YearsToDays(year - 1) == YearStart(year)
    ensures YearsToDays(year) == YearStart(year) + YearLength(year)
  {
    YearSuccessor(year);
  }

  /** Months in range need no carrying. */
  lemma DateTimePlain(y: int, m: int, d: int, h: int)
    requires 1 <= m <= 12 && InReach(y, m)
    ensures DateTime(y, m, d, h) == Time(Wrap64(ToDays(y, m, d) * SECONDS_PER_DAY + h * 3600), 0)
  {
    hide ToDays, AbsoluteDays, InReach;
    assert (m - 1) / 12 == 0 && (m - 1) % 12 == m - 1;
    AbsoluteDaysExact(y, m, d);
  }

  /** Month 13 is January of the next year. */
  lemma DateTimeCarried(y: int, d: int, h: int)
    requires InReach(y + 1, 1)
    ensures DateTime(y, 13, d, h) == Time(Wrap64(ToDays(y + 1, 1, d) * SECONDS_PER_DAY + h * 3600), 0)
  {
    hide ToDays, AbsoluteDays, InReach;
    AbsoluteDaysExact(y + 1, 1, d);
  }

  /** A second after the absolute zero is read back from its 64-bit form. */
  lemma UnrolledOfWrapped(x: int)
    requires ABSOLUTE_ZERO <= x < ABSOLUTE_ZERO + TWO_TO_THE_64
    ensures Unrolled(Wrap64(x)) == x
    ensures Wrap64(x) == if x <= MAX64 then x else x - TWO_TO_THE_64
  {
  }

  lemma MidnightIsWholeDay(n: int)
    ensures n * SECONDS_PER_DAY / SECONDS_PER_DAY == n && n * SECONDS_PER_DAY % SECONDS_PER_DAY == 0
  {
  }

  /** Moving a midnight by calendar units is constructing the moved midnight. */
  lemma AddDateAtMidnight(n: int, years: int, months: int, days: int)
    requires ABSOLUTE_ZERO <= n * SECONDS_PER_DAY < ABSOLUTE_ZERO + TWO_TO_THE_64
    ensures var d := FromDays(n);
      AddDate(Time(Wrap64(n * SECONDS_PER_DAY), 0), years, months, days)
      == DateTime(d.year + years, d.month + months, d.day + days, 0)
  {
    hide FromDays, ToDays, AbsoluteDays, Wrap64, Unrolled;
    MidnightIsWholeDay(n);
    UnrolledOfWrapped(n * SECONDS_PER_DAY);
  }

  /** Dates that are reported are within reach. */
  lemma ReportedInReach(n: int)
    requires ABSOLUTE_ZERO <= n * SECONDS_PER_DAY < ABSOLUTE_ZERO + TWO_TO_THE_64
    ensures var d := FromDays(n);
      InReach(d.year, d.month) && InReach(d.year, 3) && InReach(d.year + 1, d.month) && InReach(d.year + 1, 1)
    ensures FromDays(n).year > -ABSOLUTE_YEARS ==> InReach(FromDays(n).year, 1)
    ensures n >= ZERO_DAY + 306 ==> FromDays(n).year > -ABSOLUTE_YEARS
    ensures n < ZERO_DAY + 306 ==> FromDays(n).year == -ABSOLUTE_YEARS
  {
    hide FromDays, MonthStart;
    var d := FromDays(n);
    DayOfYearInside(d.year, d.month, d.day);
    ZeroYear(n);
    if d.year > 1_000_000_000 * 999 {
      YearsGrow(d.year);
    }
  }

  lemma YearsGrow(y: int)
    requires y >= 1
    ensures YearStart(y) >= 365 * (y - 1)
  {
  }

  lemma YearOf(n: int, y: int)
    requires YearStart(y) <= n < YearStart(y + 1)
    ensures FromDays(n).year == y
  {
    var e := FromDays(n);
    DayOfYearInside(e.year, e.month, e.day);
    YearSuccessor(y);
    if e.year < y {
      YearsIncrease(e.year, y);
    } else if y < e.year {
      YearsIncrease(y, e.year);
    }
  }

  lemma ZeroYearBounds()
    ensures YearStart(-ABSOLUTE_YEARS) == ZERO_DAY - 60
    ensures YearStart(-ABSOLUTE_YEARS + 1) == ZERO_DAY + 306
    ensures MonthStart(-ABSOLUTE_YEARS, 3) == 60
  {
  }

  /** The year in which absolute time begins, on 1 March. */
  lemma ZeroYear(n: int)
    requires ZERO_DAY <= n
    ensures n < ZERO_DAY + 306 ==> FromDays(n).year == -ABSOLUTE_YEARS && FromDays(n).month >= 3
    ensures n >= ZERO_DAY + 306 ==> FromDays(n).year > -ABSOLUTE_YEARS
  {
    hide FromDays, MonthStart, YearStart, YearLength;
    var y, d := -ABSOLUTE_YEARS, FromDays(n);
    ZeroYearBounds();
    if n < ZERO_DAY + 306 {
      YearOf(n, y);
      if d.month < 3 {
        MonthsIncrease(y, d.month, 3);
      }
    } else if d.year <= y {
      DayOfYearInside(d.year, d.month, d.day);
      YearsIncrease(d.year, y + 1);
    }
  }
}
