/**
 The proleptic Gregorian calendar. Day 0 is 1 January of year 1; years and days are
 unbounded in both directions. Division rounds towards minus infinity.
 */
module CivilCalendar {

  datatype Date = Date(year: int, month: int, day: int)

  predicate IsLeap(y: int) {
    y % 4 == 0 && (y % 100 != 0 || y % 400 == 0)
  }

  function YearLength(y: int): int {
    if IsLeap(y) then 366 else 365
  }

  /** First day of year y. */
  function YearStart(y: int): int {
    365 * (y - 1) + (y - 1) / 4 - (y - 1) / 100 + (y - 1) / 400
  }

  const DAYS_BEFORE: seq<int> := [0, 31, 59, 90, 120, 151, 181, 212, 243, 273, 304, 334, 365]

  /** Days of year y before month m; month 13 stands for the end of the year. */
  function MonthStart(y: int, m: int): int
    requires 1 <= m <= 13
  {
    DAYS_BEFORE[m - 1] + if m > 2 && IsLeap(y) then 1 else 0
  }

  function MonthLength(y: int, m: int): int
    requires 1 <= m <= 12
  {
    MonthStart(y, m + 1) - MonthStart(y, m)
  }

  predicate ValidDate(d: Date) {
    1 <= d.month <= 12 && 1 <= d.day <= MonthLength(d.year, d.month)
  }

  /** The day of a date; day numbers past the month's end run on into the next months. */
  function ToDays(year: int, month: int, day: int): int
    requires 1 <= month <= 12
  {
    YearStart(year) + MonthStart(year, month) + day - 1
  }

  // ---------- from days to dates ----------

  /** Year and day of the year (from 0), by 400-, 100-, 4- and 1-year cycles. */
  function YearAndDay(n: int): (int, int) {
    var era := n / 146097;
    var d0 := n % 146097;
    var c := d0 / 36524 - d0 / 36524 / 4;
    var d1 := d0 - 36524 * c;
    var q := d1 / 1461;
    var d2 := d1 - 1461 * q;
    var y := d2 / 365 - d2 / 365 / 4;
    (400 * era + 100 * c + 4 * q + y + 1, d2 - 365 * y)
  }

  /** Month and day of the month of the day of the year, estimating the month by thirty-ones. */
  function MonthAndDay(leap: bool, yday: int): (int, int)
    requires 0 <= yday < if leap then 366 else 365
  {
    if leap && yday == 59 then (2, 29)
    else
      var d := if leap && yday > 59 then yday - 1 else yday;
      var m := d / 31;
      var end := DAYS_BEFORE[m + 1];
      if d >= end then (m + 2, d - end + 1) else (m + 1, d - DAYS_BEFORE[m] + 1)
  }

  lemma EraCycle(d: int)
    requires 0 <= d < 146097
    ensures var c := d / 36524 - d / 36524 / 4;
      0 <= c <= 3 && 0 <= d - 36524 * c <= 36524 && (c < 3 ==> d - 36524 * c < 36524)
  {
  }

  lemma CenturyCycle(d: int)
    requires 0 <= d <= 36524
    ensures var q := d / 1461;
      0 <= q <= 24 && 0 <= d - 1461 * q <= 1460 && (q == 24 && d < 36524 ==> d - 1461 * q < 1460)
  {
  }

  lemma LeapCycle(d: int)
    requires 0 <= d <= 1460
    ensures var y := d / 365 - d / 365 / 4;
      0 <= y <= 3 && 0 <= d - 365 * y <= 365 && (y < 3 || d < 1460 ==> d - 365 * y < 365)
  {
  }

  lemma YearAndDayCorrect(n: int)
    ensures var (y, d) := YearAndDay(n); YearStart(y) + d == n && 0 <= d < YearLength(y)
  {
    var era := n / 146097;
    var d0 := n % 146097;
    var c := d0 / 36524 - d0 / 36524 / 4;
    EraCycle(d0);
    var d1 := d0 - 36524 * c;
    var q := d1 / 1461;
    CenturyCycle(d1);
    var d2 := d1 - 1461 * q;
    var y := d2 / 365 - d2 / 365 / 4;
    LeapCycle(d2);
    CyclesToYear(era, c, q, y);
    CyclesToLeap(era, c, q, y);
  }

  lemma Quotient(k: int, q: int, r: int, p: int)
    requires k > 0 && 0 <= r < k && p == k * q + r
    ensures p / k == q && p % k == r
  {
    MulGap(k, p / k, q);
    MulGap(k, q, p / k);
  }

  lemma MulGap(k: int, a: int, b: int)
    requires k > 0
    ensures a < b ==> k * a + k <= k * b
  {
    assert a < b ==> k * (a + 1) <= k * b;
  }

  lemma CyclesToYear(era: int, c: int, q: int, y: int)
    requires 0 <= c <= 3 && 0 <= q <= 24 && 0 <= y <= 3
    ensures YearStart(400 * era + 100 * c + 4 * q + y + 1) == 146097 * era + 36524 * c + 1461 * q + 365 * y
  {
    var p := 400 * era + 100 * c + 4 * q + y;
    Quotient(400, era, 100 * c + 4 * q + y, p);
    Quotient(100, 4 * era + c, 4 * q + y, p);
    Quotient(4, 100 * era + 25 * c + q, y, p);
  }

  lemma CyclesToLeap(era: int, c: int, q: int, y: int)
    requires 0 <= c <= 3 && 0 <= q <= 24 && 0 <= y <= 3
    ensures IsLeap(400 * era + 100 * c + 4 * q + y + 1) <==> y == 3 && (q != 24 || c == 3)
  {
    var p := 400 * era + 100 * c + 4 * q + y + 1;
    if y < 3 {
      Quotient(4, 100 * era + 25 * c + q, y + 1, p);
    } else {
      Quotient(4, 100 * era + 25 * c + q + 1, 0, p);
      if q < 24 {
        Quotient(100, 4 * era + c, 4 * q + 4, p);
      } else {
        Quotient(100, 4 * era + c + 1, 0, p);
        if c < 3 {
          Quotient(400, era, 100 * c + 100, p);
        } else {
          Quotient(400, era + 1, 0, p);
        }
      }
    }
  }

  lemma MonthAndDayCorrect(y: int, yday: int)
    requires 0 <= yday < YearLength(y)
    ensures var (m, d) := MonthAndDay(IsLeap(y), yday); ValidDate(Date(y, m, d)) && MonthStart(y, m) + d - 1 == yday
  {
  }

  function FromDays(n: int): (d: Date)
    ensures ValidDate(d) && ToDays(d.year, d.month, d.day) == n
  {
    YearAndDayCorrect(n);
    var (year, yday) := YearAndDay(n);
    MonthAndDayCorrect(year, yday);
    var (month, day) := MonthAndDay(IsLeap(year), yday);
    Date(year, month, day)
  }

  // ---------- order and uniqueness ----------

  lemma YearSuccessor(y: int)
    ensures YearStart(y + 1) == YearStart(y) + YearLength(y)
  {
    var p := y - 1;
    assert (p + 1) / 4 - p / 4 == if y % 4 == 0 then 1 else 0;
    assert (p + 1) / 100 - p / 100 == if y % 100 == 0 then 1 else 0;
    assert (p + 1) / 400 - p / 400 == if y % 400 == 0 then 1 else 0;
  }

  lemma {:induction false} YearsIncrease(a: int, b: int)
    requires a < b
    ensures YearStart(a) + YearLength(a) <= YearStart(b)
    decreases b - a
  {
    YearSuccessor(b - 1);
    if a < b - 1 {
      YearsIncrease(a, b - 1);
    }
  }

  lemma MonthsIncrease(y: int, a: int, b: int)
    requires 1 <= a < b <= 13
    ensures MonthStart(y, a) + MonthLength(y, a) <= MonthStart(y, b)
    ensures 28 <= MonthLength(y, a) <= 31
  {
  }

  /** Every valid date is the date of its own day, so dates and days are in bijection. */
  lemma DateOfItsDay(y: int, m: int, d: int)
    requires ValidDate(Date(y, m, d))
    ensures FromDays(ToDays(y, m, d)) == Date(y, m, d)
  {
    var n := ToDays(y, m, d);
    var e := FromDays(n);
    DayOfYearInside(y, m, d);
    DayOfYearInside(e.year, e.month, e.day);
    if e.year < y {
      YearsIncrease(e.year, y);
    } else if y < e.year {
      YearsIncrease(y, e.year);
    }
    assert e.year == y;
    if e.month < m {
      MonthsIncrease(y, e.month, m);
    } else if m < e.month {
      MonthsIncrease(y, m, e.month);
    }
  }

  lemma DayOfYearInside(y: int, m: int, d: int)
    requires ValidDate(Date(y, m, d))
    ensures 0 <= ToDays(y, m, d) - YearStart(y) < YearLength(y)
  {
    MonthsIncrease(y, m, 13);
  }

  // ---------- months and years as half-open ranges of days ----------

  function MonthFirst(n: int): int {
    ToDays(FromDays(n).year, FromDays(n).month, 1)
  }

  function MonthAfter(n: int): int {
    MonthFirst(n) + MonthLength(FromDays(n).year, FromDays(n).month)
  }

  function YearFirst(n: int): int {
    YearStart(FromDays(n).year)
  }

  function YearAfter(n: int): int {
    YearStart(FromDays(n).year + 1)
  }

  lemma MonthContains(n: int)
    ensures MonthFirst(n) <= n < MonthAfter(n) <= MonthFirst(n) + 31
  {
    hide FromDays, YearStart, MonthStart, MonthLength;
    var d := FromDays(n);
    MonthsIncrease(d.year, d.month, 13);
  }

  lemma YearContains(n: int)
    ensures YearFirst(n) <= n < YearAfter(n) <= YearFirst(n) + 366
  {
    var d := FromDays(n);
    DayOfYearInside(d.year, d.month, d.day);
    YearSuccessor(d.year);
  }

  /** The months cover the days without overlap. */
  lemma MonthStable(n: int, k: int)
    requires MonthFirst(n) <= k < MonthAfter(n)
    ensures FromDays(k).year == FromDays(n).year && FromDays(k).month == FromDays(n).month
  {
    var d := FromDays(n);
    var day := k - MonthFirst(n) + 1;
    assert ValidDate(Date(d.year, d.month, day)) && ToDays(d.year, d.month, day) == k;
    DateOfItsDay(d.year, d.month, day);
  }

  /** The years cover the days without overlap. */
  lemma YearStable(n: int, k: int)
    requires YearFirst(n) <= k < YearAfter(n)
    ensures FromDays(k).year == FromDays(n).year
  {
    var y, e := FromDays(n).year, FromDays(k);
    DayOfYearInside(e.year, e.month, e.day);
    YearSuccessor(y);
    if e.year < y {
      YearsIncrease(e.year, y);
    } else if y < e.year {
      YearsIncrease(y, e.year);
    }
  }

  lemma FirstOfMonth(y: int, m: int)
    requires 1 <= m <= 12
    ensures FromDays(ToDays(y, m, 1)) == Date(y, m, 1)
    ensures MonthFirst(ToDays(y, m, 1)) == ToDays(y, m, 1)
    ensures m == 1 ==> YearFirst(ToDays(y, m, 1)) == ToDays(y, m, 1) == YearStart(y)
  {
    DateOfItsDay(y, m, 1);
  }

  /** The month after a month, with December carrying into January. */
  lemma MonthCarries(y: int, m: int)
    requires 1 <= m <= 12
    ensures m < 12 ==> ToDays(y, m + 1, 1) == ToDays(y, m, 1) + MonthLength(y, m)
    ensures m == 12 ==> ToDays(y + 1, 1, 1) == ToDays(y, m, 1) + MonthLength(y, m)
  {
    YearSuccessor(y);
  }

  lemma MonthAdjacent(n: int)
    ensures MonthFirst(MonthAfter(n)) == MonthAfter(n)
  {
    var d := FromDays(n);
    hide FromDays, ToDays, MonthLength;
    var (y, m) := if d.month == 12 then (d.year + 1, 1) else (d.year, d.month + 1);
    MonthCarries(d.year, d.month);
    assert MonthAfter(n) == ToDays(y, m, 1);
    FirstOfMonth(y, m);
  }

  lemma YearAdjacent(n: int)
    ensures YearFirst(YearAfter(n)) == YearAfter(n)
  {
    hide FromDays, ToDays;
    FirstOfMonth(FromDays(n).year + 1, 1);
  }

  lemma MonthsOrdered(y: int, m: int)
    requires 1 <= m <= 12
    ensures 0 <= MonthStart(y, m) && MonthStart(y, m + 1) <= YearLength(y)
  {
  }

  lemma MonthInsideYear(n: int)
    ensures YearFirst(n) <= MonthFirst(n) && MonthAfter(n) <= YearAfter(n)
  {
    hide FromDays, YearStart, MonthStart;
    var d := FromDays(n);
    YearSuccessor(d.year);
    FirstOfMonth(d.year, 1);
    MonthsOrdered(d.year, d.month);
  }
}
