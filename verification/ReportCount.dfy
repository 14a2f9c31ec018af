/** Fixed-offset calendar buckets for report counts, and the overflow-checked shift under them. */
module ReportCount {
  import opened Prelude
  import opened CivilCalendar
  import opened GoTime

  datatype Grouping = Hour | Day | Month | Year | Other(name: string)

  /** Whole-second offsets that fit a 64-bit count of nanoseconds. */
  const MAX_OFFSET_SECONDS := 9223372036

  predicate OffsetInRange(offset: int) {
    -MAX_OFFSET_SECONDS <= offset <= MAX_OFFSET_SECONDS
  }

  function Shift(at: Time, offset: int): Option<Time> {
    var seconds := Unix(at);
    var delta := TruncDiv(offset, NANOS_PER_SECOND);
    if (delta > 0 && seconds > MAX64 - delta) || (delta < 0 && seconds < MIN64 - delta) then None
    else
      var epoch := FromUnix(0, 0);
      if (seconds >= 0 && Before(at, epoch)) || (seconds < 0 && !Before(at, epoch)) then None
      else
        var shifted := Add(at, offset);
        if Unix(shifted) != seconds + delta || shifted.nsec != at.nsec then None
        else if Add(shifted, -offset) != at || FromUnix(Unix(at), at.nsec) != at
             || FromUnix(Unix(shifted), shifted.nsec) != shifted then None
        else Some(shifted)
  }

  function OffsetInstantValid(at: Time, offsetSeconds: int): bool {
    OffsetInRange(offsetSeconds) && Shift(at, offsetSeconds * NANOS_PER_SECOND).Some?
  }

  /** Start of the local bucket and start of the next one, before any range check. */
  function LocalBucket(local: Time, g: Grouping): Option<(Time, Time)> {
    var d := DayOf(local);
    match g
    case Hour =>
      var start := DateTime(d.year, d.month, d.day, HourOf(local));
      Some((start, Add(start, 3600 * NANOS_PER_SECOND)))
    case Day =>
      var start := DateTime(d.year, d.month, d.day, 0);
      Some((start, AddDate(start, 0, 0, 1)))
    case Month =>
      var start := DateTime(d.year, d.month, 1, 0);
      Some((start, AddDate(start, 0, 1, 0)))
    case Year =>
      var start := DateTime(d.year, 1, 1, 0);
      Some((start, AddDate(start, 1, 0, 0)))
    case Other(_) => None
  }

  /** The absolute bounds of the local calendar bucket containing an instant. */
  function CalendarBounds(at: Time, g: Grouping, offsetSeconds: int): Option<(Time, Time)> {
    if !OffsetInRange(offsetSeconds) then None
    else
      var offset := offsetSeconds * NANOS_PER_SECOND;
      var local := Shift(at, offset);
      if local.None? then None
      else
        var bucket := LocalBucket(local.value, g);
        if bucket.None? then None
        else
          var (start, next) := bucket.value;
          if !Before(start, next) || Before(local.value, start) || !Before(local.value, next) then None
          else
            var absoluteStart := Shift(start, -offset);
            var absoluteEnd := Shift(next, -offset);
            if absoluteStart.None? || absoluteEnd.None? || !Before(absoluteStart.value, absoluteEnd.value)
               || Before(at, absoluteStart.value) || !Before(at, absoluteEnd.value) then None
            else Some((absoluteStart.value, absoluteEnd.value))
  }

  // ---------- the shift is exact ----------

  /** Seconds since year 1 whose Unix value is representable without wrapping. */
  predicate Exact(sec: int) {
    MIN64 + UNIX_EPOCH <= sec <= MAX64
  }

  lemma WholeSeconds(d: int)
    ensures d % NANOS_PER_SECOND == 0 ==> d == NANOS_PER_SECOND * TruncDiv(d, NANOS_PER_SECOND)
    ensures d % NANOS_PER_SECOND != 0 ==> d != NANOS_PER_SECOND * TruncDiv(d, NANOS_PER_SECOND)
    ensures -NANOS_PER_SECOND < d - NANOS_PER_SECOND * TruncDiv(d, NANOS_PER_SECOND) < NANOS_PER_SECOND
    ensures TruncDiv(-d, NANOS_PER_SECOND) == -TruncDiv(d, NANOS_PER_SECOND)
  {
  }

  lemma DurationSeconds(d: int)
    requires IsDuration(d)
    ensures OffsetInRange(TruncDiv(d, NANOS_PER_SECOND))
  {
  }

  /**
   The shift succeeds exactly when the duration is in whole seconds and both instants have
   an exact Unix time, and then it is the mathematical shift with the nanosecond kept.
   */
  lemma ShiftIsExact(at: Time, offset: int)
    requires IsTime(at) && IsDuration(offset)
    ensures var delta := TruncDiv(offset, NANOS_PER_SECOND);
      Shift(at, offset) ==
        if offset % NANOS_PER_SECOND == 0 && Exact(at.sec) && Exact(at.sec + delta)
        then Some(Time(at.sec + delta, at.nsec)) else None
  {
    WholeSeconds(offset);
    DurationSeconds(offset);
  }

  /** A successful shift is undone by the opposite shift. */
  lemma ShiftUndone(at: Time, offset: int)
    requires IsTime(at) && IsDuration(offset) && IsDuration(-offset) && Shift(at, offset).Some?
    ensures IsTime(Shift(at, offset).value) && Shift(Shift(at, offset).value, -offset) == Some(at)
  {
    ShiftIsExact(at, offset);
    ShiftIsExact(Shift(at, offset).value, -offset);
    WholeSeconds(offset);
  }

  // ---------- the natural local bucket, over unbounded time ----------

  /** First day of the day, month or year containing day n. */
  function UnitFirst(n: int, g: Grouping): int
    requires !g.Other? && !g.Hour?
  {
    match g case Day => n case Month => MonthFirst(n) case Year => YearFirst(n)
  }

  function UnitAfter(n: int, g: Grouping): int
    requires !g.Other? && !g.Hour?
  {
    match g case Day => n + 1 case Month => MonthAfter(n) case Year => YearAfter(n)
  }

  lemma UnitContains(n: int, g: Grouping)
    requires !g.Other? && !g.Hour?
    ensures UnitFirst(n, g) <= n < UnitAfter(n, g) <= UnitFirst(n, g) + 366
  {
    MonthContains(n);
    YearContains(n);
  }

  lemma UnitStable(n: int, k: int, g: Grouping)
    requires !g.Other? && !g.Hour? && UnitFirst(n, g) <= k < UnitAfter(n, g)
    ensures UnitFirst(k, g) == UnitFirst(n, g) && UnitAfter(k, g) == UnitAfter(n, g)
  {
    match g
    case Day =>
    case Month => MonthStable(n, k);
    case Year => YearStable(n, k);
  }

  lemma UnitAdjacent(n: int, g: Grouping)
    requires !g.Other? && !g.Hour?
    ensures UnitFirst(UnitAfter(n, g), g) == UnitAfter(n, g)
  {
    MonthAdjacent(n);
    YearAdjacent(n);
  }

  /** Start of the calendar unit containing second `sec` of local time. */
  function NaturalStart(sec: int, g: Grouping): int
    requires !g.Other?
  {
    if g.Hour? then sec / 3600 * 3600 else UnitFirst(sec / SECONDS_PER_DAY, g) * SECONDS_PER_DAY
  }

  /** Start of the following unit. */
  function NaturalNext(sec: int, g: Grouping): int
    requires !g.Other?
  {
    if g.Hour? then NaturalStart(sec, g) + 3600 else UnitAfter(sec / SECONDS_PER_DAY, g) * SECONDS_PER_DAY
  }

  lemma DayBounds(sec: int, first: int, next: int)
    ensures first <= sec / SECONDS_PER_DAY < next <==> first * SECONDS_PER_DAY <= sec < next * SECONDS_PER_DAY
  {
  }

  lemma NaturalContains(sec: int, g: Grouping)
    requires !g.Other?
    ensures NaturalStart(sec, g) <= sec < NaturalNext(sec, g) <= NaturalStart(sec, g) + 366 * SECONDS_PER_DAY
  {
    if !g.Hour? {
      var n := sec / SECONDS_PER_DAY;
      UnitContains(n, g);
      DayBounds(sec, UnitFirst(n, g), UnitAfter(n, g));
    }
  }

  /** Every second of a natural bucket has that same bucket. */
  lemma NaturalStable(sec: int, other: int, g: Grouping)
    requires !g.Other? && NaturalStart(sec, g) <= other < NaturalNext(sec, g)
    ensures NaturalStart(other, g) == NaturalStart(sec, g) && NaturalNext(other, g) == NaturalNext(sec, g)
  {
    if !g.Hour? {
      var n := sec / SECONDS_PER_DAY;
      DayBounds(other, UnitFirst(n, g), UnitAfter(n, g));
      UnitStable(n, other / SECONDS_PER_DAY, g);
    }
  }

  lemma WholeDays(n: int)
    ensures n * SECONDS_PER_DAY / SECONDS_PER_DAY == n
  {
  }

  /** The following bucket starts where this one ends. */
  lemma NaturalAdjacent(sec: int, g: Grouping)
    requires !g.Other?
    ensures NaturalStart(NaturalNext(sec, g), g) == NaturalNext(sec, g)
  {
    if !g.Hour? {
      var n := sec / SECONDS_PER_DAY;
      WholeDays(UnitAfter(n, g));
      UnitAdjacent(n, g);
    }
  }

  /** The hour lies inside the day, the day inside the month, the month inside the year. */
  lemma NaturalNesting(sec: int)
    ensures NaturalStart(sec, Year) <= NaturalStart(sec, Month) <= NaturalStart(sec, Day) <= NaturalStart(sec, Hour)
    ensures NaturalNext(sec, Hour) <= NaturalNext(sec, Day) <= NaturalNext(sec, Month) <= NaturalNext(sec, Year)
  {
    var n := sec / SECONDS_PER_DAY;
    MonthContains(n);
    MonthInsideYear(n);
    HourInsideDay(sec);
  }

  lemma HourInsideDay(sec: int)
    ensures NaturalStart(sec, Day) <= NaturalStart(sec, Hour) && NaturalNext(sec, Hour) <= NaturalNext(sec, Day)
  {
    HourStart(sec);
  }

  // ---------- the computed local bucket ----------

  lemma HourStart(sec: int)
    ensures sec / SECONDS_PER_DAY * SECONDS_PER_DAY + sec % SECONDS_PER_DAY / 3600 * 3600 == sec / 3600 * 3600
  {
  }

  /** 1 January of the first whole year of absolute time. */
  const FIRST_WHOLE_YEAR := ABSOLUTE_ZERO + 306 * SECONDS_PER_DAY

  /** What the wrapped day count makes of 1 January of the year before, and of a year after that. */
  const FIRST_YEAR_START := ABSOLUTE_ZERO - 5173632
  const FIRST_YEAR_END := ABSOLUTE_ZERO + 26362368

  /** Year buckets of the year in which absolute time begins start before the absolute zero. */
  predicate InFirstYear(sec: int, g: Grouping) {
    g.Year? && ABSOLUTE_ZERO <= sec < FIRST_WHOLE_YEAR
  }

  lemma FirstYearStart()
    ensures DateTime(-ABSOLUTE_YEARS, 1, 1, 0) == Time(FIRST_YEAR_START, 0)
  {
    hide AbsoluteDays;
    WrappedYear();
  }

  lemma FirstYearEnd()
    ensures AddDate(Time(FIRST_YEAR_START, 0), 1, 0, 0) == Time(FIRST_YEAR_END, 0)
  {
    hide FromDays, DateTime, AbsoluteDays;
    var n := 106751991980303;
    assert ToDays(292277026853, 11, 8) == n && ToDays(292277026854, 11, 8) == n + 365;
    DateOfItsDay(292277026853, 11, 8);
    assert Unrolled(FIRST_YEAR_START) == n * SECONDS_PER_DAY + 35584;
    Quotient(SECONDS_PER_DAY, n, 35584, Unrolled(FIRST_YEAR_START));
    DateTimePlain(292277026854, 11, 8, 0);
  }

  /** The first second from which all buckets of a grouping are the calendar's own. */
  function Origin(g: Grouping): int {
    if g.Year? then FIRST_WHOLE_YEAR else ABSOLUTE_ZERO
  }

  lemma OriginIsNatural(g: Grouping)
    requires !g.Other?
    ensures NaturalStart(Origin(g), g) == Origin(g)
  {
    hide FromDays, YearStart, MonthStart;
    ZeroYearBounds();
    WholeDays(ZERO_DAY);
    WholeDays(ZERO_DAY + 306);
    FirstOfMonth(-ABSOLUTE_YEARS, 3);
    FirstOfMonth(-ABSOLUTE_YEARS + 1, 1);
    ZeroMonth();
  }

  lemma ZeroMonth()
    ensures ToDays(-ABSOLUTE_YEARS, 3, 1) == ZERO_DAY
    ensures ToDays(-ABSOLUTE_YEARS + 1, 1, 1) == ZERO_DAY + 306
  {
  }

  /** A natural bucket that reaches a natural start does not begin before it. */
  lemma NaturalOrder(start: int, sec: int, g: Grouping)
    requires !g.Other? && NaturalStart(start, g) == start
    ensures start <= sec ==> start <= NaturalStart(sec, g)
    ensures sec < start ==> NaturalNext(sec, g) <= start
  {
    NaturalContains(sec, g);
    if NaturalStart(sec, g) <= start < NaturalNext(sec, g) {
      NaturalStable(sec, start, g);
    }
  }

  function Min(a: int, b: int): int {
    if a < b then a else b
  }

  /** Natural starts are reached modulo 2^64; adding an hour sticks to the last second instead. */
  function ReachedNext(w: int, g: Grouping): int
    requires !g.Other?
  {
    if g.Hour? then Min(Wrap64(NaturalStart(w, g)) + 3600, MAX64) else Wrap64(NaturalNext(w, g))
  }

  /** The constructed start is the natural one of the second whose date is reported. */
  lemma ComputedStart(local: Time, g: Grouping)
    requires IsTime(local) && !g.Other? && !InFirstYear(local.sec, g)
    ensures LocalBucket(local, g).Some?
    ensures LocalBucket(local, g).value.0 == Time(Wrap64(NaturalStart(Unrolled(local.sec), g)), 0)
  {
    hide FromDays, ToDays, DateTime, AddDate, Wrap64, Unrolled, MonthFirst, YearFirst;
    var w := Unrolled(local.sec);
    var n, d := w / SECONDS_PER_DAY, DayOf(local);
    ReportedInReach(n);
    match g
    case Hour =>
      HourStart(w);
      DateTimePlain(d.year, d.month, d.day, HourOf(local));
    case Day => DateTimePlain(d.year, d.month, d.day, 0);
    case Month =>
      DateTimePlain(d.year, d.month, 1, 0);
      FirstDays(n);
    case Year =>
      DateTimePlain(d.year, 1, 1, 0);
      FirstDays(n);
  }

  lemma FirstDays(n: int)
    ensures MonthFirst(n) == ToDays(FromDays(n).year, FromDays(n).month, 1)
    ensures YearFirst(n) == ToDays(FromDays(n).year, 1, 1)
  {
    hide FromDays;
    FirstOfMonth(FromDays(n).year, 1);
  }

  lemma NextDayStart(n: int)
    requires ABSOLUTE_ZERO <= n * SECONDS_PER_DAY < ABSOLUTE_ZERO + TWO_TO_THE_64
    ensures AddDate(Time(Wrap64(n * SECONDS_PER_DAY), 0), 0, 0, 1) == Time(Wrap64((n + 1) * SECONDS_PER_DAY), 0)
  {
    hide FromDays, YearStart, MonthStart, DateTime, AddDate, Wrap64;
    var d := FromDays(n);
    AddDateAtMidnight(n, 0, 0, 1);
    ReportedInReach(n);
    DateTimePlain(d.year, d.month, d.day + 1, 0);
  }

  lemma NextMonthStart(n: int)
    requires ABSOLUTE_ZERO <= MonthFirst(n) * SECONDS_PER_DAY < ABSOLUTE_ZERO + TWO_TO_THE_64
    ensures AddDate(Time(Wrap64(MonthFirst(n) * SECONDS_PER_DAY), 0), 0, 1, 0)
         == Time(Wrap64(MonthAfter(n) * SECONDS_PER_DAY), 0)
  {
    hide FromDays, ToDays, DateTime, AddDate, Wrap64, InReach;
    var d := FromDays(n);
    FirstOfMonth(d.year, d.month);
    AddDateAtMidnight(MonthFirst(n), 0, 1, 0);
    ReportedInReach(MonthFirst(n));
    MonthCarries(d.year, d.month);
    if d.month == 12 {
      DateTimeCarried(d.year, 1, 0);
    } else {
      LaterMonthInReach(d.year, d.month);
      DateTimePlain(d.year, d.month + 1, 1, 0);
    }
  }

  lemma LaterMonthInReach(year: int, month: int)
    requires InReach(year, month)
    ensures InReach(year, month + 1)
  {
  }

  lemma NextYearStart(n: int)
    requires ABSOLUTE_ZERO <= YearFirst(n) * SECONDS_PER_DAY < ABSOLUTE_ZERO + TWO_TO_THE_64
    ensures AddDate(Time(Wrap64(YearFirst(n) * SECONDS_PER_DAY), 0), 1, 0, 0)
         == Time(Wrap64(YearAfter(n) * SECONDS_PER_DAY), 0)
  {
    hide FromDays, ToDays, DateTime, AddDate, Wrap64, InReach;
    var d := FromDays(n);
    FirstOfMonth(d.year, 1);
    FirstOfMonth(d.year + 1, 1);
    AddDateAtMidnight(YearFirst(n), 1, 0, 0);
    ReportedInReach(YearFirst(n));
    DateTimePlain(d.year + 1, 1, 1, 0);
  }

  lemma NextHourStart(s: int)
    requires MIN64 <= s <= MAX64
    ensures Add(Time(s, 0), 3600 * NANOS_PER_SECOND) == Time(Min(s + 3600, MAX64), 0)
  {
  }

  lemma ComputedNext(local: Time, g: Grouping)
    requires IsTime(local) && !g.Other? && !InFirstYear(local.sec, g)
    ensures LocalBucket(local, g).Some?
    ensures LocalBucket(local, g).value.1 == Time(ReachedNext(Unrolled(local.sec), g), 0)
  {
    hide FromDays, ToDays, DateTime, AddDate, Add, MonthFirst, MonthAfter, YearFirst, YearAfter;
    ComputedStart(local, g);
    var w := Unrolled(local.sec);
    OriginIsNatural(g);
    NaturalOrder(Origin(g), w, g);
    NaturalContains(w, g);
    var n := w / SECONDS_PER_DAY;
    match g
    case Hour => NextHourStart(Wrap64(NaturalStart(w, g)));
    case Day => NextDayStart(n);
    case Month => NextMonthStart(n);
    case Year => NextYearStart(n);
  }

  lemma ComputedFirstYear(local: Time)
    requires IsTime(local) && InFirstYear(local.sec, Year)
    ensures LocalBucket(local, Year) == Some((Time(FIRST_YEAR_START, 0), Time(FIRST_YEAR_END, 0)))
  {
    hide FromDays, DateTime, AddDate;
    ReportedInReach(local.sec / SECONDS_PER_DAY);
    FirstYearStart();
    FirstYearEnd();
  }

  // ---------- what the bounds are ----------

  /** How much later than the second itself lies the second whose date is reported. */
  function Lead(sec: int): int {
    Unrolled(sec) - sec
  }

  function LocalStart(sec: int, g: Grouping): int
    requires !g.Other?
  {
    if InFirstYear(sec, g) then FIRST_YEAR_START else NaturalStart(Unrolled(sec), g) - Lead(sec)
  }

  /** Where the local bucket ends: the hour in which time itself ends is cut short. */
  function LocalEnd(sec: int, g: Grouping): int
    requires !g.Other?
  {
    if InFirstYear(sec, g) then FIRST_YEAR_END
    else
      var end := NaturalNext(Unrolled(sec), g) - Lead(sec);
      if g.Hour? then Min(end, MAX64) else end
  }

  /** The bounds in plain arithmetic: the local bucket, shifted back, all of it representable. */
  function ExactBounds(at: Time, g: Grouping, offset: int): Option<(Time, Time)> {
    if !OffsetInRange(offset) || g.Other? then None
    else
      var local := at.sec + offset;
      var start, end := LocalStart(local, g), LocalEnd(local, g);
      if && Exact(at.sec) && Exact(local) && local < end
         && Exact(start) && Exact(end) && Exact(start - offset) && Exact(end - offset)
      then Some((Time(start - offset, 0), Time(end - offset, 0))) else None
  }

  lemma OffsetSeconds(offset: int)
    requires OffsetInRange(offset)
    ensures IsDuration(offset * NANOS_PER_SECOND) && IsDuration(-(offset * NANOS_PER_SECOND))
    ensures TruncDiv(offset * NANOS_PER_SECOND, NANOS_PER_SECOND) == offset
    ensures TruncDiv(-(offset * NANOS_PER_SECOND), NANOS_PER_SECOND) == -offset
    ensures offset * NANOS_PER_SECOND % NANOS_PER_SECOND == 0 && -(offset * NANOS_PER_SECOND) % NANOS_PER_SECOND == 0
  {
  }

  /** The shift by a whole-second offset, forth and back. */
  lemma ShiftBySeconds(at: Time, offset: int)
    requires IsTime(at) && OffsetInRange(offset)
    ensures Shift(at, offset * NANOS_PER_SECOND) ==
      if Exact(at.sec) && Exact(at.sec + offset) then Some(Time(at.sec + offset, at.nsec)) else None
    ensures Shift(at, -(offset * NANOS_PER_SECOND)) ==
      if Exact(at.sec) && Exact(at.sec - offset) then Some(Time(at.sec - offset, at.nsec)) else None
  {
    hide Shift;
    OffsetSeconds(offset);
    ShiftIsExact(at, offset * NANOS_PER_SECOND);
    ShiftIsExact(at, -(offset * NANOS_PER_SECOND));
  }

  lemma LocalContains(sec: int, g: Grouping)
    requires MIN64 <= sec <= MAX64 && !g.Other? && !InFirstYear(sec, g)
    ensures LocalStart(sec, g) <= sec < NaturalNext(Unrolled(sec), g) - Lead(sec)
         <= LocalStart(sec, g) + 366 * SECONDS_PER_DAY
    ensures sec < MAX64 ==> sec < LocalEnd(sec, g)
  {
    NaturalContains(Unrolled(sec), g);
  }

  /** A start that wrapped lies after the instant, and an end that wrapped lies before the start. */
  lemma WrapsAreCaught(sec: int, g: Grouping)
    requires !g.Other? && Exact(sec) && !InFirstYear(sec, g)
    ensures LocalStart(sec, g) < MIN64 ==> Wrap64(NaturalStart(Unrolled(sec), g)) > sec
    ensures LocalStart(sec, g) >= MIN64 ==> Wrap64(NaturalStart(Unrolled(sec), g)) == LocalStart(sec, g)
    ensures LocalEnd(sec, g) > MAX64 ==> ReachedNext(Unrolled(sec), g) < LocalStart(sec, g)
    ensures LocalStart(sec, g) >= MIN64 && LocalEnd(sec, g) <= MAX64 ==>
      ReachedNext(Unrolled(sec), g) == LocalEnd(sec, g)
    ensures MIN64 <= Wrap64(NaturalStart(Unrolled(sec), g)) <= MAX64
    ensures LocalStart(sec, g) >= MIN64 ==> MIN64 <= ReachedNext(Unrolled(sec), g) <= MAX64
    ensures LocalStart(sec, g) <= sec
  {
    assert g.Hour? ==> NaturalNext(Unrolled(sec), g) == NaturalStart(Unrolled(sec), g) + 3600;
    hide NaturalStart, NaturalNext, Unrolled;
    LocalContains(sec, g);
  }

  /** For every instant, grouping and offset, the guarded computation is the plain arithmetic. */
  lemma BoundsAreExact(at: Time, g: Grouping, offset: int)
    requires IsTime(at)
    ensures CalendarBounds(at, g, offset) == ExactBounds(at, g, offset)
  {
    hide Shift, LocalStart, LocalEnd, DateTime, AddDate, Add, DayOf, HourOf, Wrap64, ReachedNext;
    if OffsetInRange(offset) {
      ShiftBySeconds(at, offset);
      if Exact(at.sec) && Exact(at.sec + offset) && !g.Other? {
        if InFirstYear(at.sec + offset, g) {
          FirstYearBounds(at, offset);
        } else {
          WholeYearBounds(at, g, offset);
        }
      }
    }
  }

  lemma FirstYearBounds(at: Time, offset: int)
    requires IsTime(at) && OffsetInRange(offset) && Exact(at.sec) && InFirstYear(at.sec + offset, Year)
    ensures CalendarBounds(at, Year, offset) == ExactBounds(at, Year, offset)
  {
    hide Shift, LocalBucket;
    ShiftBySeconds(at, offset);
    ComputedFirstYear(Time(at.sec + offset, at.nsec));
    ShiftBySeconds(Time(FIRST_YEAR_START, 0), offset);
    ShiftBySeconds(Time(FIRST_YEAR_END, 0), offset);
  }

  lemma WholeYearBounds(at: Time, g: Grouping, offset: int)
    requires IsTime(at) && OffsetInRange(offset) && Exact(at.sec) && Exact(at.sec + offset)
    requires !g.Other? && !InFirstYear(at.sec + offset, g)
    ensures CalendarBounds(at, g, offset) == ExactBounds(at, g, offset)
  {
    hide Shift, LocalStart, LocalEnd, LocalBucket, NaturalStart, NaturalNext, Wrap64, ReachedNext, Unrolled;
    ShiftBySeconds(at, offset);
    var local := Time(at.sec + offset, at.nsec);
    WrapsAreCaught(local.sec, g);
    ComputedStart(local, g);
    if LocalStart(local.sec, g) >= MIN64 {
      ComputedNext(local, g);
      ShiftBySeconds(Time(LocalStart(local.sec, g), 0), offset);
      ShiftBySeconds(Time(ReachedNext(Unrolled(local.sec), g), 0), offset);
    }
  }
}
