/**
 When calendar buckets tile time. They do on either side of the absolute zero of Go's dates;
 the bucket that reaches across it, and the year bucket just after it, overlap others.
 */
module ReportTiling {
  import opened Prelude
  import opened CivilCalendar
  import opened GoTime
  import opened ReportCount

  /** Half-open interval membership. */
  predicate Inside(t: Time, lo: Time, hi: Time) {
    !Before(t, lo) && Before(t, hi)
  }

  /** Dates before the absolute zero are those of 2^64 seconds later, so the local buckets there lie on another grid. */
  predicate BeforeZero(sec: int) {
    sec < ABSOLUTE_ZERO
  }

  /** Start and end of the local bucket that reaches across the absolute zero. */
  function SeamStart(g: Grouping): int {
    match g
    case Hour => ABSOLUTE_ZERO - 16
    case Day => ABSOLUTE_ZERO - 25216
    case _ => ABSOLUTE_ZERO - 543616
  }

  function SeamEnd(g: Grouping): int {
    match g
    case Hour => ABSOLUTE_ZERO + 3584
    case Day => ABSOLUTE_ZERO + 61184
    case Month => ABSOLUTE_ZERO + 2134784
    case _ => ABSOLUTE_ZERO + 30992384
  }

  /** Local seconds whose bucket is not the calendar's: from the seam's start up to the origin of the grouping. */
  predicate Astray(sec: int, g: Grouping) {
    SeamStart(g) <= sec < Origin(g)
  }

  // ---------- the local buckets on each side ----------

  lemma SameSideStable(sec: int, other: int, g: Grouping)
    requires MIN64 <= sec <= MAX64 && MIN64 <= other <= MAX64 && !g.Other?
    requires BeforeZero(sec) <==> BeforeZero(other)
    requires sec < LocalEnd(sec, g) && LocalStart(sec, g) <= other < LocalEnd(sec, g)
    ensures LocalStart(other, g) == LocalStart(sec, g) && LocalEnd(other, g) == LocalEnd(sec, g)
  {
    hide NaturalStart, NaturalNext;
    if !InFirstYear(sec, g) {
      OriginIsNatural(g);
      NaturalOrder(Origin(g), Unrolled(sec), g);
      assert Lead(sec) == Lead(other);
      NaturalStable(Unrolled(sec), Unrolled(other), g);
    }
  }

  /** The last second before the absolute zero has the date of 7 January 292277026854, 07:00:15. */
  lemma LastSecond(g: Grouping)
    requires !g.Other?
    ensures LocalStart(ABSOLUTE_ZERO - 1, g) == SeamStart(g) && LocalEnd(ABSOLUTE_ZERO - 1, g) == SeamEnd(g)
  {
    hide FromDays;
    var n := 106751991980363;
    assert ToDays(292277026854, 1, 7) == n && YearLength(292277026854) == 365;
    DateOfItsDay(292277026854, 1, 7);
    YearSuccessor(292277026854);
    Quotient(SECONDS_PER_DAY, n, 25215, Unrolled(ABSOLUTE_ZERO - 1));
  }

  /** Before the absolute zero, exactly the seam's bucket reaches across it. */
  lemma SeamBucket(sec: int, g: Grouping)
    requires MIN64 <= sec < ABSOLUTE_ZERO && !g.Other?
    ensures SeamStart(g) <= sec ==> LocalStart(sec, g) == SeamStart(g) && LocalEnd(sec, g) == SeamEnd(g)
    ensures sec < SeamStart(g) ==> LocalEnd(sec, g) <= SeamStart(g)
  {
    hide NaturalStart, NaturalNext;
    var last := ABSOLUTE_ZERO - 1;
    LastSecond(g);
    LocalContains(sec, g);
    if SeamStart(g) <= sec {
      SameSideStable(last, sec, g);
    } else if SeamStart(g) < LocalEnd(sec, g) {
      SameSideStable(sec, SeamStart(g), g);
      SameSideStable(last, SeamStart(g), g);
    }
  }

  /** Starts and ends of natural buckets are whole hours. */
  lemma WholeHours(sec: int, g: Grouping)
    requires !g.Other?
    ensures NaturalStart(sec, g) % 3600 == 0 && NaturalNext(sec, g) % 3600 == 0
  {
    hide UnitFirst, UnitAfter;
    var n := sec / SECONDS_PER_DAY;
    if g.Hour? {
      Quotient(3600, sec / 3600, 0, NaturalStart(sec, g));
      Quotient(3600, sec / 3600 + 1, 0, NaturalNext(sec, g));
    } else {
      Quotient(3600, 24 * UnitFirst(n, g), 0, NaturalStart(sec, g));
      Quotient(3600, 24 * UnitAfter(n, g), 0, NaturalNext(sec, g));
    }
  }

  // ---------- buckets tile time ----------

  /** A bucket is a nonempty interval around its instant. */
  lemma BucketContains(at: Time, g: Grouping, offset: int)
    requires IsTime(at) && CalendarBounds(at, g, offset).Some?
    ensures var (s, e) := CalendarBounds(at, g, offset).value;
      && IsTime(s) && IsTime(e) && s.nsec == 0 && e.nsec == 0 && Before(s, e) && Inside(at, s, e)
  {
    hide CalendarBounds, LocalEnd, NaturalStart, NaturalNext;
    BoundsAreExact(at, g, offset);
    if !InFirstYear(at.sec + offset, g) {
      LocalContains(at.sec + offset, g);
    }
  }

  /** The instants of a bucket on the same side of the absolute zero have that bucket. */
  lemma SameSideSameBucket(at: Time, t: Time, g: Grouping, offset: int)
    requires IsTime(at) && IsTime(t) && CalendarBounds(at, g, offset).Some?
    requires BeforeZero(at.sec + offset) <==> BeforeZero(t.sec + offset)
    requires var (s, e) := CalendarBounds(at, g, offset).value; Inside(t, s, e)
    ensures CalendarBounds(t, g, offset) == CalendarBounds(at, g, offset)
  {
    hide CalendarBounds, LocalStart, LocalEnd;
    BoundsAreExact(at, g, offset);
    BoundsAreExact(t, g, offset);
    SameSideStable(at.sec + offset, t.sec + offset, g);
  }

  /** Every instant in the bucket of `at`, and no other, has that bucket. */
  ghost predicate TilesAround(at: Time, g: Grouping, offset: int)
    requires CalendarBounds(at, g, offset).Some?
  {
    var (s, e) := CalendarBounds(at, g, offset).value;
    forall t: Time | IsTime(t) :: Inside(t, s, e) <==> CalendarBounds(t, g, offset) == Some((s, e))
  }

  /** Where a bucket starts, locally, on each side. */
  lemma StartSide(sec: int, g: Grouping)
    requires MIN64 <= sec <= MAX64 && !g.Other? && !Astray(sec, g)
    ensures BeforeZero(sec) ==> LocalEnd(sec, g) <= SeamStart(g)
    ensures !BeforeZero(sec) ==> LocalStart(sec, g) >= Origin(g)
  {
    hide NaturalStart, NaturalNext;
    if BeforeZero(sec) {
      SeamBucket(sec, g);
    } else {
      OriginIsNatural(g);
      NaturalOrder(Origin(g), sec, g);
    }
  }

  lemma TilesOffTheSeam(at: Time, g: Grouping, offset: int)
    requires IsTime(at) && CalendarBounds(at, g, offset).Some? && !Astray(at.sec + offset, g)
    ensures TilesAround(at, g, offset)
  {
    hide CalendarBounds, LocalStart, LocalEnd;
    BoundsAreExact(at, g, offset);
    StartSide(at.sec + offset, g);
    var (s, e) := CalendarBounds(at, g, offset).value;
    forall t: Time | IsTime(t)
      ensures Inside(t, s, e) <==> CalendarBounds(t, g, offset) == Some((s, e))
    {
      if Inside(t, s, e) {
        SameSideSameBucket(at, t, g, offset);
      } else if CalendarBounds(t, g, offset).Some? {
        BucketContains(t, g, offset);
      }
    }
  }

  /** An instant of an astray bucket that has another bucket, or none. */
  function Stranger(sec: int): int {
    if BeforeZero(sec) then ABSOLUTE_ZERO else ABSOLUTE_ZERO - 1
  }

  lemma StrangerDiffers(sec: int, g: Grouping)
    requires MIN64 <= sec <= MAX64 && !g.Other? && Astray(sec, g)
    ensures LocalStart(sec, g) <= Stranger(sec) < LocalEnd(sec, g)
    ensures LocalStart(Stranger(sec), g) != LocalStart(sec, g)
  {
    hide NaturalStart, NaturalNext;
    LastSecond(g);
    if BeforeZero(sec) {
      SeamBucket(sec, g);
      OriginIsNatural(g);
    }
  }

  lemma AstrayDoesNotTile(at: Time, g: Grouping, offset: int)
    requires IsTime(at) && CalendarBounds(at, g, offset).Some? && Astray(at.sec + offset, g)
    ensures !TilesAround(at, g, offset)
  {
    hide CalendarBounds, LocalStart, LocalEnd;
    BoundsAreExact(at, g, offset);
    StrangerDiffers(at.sec + offset, g);
    var (s, e) := CalendarBounds(at, g, offset).value;
    var t := Time(Stranger(at.sec + offset) - offset, 0);
    BoundsAreExact(t, g, offset);
    assert IsTime(t) && Inside(t, s, e) && CalendarBounds(t, g, offset) != Some((s, e));
  }

  /**
   For every instant, grouping and offset with bounds: the bucket belongs to exactly the instants
   it contains if and only if the local second does not lie on the seam.
   */
  lemma OneBucketPerInstant(at: Time, g: Grouping, offset: int)
    requires IsTime(at) && CalendarBounds(at, g, offset).Some?
    ensures TilesAround(at, g, offset) <==> !Astray(at.sec + offset, g)
  {
    hide CalendarBounds, TilesAround;
    if Astray(at.sec + offset, g) {
      AstrayDoesNotTile(at, g, offset);
    } else {
      TilesOffTheSeam(at, g, offset);
    }
  }

  /** Around the absolute zero two hour buckets overlap, both of them reported. */
  lemma SeamOverlaps()
    ensures CalendarBounds(Time(ABSOLUTE_ZERO - 1, 0), Hour, 0)
         == Some((Time(ABSOLUTE_ZERO - 16, 0), Time(ABSOLUTE_ZERO + 3584, 0)))
    ensures CalendarBounds(Time(ABSOLUTE_ZERO, 0), Hour, 0)
         == Some((Time(ABSOLUTE_ZERO, 0), Time(ABSOLUTE_ZERO + 3600, 0)))
  {
    hide CalendarBounds;
    BoundsAreExact(Time(ABSOLUTE_ZERO - 1, 0), Hour, 0);
    BoundsAreExact(Time(ABSOLUTE_ZERO, 0), Hour, 0);
  }

  /** The bucket of a bucket's end, if there is one, starts at that end if and only if the bucket is not astray. */
  lemma BucketsAdjoin(at: Time, g: Grouping, offset: int)
    requires IsTime(at) && CalendarBounds(at, g, offset).Some?
    ensures var (s, e) := CalendarBounds(at, g, offset).value;
      CalendarBounds(e, g, offset).Some? ==>
        (CalendarBounds(e, g, offset).value.0 == e <==> !Astray(at.sec + offset, g))
  {
    hide CalendarBounds, LocalStart, LocalEnd;
    BoundsAreExact(at, g, offset);
    var e := CalendarBounds(at, g, offset).value.1;
    BoundsAreExact(e, g, offset);
    if Astray(at.sec + offset, g) {
      AstrayEnd(at.sec + offset, g);
    } else {
      EndStarts(at.sec + offset, g);
    }
  }

  /** The end of a bucket has a bucket if and only if the next local end is later and representable. */
  lemma EndHasBucket(at: Time, g: Grouping, offset: int)
    requires IsTime(at) && CalendarBounds(at, g, offset).Some?
    ensures var e := CalendarBounds(at, g, offset).value.1; var local := e.sec + offset;
      CalendarBounds(e, g, offset).Some? <==>
        local < LocalEnd(local, g) && Exact(LocalEnd(local, g)) && Exact(LocalEnd(local, g) - offset)
  {
    hide CalendarBounds, LocalStart, LocalEnd;
    BoundsAreExact(at, g, offset);
    var e := CalendarBounds(at, g, offset).value.1;
    BoundsAreExact(e, g, offset);
    EndStartsLater(at.sec + offset, g);
  }

  /** The bucket of a bucket's end starts after that bucket's start, unless it does not reach its own instant. */
  lemma EndStartsLater(sec: int, g: Grouping)
    requires MIN64 <= sec <= MAX64 && !g.Other? && sec < LocalEnd(sec, g) <= MAX64
    ensures var e := LocalEnd(sec, g);
      e < LocalEnd(e, g) ==> LocalStart(sec, g) <= LocalStart(e, g) <= e
  {
    var e := LocalEnd(sec, g);
    hide NaturalStart, NaturalNext;
    if Astray(sec, g) {
      if BeforeZero(sec) {
        SeamBucket(sec, g);
        LocalContains(e, g);
        OriginIsNatural(g);
        NaturalOrder(Origin(g), e, g);
      }
    } else {
      EndStarts(sec, g);
      LocalContains(sec, g);
    }
  }

  lemma AstrayEnd(sec: int, g: Grouping)
    requires MIN64 <= sec <= MAX64 && !g.Other? && Astray(sec, g)
    ensures var e := LocalEnd(sec, g); LocalStart(e, g) != e || LocalEnd(e, g) == e
  {
    hide NaturalStart, NaturalNext;
    if BeforeZero(sec) {
      SeamBucket(sec, g);
      WholeHours(SeamEnd(g), g);
    }
  }

  lemma EndStarts(sec: int, g: Grouping)
    requires MIN64 <= sec <= MAX64 && !g.Other? && !Astray(sec, g) && LocalEnd(sec, g) <= MAX64
    ensures var e := LocalEnd(sec, g); LocalStart(e, g) == e || LocalEnd(e, g) <= e
  {
    hide NaturalStart, NaturalNext;
    StartSide(sec, g);
    LocalContains(sec, g);
    NaturalAdjacent(Unrolled(sec), g);
    var e := LocalEnd(sec, g);
    if g.Hour? && e == MAX64 {
      NaturalContains(MAX64, g);
    }
  }

  // ---------- finer and coarser buckets ----------

  predicate Within(inner: (Time, Time), outer: (Time, Time)) {
    !Before(inner.0, outer.0) && !Before(outer.1, inner.1)
  }

  predicate Refines(at: Time, offset: int, fine: Grouping, coarse: Grouping) {
    var a, b := CalendarBounds(at, fine, offset), CalendarBounds(at, coarse, offset);
    a.Some? && b.Some? ==> Within(a.value, b.value)
  }

  /** The first December of absolute time, which outlasts its year's bucket. */
  const FIRST_DECEMBER := ABSOLUTE_ZERO + 275 * SECONDS_PER_DAY

  predicate InFirstDecember(sec: int) {
    FIRST_DECEMBER <= sec < FIRST_YEAR_END
  }

  lemma FirstDecemberIsNatural()
    ensures NaturalStart(FIRST_DECEMBER, Month) == FIRST_DECEMBER
    ensures NaturalNext(FIRST_DECEMBER, Month) == FIRST_WHOLE_YEAR
  {
    hide FromDays;
    assert ToDays(-ABSOLUTE_YEARS, 12, 1) == ZERO_DAY + 275 && MonthLength(-ABSOLUTE_YEARS, 12) == 31;
    hide ToDays, MonthLength;
    FirstOfMonth(-ABSOLUTE_YEARS, 12);
    WholeDays(ZERO_DAY + 275);
  }

  lemma FirstDecember(sec: int)
    requires ABSOLUTE_ZERO <= sec < FIRST_WHOLE_YEAR
    ensures ABSOLUTE_ZERO <= NaturalStart(sec, Month)
    ensures sec < FIRST_DECEMBER ==> NaturalNext(sec, Month) <= FIRST_DECEMBER
    ensures FIRST_DECEMBER <= sec ==> NaturalNext(sec, Month) == FIRST_WHOLE_YEAR
  {
    hide NaturalStart, NaturalNext;
    OriginIsNatural(Month);
    NaturalOrder(ABSOLUTE_ZERO, sec, Month);
    FirstDecemberIsNatural();
    NaturalOrder(FIRST_DECEMBER, sec, Month);
    if FIRST_DECEMBER <= sec {
      NaturalStable(FIRST_DECEMBER, sec, Month);
    }
  }

  /**
   Finer buckets lie inside coarser ones, on and off the seam, with one exception: a month
   does not lie inside its year if and only if the local second is in the first December.
   */
  lemma FinerInsideCoarser(at: Time, offset: int)
    requires IsTime(at)
    ensures Refines(at, offset, Hour, Day) && Refines(at, offset, Day, Month)
    ensures CalendarBounds(at, Month, offset).Some? && CalendarBounds(at, Year, offset).Some? ==>
      (Refines(at, offset, Month, Year) <==> !InFirstDecember(at.sec + offset))
  {
    hide NaturalStart, NaturalNext, CalendarBounds;
    BoundsAreExact(at, Hour, offset);
    BoundsAreExact(at, Day, offset);
    BoundsAreExact(at, Month, offset);
    BoundsAreExact(at, Year, offset);
    NaturalNesting(Unrolled(at.sec + offset));
    if InFirstYear(at.sec + offset, Year) {
      FirstDecember(at.sec + offset);
    } else if !BeforeZero(at.sec + offset) {
      assert !InFirstDecember(at.sec + offset);
    }
  }

  /** An instant in the first December whose month outlasts its year. */
  lemma FirstDecemberFails()
    ensures !Refines(Time(FIRST_DECEMBER, 0), 0, Month, Year)
  {
    hide CalendarBounds, NaturalStart, NaturalNext;
    FirstDecember(FIRST_DECEMBER);
    BoundsAreExact(Time(FIRST_DECEMBER, 0), Month, 0);
    BoundsAreExact(Time(FIRST_DECEMBER, 0), Year, 0);
    NaturalContains(FIRST_DECEMBER, Month);
  }

  // ---------- offsets and hours ----------

  /** Bounds at zero offset of the shifted instant, shifted back. */
  function ThroughZeroOffset(at: Time, g: Grouping, offset: int): Option<(Time, Time)>
    requires OffsetInRange(offset)
  {
    var d := offset * NANOS_PER_SECOND;
    var local := Shift(at, d);
    if local.None? || CalendarBounds(local.value, g, 0).None? then None
    else
      var (s, e) := CalendarBounds(local.value, g, 0).value;
      if Shift(s, -d).None? || Shift(e, -d).None? then None else Some((Shift(s, -d).value, Shift(e, -d).value))
  }

  /** An offset only moves the clock: bucketing commutes with the shift. */
  lemma OffsetOnlyShifts(at: Time, g: Grouping, offset: int)
    requires IsTime(at) && OffsetInRange(offset)
    ensures CalendarBounds(at, g, offset) == ThroughZeroOffset(at, g, offset)
  {
    hide LocalStart, LocalEnd, CalendarBounds, Shift;
    BoundsAreExact(at, g, offset);
    ShiftBySeconds(at, offset);
    if Exact(at.sec) && Exact(at.sec + offset) {
      var local := Time(at.sec + offset, at.nsec);
      BoundsAreExact(local, g, 0);
      if CalendarBounds(local, g, 0).Some? {
        var (s, e) := CalendarBounds(local, g, 0).value;
        ShiftBySeconds(s, offset);
        ShiftBySeconds(e, offset);
      }
    }
  }

  /**
   Hour buckets last an hour except the one in which representable time ends: adding an
   hour there sticks to the last second, and the shorter bucket is still reported.
   */
  lemma HourLength(at: Time, offset: int)
    requires IsTime(at) && CalendarBounds(at, Hour, offset).Some?
    ensures var (s, e) := CalendarBounds(at, Hour, offset).value;
      && e.sec - s.sec <= 3600
      && (e.sec - s.sec == 3600 <==> at.sec + offset < MAX64 / 3600 * 3600)
  {
    hide CalendarBounds;
    BoundsAreExact(at, Hour, offset);
  }

  lemma LastHourIsShort()
    ensures var at := Time(MAX64 - 1, 0);
      && CalendarBounds(at, Hour, 0).Some?
      && CalendarBounds(at, Hour, 0).value.1.sec - CalendarBounds(at, Hour, 0).value.0.sec == 1807
  {
    hide CalendarBounds;
    BoundsAreExact(Time(MAX64 - 1, 0), Hour, 0);
  }

  // ---------- the units ----------

  /** The same hour of the same day, the same day, the same month of the same year, or the same year. */
  predicate SameUnit(a: int, b: int, g: Grouping) {
    var m, n := Unrolled(a) / 86400, Unrolled(b) / 86400;
    match g
    case Hour => m == n && Unrolled(a) % 86400 / 3600 == Unrolled(b) % 86400 / 3600
    case Day => m == n
    case Month => FromDays(m).year == FromDays(n).year && FromDays(m).month == FromDays(n).month
    case Year => FromDays(m).year == FromDays(n).year
    case Other(_) => false
  }

  lemma NaturalUnit(a: int, b: int, g: Grouping)
    requires !g.Other?
    ensures NaturalStart(Unrolled(a), g) == NaturalStart(Unrolled(b), g) <==> SameUnit(a, b, g)
  {
    hide FromDays;
    var x, y := Unrolled(a), Unrolled(b);
    var m, n := x / 86400, y / 86400;
    match g {
      case Hour => HourStart(x); HourStart(y); WholeHourUnit(x, y);
      case Day => WholeDays(m); WholeDays(n);
      case Month => MonthUnit(m, n);
      case Year => YearUnit(m, n);
    }
  }

  lemma WholeHourUnit(x: int, y: int)
    ensures x / 3600 == y / 3600 <==> x / 86400 == y / 86400 && x % 86400 / 3600 == y % 86400 / 3600
  {
    Quotient(24, x / 86400, x % 86400 / 3600, x / 3600);
    Quotient(24, y / 86400, y % 86400 / 3600, y / 3600);
  }

  lemma MonthUnit(m: int, n: int)
    ensures MonthFirst(m) == MonthFirst(n) <==>
      FromDays(m).year == FromDays(n).year && FromDays(m).month == FromDays(n).month
  {
    MonthContains(m);
    MonthContains(n);
    if MonthFirst(m) == MonthFirst(n) {
      MonthStable(m, MonthFirst(m));
      MonthStable(n, MonthFirst(m));
    }
  }

  lemma YearUnit(m: int, n: int)
    ensures YearFirst(m) == YearFirst(n) <==> FromDays(m).year == FromDays(n).year
  {
    YearContains(m);
    YearContains(n);
    if YearFirst(m) == YearFirst(n) {
      YearStable(m, YearFirst(m));
      YearStable(n, YearFirst(m));
    }
  }

  /** Natural buckets with one start are one bucket. */
  lemma SameStartSameEnd(x: int, y: int, g: Grouping)
    requires !g.Other? && NaturalStart(x, g) == NaturalStart(y, g)
    ensures NaturalNext(x, g) == NaturalNext(y, g)
  {
    hide NaturalStart, NaturalNext;
    NaturalContains(x, g);
    NaturalContains(y, g);
    NaturalStable(x, NaturalStart(x, g), g);
    NaturalStable(y, NaturalStart(x, g), g);
  }

  /**
   Off the seam and on one side of the absolute zero, two instants have one bucket if and only if their local dates
   agree as far as the grouping looks: to the hour, the day, the month or the year.
   */
  lemma BucketsAreCalendarUnits(a: Time, b: Time, g: Grouping, offset: int)
    requires IsTime(a) && IsTime(b) && CalendarBounds(a, g, offset).Some? && CalendarBounds(b, g, offset).Some?
    requires !Astray(a.sec + offset, g) && !Astray(b.sec + offset, g)
    requires BeforeZero(a.sec + offset) <==> BeforeZero(b.sec + offset)
    ensures CalendarBounds(a, g, offset) == CalendarBounds(b, g, offset) <==>
      SameUnit(a.sec + offset, b.sec + offset, g)
  {
    hide CalendarBounds, NaturalStart, NaturalNext, SameUnit, Unrolled;
    BoundsAreExact(a, g, offset);
    BoundsAreExact(b, g, offset);
    NaturalUnit(a.sec + offset, b.sec + offset, g);
    assert Lead(a.sec + offset) == Lead(b.sec + offset);
    if NaturalStart(Unrolled(a.sec + offset), g) == NaturalStart(Unrolled(b.sec + offset), g) {
      SameStartSameEnd(Unrolled(a.sec + offset), Unrolled(b.sec + offset), g);
    }
  }
}
