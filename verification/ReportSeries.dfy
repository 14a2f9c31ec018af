/** The walk that cuts a requested interval into clipped calendar buckets. */
module ReportSeries {
  import opened Prelude
  import opened CivilCalendar
  import opened GoTime
  import opened ReportCount
  import opened ReportTiling

  const MAX_BUCKETS := 400

  /** `timestamp` labels the natural start; `since` and `until` are clipped to the request. */
  datatype Bucket = Bucket(timestamp: int, offset: int, since: Time, until: Time)

  datatype Series = Buckets(buckets: seq<Bucket>) | BoundsError | BudgetError

  function Later(a: Time, b: Time): Time {
    if Before(b, a) then a else b
  }

  function Earlier(a: Time, b: Time): Time {
    if Before(a, b) then a else b
  }

  function Clip(from: Time, next: Time, start: Time, end: Time, offset: int): Bucket {
    Bucket(Unix(from), offset, Later(from, start), Earlier(next, end))
  }

  function Prepend(done: seq<Bucket>, rest: Series): Series {
    if rest.Buckets? then Buckets(done + rest.buckets) else rest
  }

  lemma PrependStep(done: seq<Bucket>, b: Bucket, rest: Series)
    ensures Prepend(done, Prepend([b], rest)) == Prepend(done + [b], rest)
  {
    if rest.Buckets? {
      assert done + ([b] + rest.buckets) == (done + [b]) + rest.buckets;
    }
  }

  lemma PrependEnds(done: seq<Bucket>, rest: Series)
    ensures Prepend([], rest) == rest && Prepend(done, Buckets([])) == Buckets(done)
    ensures Prepend(done, BoundsError) == BoundsError && Prepend(done, BudgetError) == BudgetError
  {
  }

  /** The walk from one natural start on, with a remaining budget of buckets. */
  function Walk(from: Time, start: Time, end: Time, g: Grouping, offset: int, budget: nat): Series
    decreases budget
  {
    if !Before(from, end) then Buckets([])
    else if budget == 0 then BudgetError
    else
      var bounds := CalendarBounds(from, g, offset);
      if bounds.None? then BoundsError
      else
        Prepend([Clip(from, bounds.value.1, start, end, offset)],
                Walk(bounds.value.1, start, end, g, offset, budget - 1))
  }

  function SeriesOf(start: Time, end: Time, g: Grouping, offset: int): Series {
    if !OffsetInstantValid(start, offset) || !OffsetInstantValid(end, offset) then BoundsError
    else if !Before(start, end) then Buckets([])
    else
      var first := CalendarBounds(start, g, offset);
      if first.None? then BoundsError
      else Walk(first.value.0, start, end, g, offset, MAX_BUCKETS)
  }

  method CountSeriesBuckets(start: Time, end: Time, g: Grouping, offset: int) returns (r: Series)
    ensures r == SeriesOf(start, end, g, offset)
  {
    hide CalendarBounds, OffsetInstantValid, Clip, Prepend, Before;
    if !OffsetInstantValid(start, offset) || !OffsetInstantValid(end, offset) {
      return BoundsError;
    }
    if !Before(start, end) {
      return Buckets([]);
    }
    var first := CalendarBounds(start, g, offset);
    if first.None? {
      return BoundsError;
    }
    var bucketStart := first.value.0;
    var buckets: seq<Bucket> := [];
    ghost var answer := SeriesOf(start, end, g, offset);
    PrependEnds(buckets, answer);
    while Before(bucketStart, end)
      invariant |buckets| <= MAX_BUCKETS
      invariant Prepend(buckets, Walk(bucketStart, start, end, g, offset, MAX_BUCKETS - |buckets|)) == answer
      decreases MAX_BUCKETS - |buckets|
    {
      PrependEnds(buckets, answer);
      if |buckets| == MAX_BUCKETS {
        return BudgetError;
      }
      var bounds := CalendarBounds(bucketStart, g, offset);
      if bounds.None? {
        return BoundsError;
      }
      var next := bounds.value.1;
      var bucket := Clip(bucketStart, next, start, end, offset);
      PrependStep(buckets, bucket, Walk(next, start, end, g, offset, MAX_BUCKETS - |buckets| - 1));
      buckets := buckets + [bucket];
      bucketStart := next;
    }
    PrependEnds(buckets, answer);
    return Buckets(buckets);
  }

  // ---------- the clipped buckets partition the request ----------

  /** Nonempty adjoining intervals from lo to hi. */
  predicate Partition(bs: seq<Bucket>, lo: Time, hi: Time) {
    if bs == [] then lo == hi
    else bs[0].since == lo && Before(lo, bs[0].until) && Partition(bs[1..], bs[0].until, hi)
  }

  /** From a time whose bucket reaches past `start`, the walk covers up to `end` exactly. */
  lemma {:induction false} WalkPartitions(from: Time, start: Time, end: Time, g: Grouping, offset: int, budget: nat)
    requires IsTime(from) && Before(start, end)
    requires CalendarBounds(from, g, offset).Some? ==> Before(start, CalendarBounds(from, g, offset).value.1)
    requires Walk(from, start, end, g, offset, budget).Buckets?
    ensures |Walk(from, start, end, g, offset, budget).buckets| <= budget
    ensures Before(from, end) ==>
      Partition(Walk(from, start, end, g, offset, budget).buckets, Later(from, start), end)
    decreases budget
  {
    hide CalendarBounds;
    if Before(from, end) {
      var next := CalendarBounds(from, g, offset).value.1;
      BucketContains(from, g, offset);
      if CalendarBounds(next, g, offset).Some? {
        BucketContains(next, g, offset);
      }
      WalkPartitions(next, start, end, g, offset, budget - 1);
      var rest := Walk(next, start, end, g, offset, budget - 1).buckets;
      var bs := Walk(from, start, end, g, offset, budget).buckets;
      assert bs[1..] == rest;
    }
  }

  /** Off the first year the bucket of a bucket's start is that bucket. */
  lemma StartHasSameBucket(at: Time, g: Grouping, offset: int)
    requires IsTime(at) && CalendarBounds(at, g, offset).Some? && !InFirstYear(at.sec + offset, g)
    ensures CalendarBounds(CalendarBounds(at, g, offset).value.0, g, offset) == CalendarBounds(at, g, offset)
  {
    hide CalendarBounds, LocalStart, LocalEnd;
    var s := CalendarBounds(at, g, offset).value.0;
    BucketContains(at, g, offset);
    BoundsAreExact(at, g, offset);
    if !BeforeZero(at.sec + offset) {
      StartSide(at.sec + offset, g);
    }
    SameSideSameBucket(at, s, g, offset);
  }

  /** The year bucket at the first year's wrapped start ends where the seam begins. */
  lemma YearBeforeFirst(s: Time, offset: int)
    requires s == Time(FIRST_YEAR_START - offset, 0) && IsTime(s) && CalendarBounds(s, Year, offset).Some?
    ensures CalendarBounds(s, Year, offset).value.1 == Time(SeamStart(Year) - offset, 0)
  {
    hide CalendarBounds, FromDays;
    BoundsAreExact(s, Year, offset);
    var n := 106751991980303;
    Quotient(SECONDS_PER_DAY, n, 35584, Unrolled(FIRST_YEAR_START));
    assert YearStart(292277026853) <= n < YearStart(292277026854) == n + 54;
    YearOf(n, 292277026853);
  }

  /**
   A successful series that starts in the first year begins with a piece that runs backwards;
   from the second piece on it partitions the request.
   */
  lemma FirstYearSeries(start: Time, end: Time, offset: int)
    requires IsTime(start) && IsTime(end) && Before(start, end) && SeriesOf(start, end, Year, offset).Buckets?
    requires InFirstYear(start.sec + offset, Year)
    ensures var bs := SeriesOf(start, end, Year, offset).buckets;
      && 0 < |bs| <= MAX_BUCKETS
      && bs[0].since == start && bs[0].until == Time(SeamStart(Year) - offset, 0)
      && Before(bs[0].until, start)
      && Partition(bs[1..], start, end)
      && |bs| > 1 && bs[1].timestamp == Unix(Time(SeamStart(Year) - offset, 0))
    ensures CalendarBounds(start, Year, offset).Some?
    ensures CalendarBounds(start, Year, offset).value.0 == Time(FIRST_YEAR_START - offset, 0)
  {
    hide CalendarBounds, OffsetInstantValid, NaturalStart, NaturalNext, Partition;
    BoundsAreExact(start, Year, offset);
    BucketContains(start, Year, offset);
    var s := CalendarBounds(start, Year, offset).value.0;
    YearBeforeFirst(s, offset);
    var seam := CalendarBounds(s, Year, offset).value.1;
    SeamBucket(SeamStart(Year), Year);
    BoundsAreExact(seam, Year, offset);
    WalkPartitions(seam, start, end, Year, offset, MAX_BUCKETS - 1);
    var bs := SeriesOf(start, end, Year, offset).buckets;
    assert bs[1..] == Walk(seam, start, end, Year, offset, MAX_BUCKETS - 1).buckets;
    assert bs[1] == bs[1..][0];
  }

  /** One second of the first year, asked for by years: a backwards piece, then the second itself. */
  lemma BackwardsSeries()
    ensures var start, end := Time(ABSOLUTE_ZERO, 0), Time(ABSOLUTE_ZERO + 1, 0);
      SeriesOf(start, end, Year, 0) == Buckets([
        Bucket(Unix(Time(FIRST_YEAR_START, 0)), 0, start, Time(SeamStart(Year), 0)),
        Bucket(Unix(Time(SeamStart(Year), 0)), 0, start, end)])
  {
    hide CalendarBounds, Shift, NaturalStart, NaturalNext;
    var start, end := Time(ABSOLUTE_ZERO, 0), Time(ABSOLUTE_ZERO + 1, 0);
    var s, seam := Time(FIRST_YEAR_START, 0), Time(SeamStart(Year), 0);
    ShiftBySeconds(start, 0);
    ShiftBySeconds(end, 0);
    BoundsAreExact(start, Year, 0);
    BoundsAreExact(s, Year, 0);
    LocalContains(FIRST_YEAR_START, Year);
    SeamBucket(FIRST_YEAR_START, Year);
    YearBeforeFirst(s, 0);
    SeamBucket(SeamStart(Year), Year);
    BoundsAreExact(seam, Year, 0);
    TwoSteps(s, seam, start, end, MAX_BUCKETS);
  }

  lemma TwoSteps(s: Time, seam: Time, start: Time, end: Time, budget: nat)
    requires budget >= 2 && Before(s, end) && Before(seam, end)
    requires CalendarBounds(s, Year, 0).Some? && CalendarBounds(s, Year, 0).value.1 == seam
    requires CalendarBounds(seam, Year, 0).Some? && !Before(CalendarBounds(seam, Year, 0).value.1, end)
    ensures Walk(s, start, end, Year, 0, budget)
         == Buckets([Clip(s, seam, start, end, 0), Clip(seam, CalendarBounds(seam, Year, 0).value.1, start, end, 0)])
  {
    hide CalendarBounds, Clip;
    var next := CalendarBounds(seam, Year, 0).value.1;
    assert Walk(next, start, end, Year, 0, budget - 2) == Buckets([]);
    assert Walk(seam, start, end, Year, 0, budget - 1) == Buckets([Clip(seam, next, start, end, 0)]);
  }

  /**
   A successful series has at most 400 pieces. They cut the requested interval without gap or overlap
   if and only if it is no series of years that starts in the year in which absolute time begins.
   */
  lemma SeriesPartitions(start: Time, end: Time, g: Grouping, offset: int)
    requires IsTime(start) && IsTime(end) && Before(start, end) && SeriesOf(start, end, g, offset).Buckets?
    ensures |SeriesOf(start, end, g, offset).buckets| <= 400
    ensures Partition(SeriesOf(start, end, g, offset).buckets, start, end) <==> !InFirstYear(start.sec + offset, g)
  {
    hide CalendarBounds, OffsetInstantValid;
    if InFirstYear(start.sec + offset, g) {
      FirstYearSeries(start, end, offset);
    } else {
      BucketContains(start, g, offset);
      StartHasSameBucket(start, g, offset);
      WalkPartitions(CalendarBounds(start, g, offset).value.0, start, end, g, offset, MAX_BUCKETS);
    }
  }

  // ---------- counting ----------

  function CountIn(xs: seq<Time>, lo: Time, hi: Time): nat {
    if xs == [] then 0 else (if Inside(xs[0], lo, hi) then 1 else 0) + CountIn(xs[1..], lo, hi)
  }

  function CountAll(xs: seq<Time>, bs: seq<Bucket>): nat {
    if bs == [] then 0 else CountIn(xs, bs[0].since, bs[0].until) + CountAll(xs, bs[1..])
  }

  lemma {:induction false} CountSplits(xs: seq<Time>, lo: Time, mid: Time, hi: Time)
    requires !Before(mid, lo) && !Before(hi, mid)
    ensures CountIn(xs, lo, hi) == CountIn(xs, lo, mid) + CountIn(xs, mid, hi)
  {
    if xs != [] {
      CountSplits(xs[1..], lo, mid, hi);
    }
  }

  lemma {:induction false} PartitionCounts(xs: seq<Time>, bs: seq<Bucket>, lo: Time, hi: Time)
    requires Partition(bs, lo, hi)
    ensures !Before(hi, lo)
    ensures CountAll(xs, bs) == CountIn(xs, lo, hi)
  {
    if bs == [] {
      CountNone(xs, lo, lo);
    } else {
      PartitionCounts(xs, bs[1..], bs[0].until, hi);
      CountSplits(xs, lo, bs[0].until, hi);
    }
  }

  lemma {:induction false} CountNone(xs: seq<Time>, lo: Time, hi: Time)
    requires !Before(lo, hi)
    ensures CountIn(xs, lo, hi) == 0
  {
    if xs != [] {
      CountNone(xs[1..], lo, hi);
    }
  }

  /** Every record of the requested interval is counted exactly once over the whole series, wherever it starts. */
  lemma EveryRecordCountedOnce(xs: seq<Time>, start: Time, end: Time, g: Grouping, offset: int)
    requires IsTime(start) && IsTime(end) && Before(start, end) && SeriesOf(start, end, g, offset).Buckets?
    ensures CountAll(xs, SeriesOf(start, end, g, offset).buckets) == CountIn(xs, start, end)
  {
    hide SeriesOf, Partition;
    var bs := SeriesOf(start, end, g, offset).buckets;
    if InFirstYear(start.sec + offset, g) {
      FirstYearSeries(start, end, offset);
      CountNone(xs, bs[0].since, bs[0].until);
      PartitionCounts(xs, bs[1..], start, end);
    } else {
      SeriesPartitions(start, end, g, offset);
      PartitionCounts(xs, bs, start, end);
    }
  }

  // ---------- labels ----------

  /** Where the walk stands before its i-th further piece. */
  function StartOf(from: Time, g: Grouping, offset: int, i: nat): Time
    decreases i
  {
    if i == 0 || CalendarBounds(from, g, offset).None? then from
    else StartOf(CalendarBounds(from, g, offset).value.1, g, offset, i - 1)
  }

  /** Where the walk stands has a bucket, for the first n pieces. */
  ghost predicate BoundsUpTo(from: Time, g: Grouping, offset: int, n: nat) {
    forall i: nat | i < n :: CalendarBounds(StartOf(from, g, offset, i), g, offset).Some?
  }

  lemma {:induction false} StartsIncrease(from: Time, g: Grouping, offset: int, i: nat)
    requires IsTime(from)
    ensures !Before(StartOf(from, g, offset, i), from)
    decreases i
  {
    hide CalendarBounds;
    if i > 0 && CalendarBounds(from, g, offset).Some? {
      BucketContains(from, g, offset);
      StartsIncrease(CalendarBounds(from, g, offset).value.1, g, offset, i - 1);
    }
  }

  /** Having bounds up to a piece, seen from the first piece's end. */
  lemma BoundsUpToStep(from: Time, g: Grouping, offset: int, n: nat)
    requires CalendarBounds(from, g, offset).Some?
    ensures var next := CalendarBounds(from, g, offset).value.1;
      && (BoundsUpTo(from, g, offset, n + 1) <==> BoundsUpTo(next, g, offset, n))
      && StartOf(from, g, offset, n + 1) == StartOf(next, g, offset, n)
  {
    hide CalendarBounds;
    var next := CalendarBounds(from, g, offset).value.1;
    forall i: nat
      ensures StartOf(from, g, offset, i + 1) == StartOf(next, g, offset, i)
    {
    }
    if BoundsUpTo(next, g, offset, n) {
      forall i: nat | i < n + 1
        ensures CalendarBounds(StartOf(from, g, offset, i), g, offset).Some?
      {
        assert i > 0 ==> StartOf(from, g, offset, i) == StartOf(next, g, offset, i - 1);
      }
    }
  }

  /** The walk stands before `end`, after k pieces, in a place without a bucket. */
  ghost predicate StuckAt(from: Time, end: Time, g: Grouping, offset: int, k: nat) {
    && BoundsUpTo(from, g, offset, k)
    && Before(StartOf(from, g, offset, k), end)
    && CalendarBounds(StartOf(from, g, offset, k), g, offset).None?
  }

  lemma {:induction false} WalkErrors(from: Time, start: Time, end: Time, g: Grouping, offset: int, budget: nat)
    requires IsTime(from)
    ensures Walk(from, start, end, g, offset, budget).BudgetError? <==>
      BoundsUpTo(from, g, offset, budget) && Before(StartOf(from, g, offset, budget), end)
    ensures Walk(from, start, end, g, offset, budget).BoundsError? <==>
      exists k: nat :: k < budget && StuckAt(from, end, g, offset, k)
    decreases budget
  {
    hide CalendarBounds, BoundsUpTo, Clip;
    forall k: nat
      ensures !Before(StartOf(from, g, offset, k), from)
    {
      StartsIncrease(from, g, offset, k);
    }
    NoBounds(from, g, offset);
    if Before(from, end) && budget > 0 {
      if CalendarBounds(from, g, offset).None? {
        BlockedAtOnce(from, g, offset, budget);
        assert StuckAt(from, end, g, offset, 0);
      } else {
        var next := CalendarBounds(from, g, offset).value.1;
        BucketContains(from, g, offset);
        WalkErrors(next, start, end, g, offset, budget - 1);
        BoundsUpToStep(from, g, offset, budget - 1);
        StuckStep(from, end, g, offset, budget);
      }
    }
  }

  lemma NoBounds(from: Time, g: Grouping, offset: int)
    ensures BoundsUpTo(from, g, offset, 0) && StartOf(from, g, offset, 0) == from
  {
  }

  lemma BlockedAtOnce(from: Time, g: Grouping, offset: int, n: nat)
    requires CalendarBounds(from, g, offset).None? && n > 0
    ensures !BoundsUpTo(from, g, offset, n)
  {
    hide CalendarBounds;
    assert StartOf(from, g, offset, 0) == from;
  }

  lemma StuckStep(from: Time, end: Time, g: Grouping, offset: int, budget: nat)
    requires CalendarBounds(from, g, offset).Some? && budget > 0
    ensures var next := CalendarBounds(from, g, offset).value.1;
      (exists k: nat :: k < budget && StuckAt(from, end, g, offset, k)) <==>
      (exists k: nat :: k < budget - 1 && StuckAt(next, end, g, offset, k))
  {
    hide CalendarBounds, BoundsUpTo;
    var next := CalendarBounds(from, g, offset).value.1;
    if k: nat :| k < budget && StuckAt(from, end, g, offset, k) {
      assert k > 0;
      BoundsUpToStep(from, g, offset, k - 1);
      assert StuckAt(next, end, g, offset, k - 1);
    }
    if k: nat :| k < budget - 1 && StuckAt(next, end, g, offset, k) {
      BoundsUpToStep(from, g, offset, k);
      assert StuckAt(from, end, g, offset, k + 1);
    }
  }

  /** The request is shifted without overflow and not empty, and its first instant has a bucket. */
  predicate Walkable(start: Time, end: Time, g: Grouping, offset: int) {
    && OffsetInstantValid(start, offset) && OffsetInstantValid(end, offset)
    && Before(start, end) && CalendarBounds(start, g, offset).Some?
  }

  /**
   A series exceeds its budget if and only if 400 buckets in a row exist from the first one on and still
   end before the request does. It fails for its bounds if and only if an end of the request cannot be
   shifted, its first instant has no bucket, or fewer than 400 buckets lead to a place before its end
   that has none. In all other cases it succeeds.
   */
  lemma SeriesFailsExactly(start: Time, end: Time, g: Grouping, offset: int)
    requires IsTime(start) && IsTime(end)
    ensures SeriesOf(start, end, g, offset).BudgetError? <==>
      && Walkable(start, end, g, offset)
      && var s := CalendarBounds(start, g, offset).value.0;
      BoundsUpTo(s, g, offset, 400) && Before(StartOf(s, g, offset, 400), end)
    ensures SeriesOf(start, end, g, offset).BoundsError? <==>
      || !OffsetInstantValid(start, offset) || !OffsetInstantValid(end, offset)
      || (Before(start, end) && CalendarBounds(start, g, offset).None?)
      || (Walkable(start, end, g, offset) &&
          exists k: nat :: k < 400 && StuckAt(CalendarBounds(start, g, offset).value.0, end, g, offset, k))
  {
    hide CalendarBounds, OffsetInstantValid, Walk, StuckAt, BoundsUpTo, StartOf;
    if Walkable(start, end, g, offset) {
      BucketContains(start, g, offset);
      WalkErrors(CalendarBounds(start, g, offset).value.0, start, end, g, offset, MAX_BUCKETS);
    }
  }

  /** Each piece is a bucket clipped, labelled with the place where the walk stood. */
  lemma {:induction false} PieceIsClipped(from: Time, start: Time, end: Time, g: Grouping, offset: int,
                                          budget: nat, i: nat)
    requires IsTime(from)
    requires Walk(from, start, end, g, offset, budget).Buckets?
    requires i < |Walk(from, start, end, g, offset, budget).buckets|
    ensures var f := StartOf(from, g, offset, i);
      && IsTime(f) && Before(f, end) && CalendarBounds(f, g, offset).Some?
      && Walk(from, start, end, g, offset, budget).buckets[i]
         == Clip(f, CalendarBounds(f, g, offset).value.1, start, end, offset)
    decreases budget
  {
    hide CalendarBounds, Clip;
    var next := CalendarBounds(from, g, offset).value.1;
    BucketContains(from, g, offset);
    if i > 0 {
      PieceIsClipped(next, start, end, g, offset, budget - 1, i - 1);
    }
  }

  /** A time where a bucket starts, past the origin or in a series that ends by the absolute zero. */
  predicate Steady(from: Time, end: Time, g: Grouping, offset: int) {
    && IsTime(from)
    && (CalendarBounds(from, g, offset).Some? ==> CalendarBounds(from, g, offset).value.0 == from)
    && (from.sec + offset >= Origin(g) || EndsByZero(end, offset))
  }

  predicate EndsByZero(end: Time, offset: int) {
    !Before(Time(ABSOLUTE_ZERO - offset, 0), end)
  }

  lemma NextIsSteady(from: Time, end: Time, g: Grouping, offset: int)
    requires Steady(from, end, g, offset) && Before(from, end) && CalendarBounds(from, g, offset).Some?
    requires Before(CalendarBounds(from, g, offset).value.1, end)
    ensures Steady(CalendarBounds(from, g, offset).value.1, end, g, offset)
  {
    hide CalendarBounds, NaturalStart, NaturalNext;
    BucketContains(from, g, offset);
    BoundsAreExact(from, g, offset);
    BucketsAdjoin(from, g, offset);
    if Astray(from.sec + offset, g) {
      SeamBucket(from.sec + offset, g);
    }
  }

  lemma {:induction false} StaysSteady(from: Time, start: Time, end: Time, g: Grouping, offset: int,
                                       budget: nat, i: nat)
    requires Steady(from, end, g, offset)
    requires Walk(from, start, end, g, offset, budget).Buckets?
    requires i < |Walk(from, start, end, g, offset, budget).buckets|
    ensures Steady(StartOf(from, g, offset, i), end, g, offset)
    decreases budget
  {
    hide CalendarBounds, Steady;
    if i > 0 {
      NextIsSteady(from, end, g, offset);
      StaysSteady(CalendarBounds(from, g, offset).value.1, start, end, g, offset, budget - 1, i - 1);
    }
  }

  /** No hour, day or month bucket ends at the absolute zero, so the walk never stands there. */
  lemma {:induction false} StepsOverZero(from: Time, start: Time, end: Time, g: Grouping, offset: int,
                                         budget: nat, i: nat)
    requires IsTime(from) && from.nsec == 0 && from.sec + offset != ABSOLUTE_ZERO
    requires Walk(from, start, end, g, offset, budget).Buckets?
    requires i < |Walk(from, start, end, g, offset, budget).buckets|
    ensures StartOf(from, g, offset, i).sec + offset != ABSOLUTE_ZERO
    decreases budget
  {
    hide CalendarBounds, NaturalStart, NaturalNext;
    if i > 0 {
      BucketContains(from, g, offset);
      BoundsAreExact(from, g, offset);
      if BeforeZero(from.sec + offset) {
        SeamBucket(from.sec + offset, g);
      }
      StepsOverZero(CalendarBounds(from, g, offset).value.1, start, end, g, offset, budget - 1, i - 1);
    }
  }

  function Label(t: Time, g: Grouping, offset: int): Option<int> {
    if CalendarBounds(t, g, offset).None? then None else Some(Unix(CalendarBounds(t, g, offset).value.0))
  }

  /** Every instant in a piece has a bucket, and the piece carries that bucket's start as its label. */
  ghost predicate LabelsNatural(bs: seq<Bucket>, g: Grouping, offset: int) {
    forall i, t: Time | 0 <= i < |bs| && IsTime(t) && Inside(t, bs[i].since, bs[i].until) ::
      Label(t, g, offset) == Some(bs[i].timestamp)
  }

  lemma {:induction false} PieceWith(bs: seq<Bucket>, lo: Time, hi: Time, t: Time) returns (i: nat)
    requires Partition(bs, lo, hi) && Inside(t, lo, hi)
    ensures i < |bs| && Inside(t, bs[i].since, bs[i].until)
  {
    if Before(t, bs[0].until) {
      i := 0;
    } else {
      i := PieceWith(bs[1..], bs[0].until, hi, t);
      i := i + 1;
    }
  }

  lemma SteadyLabels(start: Time, end: Time, g: Grouping, offset: int)
    requires IsTime(start) && IsTime(end) && Before(start, end) && SeriesOf(start, end, g, offset).Buckets?
    requires start.sec + offset >= Origin(g) || EndsByZero(end, offset)
    ensures LabelsNatural(SeriesOf(start, end, g, offset).buckets, g, offset)
  {
    hide CalendarBounds, OffsetInstantValid, NaturalStart, NaturalNext;
    var bs := SeriesOf(start, end, g, offset).buckets;
    var s := CalendarBounds(start, g, offset).value.0;
    BucketContains(start, g, offset);
    StartHasSameBucket(start, g, offset);
    BoundsAreExact(start, g, offset);
    if start.sec + offset >= Origin(g) {
      StartSide(start.sec + offset, g);
    }
    assert Steady(s, end, g, offset);
    hide Steady, SeriesOf;
    forall i, t: Time | 0 <= i < |bs| && IsTime(t) && Inside(t, bs[i].since, bs[i].until)
      ensures Label(t, g, offset) == Some(bs[i].timestamp)
    {
      SteadyLabel(s, start, end, g, offset, i, t);
    }
  }

  lemma SteadyLabel(s: Time, start: Time, end: Time, g: Grouping, offset: int, i: nat, t: Time)
    requires Steady(s, end, g, offset) && Walk(s, start, end, g, offset, MAX_BUCKETS).Buckets? && IsTime(t)
    requires i < |Walk(s, start, end, g, offset, MAX_BUCKETS).buckets|
    requires var b := Walk(s, start, end, g, offset, MAX_BUCKETS).buckets[i]; Inside(t, b.since, b.until)
    ensures Label(t, g, offset) == Some(Walk(s, start, end, g, offset, MAX_BUCKETS).buckets[i].timestamp)
  {
    hide CalendarBounds, Walk, StartOf;
    PieceIsClipped(s, start, end, g, offset, MAX_BUCKETS, i);
    StaysSteady(s, start, end, g, offset, MAX_BUCKETS, i);
    SameSideSameBucket(StartOf(s, g, offset, i), t, g, offset);
  }

  /** Starts of reported buckets have distinct labels. */
  lemma LabelsDistinct(a: Time, b: Time)
    requires Exact(a.sec) && Exact(b.sec) && Unix(a) == Unix(b)
    ensures a.sec == b.sec
  {
  }

  lemma ZeroMislabelled(start: Time, end: Time, g: Grouping, offset: int)
    requires IsTime(start) && IsTime(end) && Before(start, end) && SeriesOf(start, end, g, offset).Buckets?
    requires BeforeZero(start.sec + offset) && !EndsByZero(end, offset)
    ensures !LabelsNatural(SeriesOf(start, end, g, offset).buckets, g, offset)
  {
    hide CalendarBounds, OffsetInstantValid, NaturalStart, NaturalNext, Partition, Walk;
    var bs := SeriesOf(start, end, g, offset).buckets;
    var t := Time(ABSOLUTE_ZERO - offset, 0);
    SeriesPartitions(start, end, g, offset);
    var i := PieceWith(bs, start, end, t);
    var s := CalendarBounds(start, g, offset).value.0;
    BucketContains(start, g, offset);
    PieceIsClipped(s, start, end, g, offset, MAX_BUCKETS, i);
    StepsOverZero(s, start, end, g, offset, MAX_BUCKETS, i);
    var f := StartOf(s, g, offset, i);
    BoundsAreExact(f, g, offset);
    BoundsAreExact(t, g, offset);
    OriginIsNatural(g);
    if Label(t, g, offset) == Some(bs[i].timestamp) {
      LabelsDistinct(f, CalendarBounds(t, g, offset).value.0);
      assert g.Year? && f.sec + offset == FIRST_YEAR_START;
      SeamlessYear(f, offset);
    }
  }

  /** No bucket reaches from the first year's wrapped start to the absolute zero. */
  lemma SeamlessYear(f: Time, offset: int)
    requires IsTime(f) && f.sec + offset == FIRST_YEAR_START && CalendarBounds(f, Year, offset).Some?
    ensures Before(CalendarBounds(f, Year, offset).value.1, Time(ABSOLUTE_ZERO - offset, 0))
  {
    hide CalendarBounds, NaturalStart, NaturalNext;
    BoundsAreExact(f, Year, offset);
    SeamBucket(FIRST_YEAR_START, Year);
  }

  /**
   The labels of a successful series are those of the instants' own buckets if and only if the series
   starts past the origin of its grouping or ends by the absolute zero.
   */
  lemma LabelsAreNatural(start: Time, end: Time, g: Grouping, offset: int)
    requires IsTime(start) && IsTime(end) && Before(start, end) && SeriesOf(start, end, g, offset).Buckets?
    ensures LabelsNatural(SeriesOf(start, end, g, offset).buckets, g, offset)
       <==> start.sec + offset >= Origin(g) || EndsByZero(end, offset)
  {
    hide CalendarBounds, OffsetInstantValid, Walk, LabelsNatural, Partition;
    if start.sec + offset >= Origin(g) || EndsByZero(end, offset) {
      SteadyLabels(start, end, g, offset);
    } else if BeforeZero(start.sec + offset) {
      ZeroMislabelled(start, end, g, offset);
    } else {
      FirstYearMislabelled(start, end, offset);
    }
  }

  lemma FirstYearMislabelled(start: Time, end: Time, offset: int)
    requires IsTime(start) && IsTime(end) && Before(start, end) && SeriesOf(start, end, Year, offset).Buckets?
    requires InFirstYear(start.sec + offset, Year)
    ensures !LabelsNatural(SeriesOf(start, end, Year, offset).buckets, Year, offset)
  {
    hide CalendarBounds, SeriesOf;
    FirstYearSeries(start, end, offset);
    BoundsAreExact(start, Year, offset);
    var bs := SeriesOf(start, end, Year, offset).buckets;
    assert bs[1..][0] == bs[1];
    assert Inside(start, bs[1].since, bs[1].until);
    assert Exact(FIRST_YEAR_START - offset);
  }

  /** Every piece lies inside the request or runs backwards, and is marked with the offset it was made for. */
  lemma PiecesCarryTheirOffset(from: Time, start: Time, end: Time, g: Grouping, offset: int,
                               budget: nat, i: nat)
    requires IsTime(from)
    requires Walk(from, start, end, g, offset, budget).Buckets?
    requires i < |Walk(from, start, end, g, offset, budget).buckets|
    ensures var b := Walk(from, start, end, g, offset, budget).buckets[i];
      b.offset == offset && !Before(b.since, start) && !Before(end, b.until)
  {
    hide CalendarBounds, Walk;
    PieceIsClipped(from, start, end, g, offset, budget, i);
  }

  /** All pieces of a series are marked with its offset and keep to its interval, and there are at most 400. */
  lemma SeriesKeepsToItsRequest(start: Time, end: Time, g: Grouping, offset: int)
    requires IsTime(start) && IsTime(end) && SeriesOf(start, end, g, offset).Buckets?
    ensures |SeriesOf(start, end, g, offset).buckets| <= 400
    ensures forall b | b in SeriesOf(start, end, g, offset).buckets ::
      b.offset == offset && !Before(b.since, start) && !Before(end, b.until)
    ensures !Before(start, end) <==> SeriesOf(start, end, g, offset).buckets == []
  {
    hide CalendarBounds, OffsetInstantValid, Walk;
    if Before(start, end) {
      SeriesPartitions(start, end, g, offset);
      BucketContains(start, g, offset);
      var s := CalendarBounds(start, g, offset).value.0;
      var bs := SeriesOf(start, end, g, offset).buckets;
      forall i | 0 <= i < |bs|
        ensures bs[i].offset == offset && !Before(bs[i].since, start) && !Before(end, bs[i].until)
      {
        PiecesCarryTheirOffset(s, start, end, g, offset, MAX_BUCKETS, i);
      }
      if InFirstYear(start.sec + offset, g) {
        FirstYearSeries(start, end, offset);
      }
    }
  }
}
