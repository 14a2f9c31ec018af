/**
 Google's signing keys, shared by concurrent callers: one refresh at a time, an expiry no
 later than any certificate's, and a back-off after an outage. Times are nanoseconds on one
 clock that never runs backwards; 0 is Go's zero time, which lies before every reading.
 */
module GoogleKeys {
  import opened Prelude

  const SECOND := 1_000_000_000
  const BACK_OFF := 5 * SECOND
  const KEY_LIFETIME := 300 * SECOND
  const MIN_RSA_BITS := 2048

  type Key = int
  type Channel = nat

  /** One entry of the certificate response, as far as parsing gets. */
  datatype Certificate =
    | Unreadable
    | Certificate(notBefore: int, notAfter: int, rsaBits: Option<nat>, key: Key)

  /** The outcome of one complete successful fetch, with its first and last readings of the clock. */
  datatype Fetch = Fetch(certs: map<string, Certificate>, keys: map<string, Key>, expires: int, start: int, finish: int)

  // ---------- fetching ----------

  /** The certificate is valid at both clock readings and carries a strong RSA key. */
  predicate Usable(c: Certificate, first: int, second: int) {
    && c.Certificate?
    && c.notBefore <= first && second < c.notAfter
    && c.rsaBits.Some? && c.rsaBits.value >= MIN_RSA_BITS
  }

  /** Each key of m occurs in `order` exactly once. */
  ghost predicate Enumerates<V>(order: seq<string>, m: map<string, V>) {
    && (forall i, j | 0 <= i < j < |order| :: order[i] != order[j])
    && (forall id :: id in order <==> id in m)
  }

  /** Keys of the certificates `ids`, begun by `finish`, kept until the earliest of them ends, five minutes at most. */
  ghost predicate Gathered(certs: map<string, Certificate>, ids: set<string>, f: Fetch) {
    && f.keys.Keys == ids <= certs.Keys
    && (forall id | id in ids :: Covers(certs[id], id, f))
    && f.start <= f.finish
    && f.expires <= f.start + KEY_LIFETIME
    && (f.expires == f.start + KEY_LIFETIME || exists id :: id in ids && f.expires == certs[id].notAfter)
  }

  /** The fetch holds the certificate's key, and lies and expires within its validity. */
  predicate Covers(c: Certificate, id: string, f: Fetch) {
    && c.Certificate? && id in f.keys && f.keys[id] == c.key
    && c.notBefore <= f.finish && f.expires <= c.notAfter
  }

  ghost predicate CompleteFetch(f: Fetch) {
    f.certs != map[] && Gathered(f.certs, f.certs.Keys, f)
  }

  /** The fetch with one more certificate, read by `now`. */
  function With(f: Fetch, id: string, c: Certificate, now: int): Fetch
    requires c.Certificate?
  {
    Fetch(f.certs, f.keys[id := c.key], if c.notAfter < f.expires then c.notAfter else f.expires, f.start, now)
  }

  lemma GatherOne(certs: map<string, Certificate>, ids: set<string>, f: Fetch, id: string, now: int)
    requires Gathered(certs, ids, f) && id in certs && certs[id].Certificate?
    requires f.finish <= now && certs[id].notBefore <= now
    ensures Gathered(certs, ids + {id}, With(f, id, certs[id], now))
  {
    var g := With(f, id, certs[id], now);
    forall x | x in ids + {id}
      ensures Covers(certs[x], x, g)
    {
      assert x in ids ==> Covers(certs[x], x, f);
    }
  }

  ghost predicate Monotone(clock: nat -> int) {
    forall m, n :: m <= n ==> clock(m) <= clock(n)
  }

  /** The i-th entry walked is usable at the two readings taken for it. */
  ghost predicate UsableAt(certs: map<string, Certificate>, order: seq<string>, clock: nat -> int, i: nat)
    requires i < |order| && order[i] in certs
  {
    Usable(certs[order[i]], clock(2 * i + 1), clock(2 * i + 2))
  }

  ghost predicate UsableUpTo(certs: map<string, Certificate>, order: seq<string>, clock: nat -> int, n: nat)
    requires n <= |order| && Enumerates(order, certs)
  {
    forall i: nat | i < n :: UsableAt(certs, order, clock, i)
  }

  /** Usable: begun by the first reading, not ended at the second, and a key of 2048 bits or more. */
  lemma UsableMeans(c: Certificate, first: int, second: int)
    ensures Usable(c, first, second) <==>
      c.Certificate? && !(first < c.notBefore) && second < c.notAfter && c.rsaBits.Some? && !(c.rsaBits.value < 2048)
  {
  }

  /**
   Parses a whole certificate response or nothing. `order` is the order in which the map is
   walked and clock(n) the n-th reading of the clock; None stands for a failed request.
   */
  method FetchKeys(response: Option<map<string, Certificate>>, order: seq<string>, clock: nat -> int)
    returns (result: Option<Fetch>)
    requires response.Some? ==> Enumerates(order, response.value)
    requires Monotone(clock)
    ensures result.Some? <==>
      response.Some? && response.value != map[] && UsableUpTo(response.value, order, clock, |order|)
    ensures result.Some? ==>
      && result.value.certs == response.value && CompleteFetch(result.value)
      && result.value.start == clock(0) && result.value.finish == clock(2 * |order|)
  {
    if response.None? {
      return None;
    }
    hide Gathered, UsableUpTo, Monotone, Enumerates;
    var certs := response.value;
    var keys: map<string, Key> := map[];
    var expires := clock(0) + KEY_LIFETIME;
    NothingGathered(certs, clock(0));
    for i := 0 to |order|
      invariant UsableUpTo(certs, order, clock, i)
      invariant Gathered(certs, Elements(order[..i]), Fetch(certs, keys, expires, clock(0), clock(2 * i)))
    {
      var id := order[i];
      var cert := certs[id];
      if cert.Unreadable?
         || clock(2 * i + 1) < cert.notBefore || !(clock(2 * i + 2) < cert.notAfter)
         || cert.rsaBits.None? || cert.rsaBits.value < MIN_RSA_BITS
      {
        UnusableEnds(certs, order, clock, i);
        return None;
      }
      GatherNext(certs, order, clock, i, Fetch(certs, keys, expires, clock(0), clock(2 * i)));
      keys := keys[id := cert.key];
      if cert.notAfter < expires {
        expires := cert.notAfter;
      }
    }
    var fetch := Fetch(certs, keys, expires, clock(0), clock(2 * |order|));
    AllGathered(certs, order, fetch);
    if |keys| == 0 {
      return None;
    }
    return Some(fetch);
  }

  lemma UnusableEnds(certs: map<string, Certificate>, order: seq<string>, clock: nat -> int, i: nat)
    requires Enumerates(order, certs) && i < |order| && !UsableAt(certs, order, clock, i)
    ensures !UsableUpTo(certs, order, clock, |order|)
  {
  }

  /** One more usable certificate is gathered. */
  lemma GatherNext(certs: map<string, Certificate>, order: seq<string>, clock: nat -> int, i: nat, f: Fetch)
    requires Enumerates(order, certs) && Monotone(clock) && i < |order|
    requires UsableUpTo(certs, order, clock, i) && UsableAt(certs, order, clock, i)
    requires Gathered(certs, Elements(order[..i]), f) && f.finish == clock(2 * i)
    ensures UsableUpTo(certs, order, clock, i + 1)
    ensures Gathered(certs, Elements(order[..i + 1]), With(f, order[i], certs[order[i]], clock(2 * (i + 1))))
  {
    hide Gathered;
    var id := order[i];
    assert clock(2 * i) <= clock(2 * i + 1) <= clock(2 * (i + 1));
    GatherOne(certs, Elements(order[..i]), f, id, clock(2 * (i + 1)));
    assert order[..i + 1] == order[..i] + [id];
    assert Elements(order[..i + 1]) == Elements(order[..i]) + {id};
  }

  ghost function Elements(order: seq<string>): set<string> {
    set id | id in order
  }

  lemma NothingGathered(certs: map<string, Certificate>, start: int)
    ensures Gathered(certs, Elements([]), Fetch(certs, map[], start + KEY_LIFETIME, start, start))
  {
    assert Elements([]) == {};
  }

  lemma AllGathered(certs: map<string, Certificate>, order: seq<string>, f: Fetch)
    requires Enumerates(order, certs) && Gathered(certs, Elements(order[..|order|]), f)
    ensures Gathered(certs, certs.Keys, f)
    ensures |f.keys| == 0 <==> certs == map[]
  {
    assert order[..|order|] == order;
    assert Elements(order) == certs.Keys;
    assert |f.keys| == |f.keys.Keys| && |certs| == |certs.Keys|;
  }

  // ---------- the two critical sections ----------

  datatype Fields = Fields(keys: map<string, Key>, expires: int, retryAfter: int, refreshing: Option<Channel>)

  datatype Outcome = Serve(key: Key) | Unknown | Unavailable | Wait(channel: Channel, started: bool)

  /** One pass of a caller through the lock, reading the clock up to twice. */
  function Look(f: Fields, kid: string, first: int, second: int, unused: Channel): (Fields, Outcome) {
    if first < f.expires then (f, if kid in f.keys then Serve(f.keys[kid]) else Unknown)
    else if second < f.retryAfter then (f, Unavailable)
    else if f.refreshing.None? then (f.(refreshing := Some(unused)), Wait(unused, true))
    else (f, Wait(f.refreshing.value, false))
  }

  /** The refresher's pass through the lock, before it closes its channel. */
  function Finish(f: Fields, result: Option<Fetch>, now: int): Fields {
    match result
    case None => f.(retryAfter := now + BACK_OFF, refreshing := None)
    case Some(fetch) => Fields(fetch.keys, fetch.expires, 0, None)
  }

  class GoogleVerifier {
    var keys: map<string, Key>
    var expires: int
    var retryAfter: int
    var refreshing: Option<Channel>

    function State(): Fields
      reads this
    {
      Fields(keys, expires, retryAfter, refreshing)
    }

    constructor ()
      ensures State() == Fields(map[], 0, 0, None)
    {
      keys, expires, retryAfter, refreshing := map[], 0, 0, None;
    }

    /** The locked part of a caller's loop; `unused` is the channel it would make. */
    method LookLocked(kid: string, first: int, second: int, unused: Channel) returns (outcome: Outcome)
      modifies this
      ensures (State(), outcome) == Look(old(State()), kid, first, second, unused)
    {
      if first < expires {
        if kid in keys {
          return Serve(keys[kid]);
        }
        return Unknown;
      }
      if second < retryAfter {
        return Unavailable;
      }
      var done := refreshing;
      var started := done.None?;
      if started {
        done := Some(unused);
        refreshing := done;
      }
      return Wait(done.value, started);
    }

    /** The locked part of a refresh; the channel to close is the refresher's own. */
    method FinishLocked(result: Option<Fetch>, now: int)
      modifies this
      ensures State() == Finish(old(State()), result, now)
    {
      if result.None? {
        retryAfter := now + BACK_OFF;
      } else {
        keys, expires := result.value.keys, result.value.expires;
        retryAfter := 0;
      }
      refreshing := None;
    }
  }

  // ---------- all interleavings ----------

  datatype Reply = Granted(key: Key) | InvalidToken | TemporarilyUnavailable | Cancelled

  datatype Caller = Entering(kid: string) | Waiting(kid: string, channel: Channel) | Done(kid: string, reply: Reply)

  datatype Refresher = Fetching(since: int) | Fetched(result: Option<Fetch>) | Ended

  datatype Event =
    | Started(at: int)
    | Failed(at: int)
    | Installed(at: int, fetch: Fetch)
    | Served(at: int, kid: string, key: Key)

  /** `closes` counts the close operations on each channel; a second one would panic. */
  datatype System = System(
    fields: Fields,
    now: int,
    callers: map<int, Caller>,
    refreshers: map<Channel, Refresher>,
    closes: multiset<Channel>,
    log: seq<Event>)

  datatype Step =
    | EnterStep(caller: int, kid: string)
    | CancelStep(caller: int)
    | LookStep(caller: int, first: int, second: int, unused: Channel)
    | WakeStep(caller: int)
    | FetchStep(channel: Channel, result: Option<Fetch>, at: int)
    | FinishStep(channel: Channel, at: int)

  ghost predicate Enabled(s: System, step: Step) {
    match step
    case EnterStep(c, _) => c !in s.callers
    case CancelStep(c) => c in s.callers && !s.callers[c].Done?
    case LookStep(c, first, second, unused) =>
      c in s.callers && s.callers[c].Entering? && s.now <= first <= second && unused !in s.refreshers
    case WakeStep(c) => c in s.callers && s.callers[c].Waiting? && s.closes[s.callers[c].channel] > 0
    case FetchStep(ch, result, at) =>
      && ch in s.refreshers && s.refreshers[ch].Fetching? && s.now <= at
      && (result.Some? ==>
          CompleteFetch(result.value) && s.refreshers[ch].since <= result.value.start && result.value.finish <= at)
    case FinishStep(ch, at) => ch in s.refreshers && s.refreshers[ch].Fetched? && s.now <= at
  }

  function Answer(kid: string, outcome: Outcome): Caller {
    match outcome
    case Serve(key) => Done(kid, Granted(key))
    case Unknown => Done(kid, InvalidToken)
    case Unavailable => Done(kid, TemporarilyUnavailable)
    case Wait(ch, _) => Waiting(kid, ch)
  }

  function Logged(kid: string, outcome: Outcome, first: int, second: int): seq<Event> {
    match outcome
    case Serve(key) => [Served(first, kid, key)]
    case Wait(_, true) => [Started(second)]
    case _ => []
  }

  ghost function Apply(s: System, step: Step): System
    requires Enabled(s, step)
  {
    match step
    case EnterStep(c, kid) => s.(callers := s.callers[c := Entering(kid)])
    case CancelStep(c) => s.(callers := s.callers[c := Done(s.callers[c].kid, Cancelled)])
    case LookStep(c, first, second, unused) =>
      var kid := s.callers[c].kid;
      var (fields, outcome) := Look(s.fields, kid, first, second, unused);
      s.(fields := fields,
         now := second,
         callers := s.callers[c := Answer(kid, outcome)],
         refreshers :=
           if outcome.Wait? && outcome.started then s.refreshers[unused := Fetching(second)] else s.refreshers,
         log := s.log + Logged(kid, outcome, first, second))
    case WakeStep(c) => s.(callers := s.callers[c := Entering(s.callers[c].kid)])
    case FetchStep(ch, result, at) => s.(now := at, refreshers := s.refreshers[ch := Fetched(result)])
    case FinishStep(ch, at) =>
      var result := s.refreshers[ch].result;
      s.(fields := Finish(s.fields, result, at),
         now := at,
         refreshers := s.refreshers[ch := Ended],
         closes := s.closes + multiset{ch},
         log := s.log + [if result.Some? then Installed(at, result.value) else Failed(at)])
  }

  const INITIAL := System(Fields(map[], 0, 0, None), 0, map[], map[], multiset{}, [])

  ghost predicate Runs(s: System, steps: seq<Step>)
    decreases |steps|
  {
    steps == [] || (Enabled(s, steps[0]) && Runs(Apply(s, steps[0]), steps[1..]))
  }

  ghost function After(s: System, steps: seq<Step>): System
    requires Runs(s, steps)
    decreases |steps|
  {
    if steps == [] then s else After(Apply(s, steps[0]), steps[1..])
  }

  // ---------- single flight ----------

  /** `refreshing` names the one unfinished refresher, and exactly the finished ones closed, once. */
  ghost predicate SingleFlight(s: System) {
    && (s.fields.refreshing.Some? ==> s.fields.refreshing.value in s.refreshers)
    && (forall ch | ch in s.refreshers :: !s.refreshers[ch].Ended? <==> s.fields.refreshing == Some(ch))
    && (forall ch :: s.closes[ch] == if ch in s.refreshers && s.refreshers[ch].Ended? then 1 else 0)
  }

  /** No wake-up is lost: a waiter's channel is closed already or belongs to the current refresh. */
  ghost predicate NoLostWakeup(s: System) {
    forall c | c in s.callers && s.callers[c].Waiting? ::
      var ch := s.callers[c].channel;
      s.closes[ch] == 1 || s.fields.refreshing == Some(ch)
  }

  ghost predicate FetchedAreComplete(s: System) {
    forall ch | ch in s.refreshers && s.refreshers[ch].Fetched? && s.refreshers[ch].result.Some? ::
      CompleteFetch(s.refreshers[ch].result.value) && s.refreshers[ch].result.value.finish <= s.now
  }

  // ---------- what the log shows ----------

  /** The stored keys are those of one logged installation, whole; before any, there are none. */
  ghost predicate KeysFromLog(log: seq<Event>, keys: map<string, Key>, expires: int) {
    || (keys == map[] && expires == 0)
    || exists i :: 0 <= i < |log| && log[i].Installed? && log[i].fetch.keys == keys && log[i].fetch.expires == expires
  }

  ghost predicate InstalledAreComplete(log: seq<Event>) {
    forall i | 0 <= i < |log| && log[i].Installed? :: CompleteFetch(log[i].fetch) && log[i].fetch.finish <= log[i].at
  }

  /** Events are logged in the order of their clock readings. */
  ghost predicate LogOrdered(s: System) {
    && (forall i | 0 <= i < |s.log| :: s.log[i].at <= s.now)
    && (forall i, j | 0 <= i < j < |s.log| :: s.log[i].at <= s.log[j].at)
  }

  /** A served key belongs to one earlier installation that had not yet expired. */
  ghost predicate ServedFromFetch(log: seq<Event>, j: int)
    requires 0 <= j < |log| && log[j].Served?
  {
    exists i :: 0 <= i < j && log[i].Installed?
      && log[j].kid in log[i].fetch.keys && log[i].fetch.keys[log[j].kid] == log[j].key
      && log[j].at < log[i].fetch.expires
  }

  ghost predicate ServesAreFresh(log: seq<Event>) {
    forall j | 0 <= j < |log| && log[j].Served? :: ServedFromFetch(log, j)
  }

  /** Instant before which an event forbids a later refresh to start. */
  function Holds(e: Event): int {
    match e
    case Failed(at) => at + BACK_OFF
    case Installed(_, fetch) => fetch.expires
    case _ => 0
  }

  /** No refresh starts while earlier keys are fresh, or within the back-off after a failure. */
  ghost predicate StartsAreHeld(log: seq<Event>) {
    forall i, j | 0 <= i < j < |log| && log[j].Started? :: Holds(log[i]) <= log[j].at
  }

  /** Each logged hold has passed already, or is still in force in the fields of an idle system. */
  ghost predicate HoldsInForce(s: System) {
    && s.now >= 0
    && forall i | 0 <= i < |s.log| ::
         || Holds(s.log[i]) <= s.now
         || (s.fields.refreshing.None?
             && (Holds(s.log[i]) <= s.fields.expires || Holds(s.log[i]) <= s.fields.retryAfter))
  }

  ghost predicate Invariant(s: System) {
    && SingleFlight(s) && NoLostWakeup(s) && FetchedAreComplete(s)
    && KeysFromLog(s.log, s.fields.keys, s.fields.expires) && InstalledAreComplete(s.log)
    && LogOrdered(s) && ServesAreFresh(s.log) && StartsAreHeld(s.log) && HoldsInForce(s)
  }

  lemma StepKeepsSingleFlight(s: System, step: Step)
    requires SingleFlight(s) && NoLostWakeup(s) && Enabled(s, step)
    ensures SingleFlight(Apply(s, step)) && NoLostWakeup(Apply(s, step))
  {
  }

  lemma StepKeepsFetches(s: System, step: Step)
    requires FetchedAreComplete(s) && Enabled(s, step)
    ensures FetchedAreComplete(Apply(s, step))
  {
  }

  /** What a step adds to the log: at most one event. */
  ghost function Added(s: System, step: Step): (events: seq<Event>)
    requires Enabled(s, step)
    ensures |events| <= 1 && Apply(s, step).log == s.log + events
  {
    match step
    case LookStep(c, first, second, unused) =>
      Logged(s.callers[c].kid, Look(s.fields, s.callers[c].kid, first, second, unused).1, first, second)
    case FinishStep(ch, at) =>
      var result := s.refreshers[ch].result;
      [if result.Some? then Installed(at, result.value) else Failed(at)]
    case _ => []
  }

  lemma StepKeepsHolds(s: System, step: Step)
    requires SingleFlight(s) && HoldsInForce(s) && StartsAreHeld(s.log) && Enabled(s, step)
    ensures HoldsInForce(Apply(s, step)) && StartsAreHeld(Apply(s, step).log)
  {
    var events := Added(s, step);
  }

  /** A finished fetch replaces the keys, and is logged. */
  lemma InstallKeepsKeys(s: System, step: Step)
    requires FetchedAreComplete(s) && InstalledAreComplete(s.log) && Enabled(s, step)
    requires step.FinishStep? && s.refreshers[step.channel].result.Some?
    ensures var t := Apply(s, step);
      KeysFromLog(t.log, t.fields.keys, t.fields.expires) && InstalledAreComplete(t.log)
  {
    hide CompleteFetch;
    var t := Apply(s, step);
    var n := |s.log|;
    assert t.log[n] == Installed(step.at, s.refreshers[step.channel].result.value);
    assert forall i | 0 <= i < n :: t.log[i] == s.log[i];
  }

  /** Every other step leaves the keys alone and logs no installation. */
  lemma OtherStepsKeepKeys(s: System, step: Step)
    requires KeysFromLog(s.log, s.fields.keys, s.fields.expires) && InstalledAreComplete(s.log) && Enabled(s, step)
    requires !(step.FinishStep? && s.refreshers[step.channel].result.Some?)
    ensures var t := Apply(s, step);
      KeysFromLog(t.log, t.fields.keys, t.fields.expires) && InstalledAreComplete(t.log)
  {
    hide CompleteFetch;
    var t := Apply(s, step);
    var n := |s.log|;
    assert forall i | 0 <= i < n :: t.log[i] == s.log[i];
    assert t.fields.keys == s.fields.keys && t.fields.expires == s.fields.expires;
    if !(s.fields.keys == map[] && s.fields.expires == 0) {
      var i :| 0 <= i < n && s.log[i].Installed?
        && s.log[i].fetch.keys == s.fields.keys && s.log[i].fetch.expires == s.fields.expires;
      assert t.log[i] == s.log[i];
    }
  }

  lemma StepKeepsKeys(s: System, step: Step)
    requires FetchedAreComplete(s) && Enabled(s, step)
    requires KeysFromLog(s.log, s.fields.keys, s.fields.expires) && InstalledAreComplete(s.log)
    ensures var t := Apply(s, step);
      KeysFromLog(t.log, t.fields.keys, t.fields.expires) && InstalledAreComplete(t.log)
  {
    if step.FinishStep? && s.refreshers[step.channel].result.Some? {
      InstallKeepsKeys(s, step);
    } else {
      OtherStepsKeepKeys(s, step);
    }
  }

  lemma StepKeepsOrder(s: System, step: Step)
    requires LogOrdered(s) && Enabled(s, step)
    ensures LogOrdered(Apply(s, step))
  {
    var events := Added(s, step);
  }

  lemma StepKeepsServes(s: System, step: Step)
    requires KeysFromLog(s.log, s.fields.keys, s.fields.expires) && ServesAreFresh(s.log) && Enabled(s, step)
    ensures ServesAreFresh(Apply(s, step).log)
  {
    var t := Apply(s, step);
    var n := |s.log|;
    forall j | 0 <= j < |t.log| && t.log[j].Served?
      ensures ServedFromFetch(t.log, j)
    {
      if j < n {
        assert s.log[j] == t.log[j] && ServedFromFetch(s.log, j);
        var i :| 0 <= i < j && s.log[i].Installed?
          && s.log[j].kid in s.log[i].fetch.keys && s.log[i].fetch.keys[s.log[j].kid] == s.log[j].key
          && s.log[j].at < s.log[i].fetch.expires;
        assert t.log[i] == s.log[i];
      } else {
        var i :| 0 <= i < n && s.log[i].Installed?
          && s.log[i].fetch.keys == s.fields.keys && s.log[i].fetch.expires == s.fields.expires;
        assert t.log[i] == s.log[i];
      }
    }
  }

  /** Every step of every caller and refresher keeps the invariant. */
  lemma StepKeepsInvariant(s: System, step: Step)
    requires Invariant(s) && Enabled(s, step)
    ensures Invariant(Apply(s, step))
  {
    StepKeepsSingleFlight(s, step);
    StepKeepsFetches(s, step);
    StepKeepsHolds(s, step);
    StepKeepsKeys(s, step);
    StepKeepsOrder(s, step);
    StepKeepsServes(s, step);
  }

  lemma {:induction false} RunKeepsInvariant(s: System, steps: seq<Step>)
    requires Invariant(s) && Runs(s, steps)
    ensures Invariant(After(s, steps))
    decreases |steps|
  {
    if steps != [] {
      StepKeepsInvariant(s, steps[0]);
      RunKeepsInvariant(Apply(s, steps[0]), steps[1..]);
    }
  }

  // ---------- what callers may rely on, over every run ----------

  /** A state some interleaving reaches from the start. */
  ghost predicate Reached(steps: seq<Step>) {
    Runs(INITIAL, steps)
  }

  lemma EveryRunKeepsInvariant(steps: seq<Step>)
    requires Reached(steps)
    ensures Invariant(After(INITIAL, steps))
  {
    RunKeepsInvariant(INITIAL, steps);
  }

  /** At most one refresher is unfinished, it owns `refreshing`, and no channel is closed twice. */
  lemma OneRefreshAtATime(steps: seq<Step>, a: Channel, b: Channel)
    requires Reached(steps)
    ensures var s := After(INITIAL, steps);
      && (a in s.refreshers && !s.refreshers[a].Ended? <==> s.fields.refreshing == Some(a))
      && (a in s.refreshers && b in s.refreshers && !s.refreshers[a].Ended? && !s.refreshers[b].Ended? ==> a == b)
      && s.closes[a] <= 1
      && (forall at :: Enabled(s, FinishStep(a, at)) ==> s.closes[a] == 0)
  {
    EveryRunKeepsInvariant(steps);
  }

  /**
   A key is granted only out of one earlier complete fetch, less than five minutes after that
   fetch began, and within the validity of every certificate in it.
   */
  lemma GrantedWithinEveryCertificate(steps: seq<Step>, j: int)
    requires Reached(steps)
    requires var log := After(INITIAL, steps).log; 0 <= j < |log| && log[j].Served?
    ensures var log := After(INITIAL, steps).log;
      exists i ::
        0 <= i < j && log[i].Installed? && GrantedFrom(log[j], log[i].fetch) && log[i].fetch.start <= log[i].at
  {
    EveryRunKeepsInvariant(steps);
    var log := After(INITIAL, steps).log;
    assert ServedFromFetch(log, j);
    var i :| 0 <= i < j && log[i].Installed?
      && log[j].kid in log[i].fetch.keys && log[i].fetch.keys[log[j].kid] == log[j].key
      && log[j].at < log[i].fetch.expires;
    CompleteCovers(log[j], log[i].fetch, log[i].at);
  }

  /** The served key is a key of the complete fetch, at most five minutes old and inside every validity. */
  ghost predicate GrantedFrom(e: Event, f: Fetch)
    requires e.Served?
  {
    && CompleteFetch(f)
    && e.kid in f.certs && f.certs[e.kid].Certificate? && f.certs[e.kid].key == e.key
    && f.start <= e.at < f.start + 300_000_000_000
    && forall id | id in f.certs :: f.certs[id].Certificate? && f.certs[id].notBefore <= e.at < f.certs[id].notAfter
  }

  lemma CompleteCovers(e: Event, f: Fetch, installed: int)
    requires e.Served? && CompleteFetch(f) && f.finish <= installed <= e.at < f.expires
    requires e.kid in f.keys && f.keys[e.kid] == e.key
    ensures GrantedFrom(e, f) && f.start <= installed
  {
    assert forall id | id in f.certs :: Covers(f.certs[id], id, f);
  }

  /** No refresh ever starts while installed keys are fresh or within 5 seconds after a failure. */
  lemma RefreshesKeepTheirDistance(steps: seq<Step>, i: int, j: int)
    requires Reached(steps)
    requires var log := After(INITIAL, steps).log; 0 <= i < j < |log| && log[j].Started?
    ensures var log := After(INITIAL, steps).log;
      && (log[i].Failed? ==> log[i].at + 5_000_000_000 <= log[j].at)
      && (log[i].Installed? ==> log[i].fetch.expires <= log[j].at)
  {
    EveryRunKeepsInvariant(steps);
    assert Holds(After(INITIAL, steps).log[i]) <= After(INITIAL, steps).log[j].at;
  }

  /** The steps of the current refresher that remain before a waiter on ch can go on. */
  ghost function RemainingSteps(s: System, c: int): seq<Step>
    requires c in s.callers && s.callers[c].Waiting?
  {
    var ch := s.callers[c].channel;
    if s.closes[ch] > 0 then [WakeStep(c)]
    else if ch in s.refreshers && s.refreshers[ch].Fetching? then
      [FetchStep(ch, None, s.now), FinishStep(ch, s.now), WakeStep(c)]
    else [FinishStep(ch, s.now), WakeStep(c)]
  }

  /** The remaining steps are enabled one after the other and bring the waiter back to the lock. */
  ghost predicate GoesOn(s: System, c: int)
    requires c in s.callers && s.callers[c].Waiting?
  {
    var rest := RemainingSteps(s, c);
    Runs(s, rest) && c in After(s, rest).callers && After(s, rest).callers[c] == Entering(s.callers[c].kid)
  }

  /**
   A waiter never depends on another caller: in every reachable state the steps of the one
   refresher it waits for, and its own wake-up, are enabled in turn and bring it back.
   */
  lemma WaitersCanAlwaysGoOn(steps: seq<Step>, c: int)
    requires Reached(steps)
    requires var s := After(INITIAL, steps); c in s.callers && s.callers[c].Waiting?
    ensures GoesOn(After(INITIAL, steps), c)
  {
    EveryRunKeepsInvariant(steps);
    WaiterGoesOn(After(INITIAL, steps), c);
  }

  lemma WaiterGoesOn(s: System, c: int)
    requires Invariant(s) && c in s.callers && s.callers[c].Waiting?
    ensures GoesOn(s, c)
  {
    var ch := s.callers[c].channel;
    var rest := RemainingSteps(s, c);
    if s.closes[ch] > 0 {
      OneStep(s, rest);
    } else if s.refreshers[ch].Fetching? {
      var s1 := Apply(s, rest[0]);
      var s2 := Apply(s1, rest[1]);
      OneStep(s2, rest[2..]);
      OneMore(s1, rest[1..]);
      OneMore(s, rest);
    } else {
      OneStep(Apply(s, rest[0]), rest[1..]);
      OneMore(s, rest);
    }
  }

  lemma OneStep(s: System, steps: seq<Step>)
    requires |steps| == 1 && Enabled(s, steps[0])
    ensures Runs(s, steps) && After(s, steps) == Apply(s, steps[0])
  {
    assert steps[1..] == [];
  }

  lemma OneMore(s: System, steps: seq<Step>)
    requires steps != [] && Enabled(s, steps[0]) && Runs(Apply(s, steps[0]), steps[1..])
    ensures Runs(s, steps) && After(s, steps) == After(Apply(s, steps[0]), steps[1..])
  {
  }
}
