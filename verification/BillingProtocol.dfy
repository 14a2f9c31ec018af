/**
 Creating a provider customer exactly once: concurrent and crashing initialisations over the
 durable store, against a provider that forgets idempotency keys a day after their first use.
 One clock that never runs backwards; times are nanoseconds.
 */
module BillingProtocol {
  import opened Prelude
  import opened BillingStore
  import Spaces
  import Uuids

  const SECOND := 1_000_000_000
  const HOUR := 3600 * SECOND
  const OPERATION_LIMIT := 15 * SECOND
  const INTENT_HORIZON := 23 * HOUR
  const KEY_RETENTION := 24 * HOUR

  predicate AsciiIdentifier(s: string, max: nat) {
    0 < |s| <= max && forall i | 0 <= i < |s| ::
      'a' <= s[i] <= 'z' || 'A' <= s[i] <= 'Z' || '0' <= s[i] <= '9' || s[i] == '_'
  }

  predicate StripeId(s: string, prefix: string) {
    prefix <= s && |s| > |prefix| && AsciiIdentifier(s, 255)
  }

  /** What the provider adapter accepts is always bindable by the store. */
  lemma StripeIdIsBindable(id: string)
    requires StripeId(id, "cus_")
    ensures CustomerIdValid(id)
  {
    hide Spaces.EndsInSpace, Spaces.StartsInSpace;
    Spaces.PrintableIsTrimmed(id);
  }

  predicate ExpiredIntent(record: Row, now: int) {
    record.createdAt.None? || now < record.createdAt.value || now - record.createdAt.value > INTENT_HORIZON
  }

  predicate CustomerMatches(record: Row, customer: Customer) {
    && record.intent.Some?
    && "cus_" <= customer.id && |customer.id| > 4
    && Some(customer.binding) == record.intent
    && customer.currency == record.currency
    && customer.scope == record.scope
    && (record.customer.None? || record.customer == Some(customer.id))
  }

  function IdempotencyKey(intent: string): string {
    "billing-customer-" + intent
  }

  // ---------- the system ----------

  /** A create request on its way; the provider may act on it at any time up to `latest`. */
  datatype Request = Request(key: string, binding: string, currency: string, scope: string, latest: int)

  /** What the provider remembers under an idempotency key of one credential scope. */
  datatype Entry = Entry(customer: Customer, binding: string, currency: string, firstUsed: int)

  /** Where one call of Initialize stands. */
  datatype Process =
    | Prepared(account: int, record: Row)
    | Calling(account: int, record: Row, request: Request)
    | Received(account: int, record: Row, customer: Customer)
    | Finished(account: int, outcome: Outcome)

  datatype Outcome = Bound(id: string) | Refused | Invalid

  datatype System = System(
    now: int,
    rows: Rows,
    processes: map<int, Process>,
    requests: set<Request>,
    responses: set<(Request, Customer)>,
    entries: map<(string, string), Entry>,
    customers: set<Customer>)

  datatype Step =
    | TickStep(to: int)
    | SelectStep(account: int, currency: string, compatible: bool)
    | PrepareStep(process: int, account: int, scope: string, intent: string, readAt: int,
                  allowed: seq<string>, compatible: bool)
    | CreateStep(process: int)
    | RetrieveStep(process: int, customer: Customer)
    | ProviderStep(request: Request, newId: string)
    | PruneStep(slot: (string, string))
    | ReceiveStep(process: int, customer: Customer)
    | BindStep(process: int, compatible: bool)
    | CrashStep(process: int)

  /**
   `pause` bounds the time between the expiry check's clock reading and the start of the
   request's deadline, which the code itself does not bound.
   */
  ghost predicate Enabled(s: System, step: Step, pause: int) {
    match step
    case TickStep(to) => s.now <= to
    case SelectStep(_, _, _) => true
    case PrepareStep(p, _, _, _, readAt, _, _) => p !in s.processes && readAt <= s.now
    case CreateStep(p) => p in s.processes && s.processes[p].Prepared? && s.processes[p].record.customer.None?
    case RetrieveStep(p, c) =>
      && p in s.processes && s.processes[p].Prepared? && c in s.customers
      && s.processes[p].record.customer == Some(c.id)
    case ProviderStep(r, newId) =>
      && r in s.requests && s.now <= r.latest
      && (forall c | c in s.customers :: c.id != newId)
    case PruneStep(slot) => slot in s.entries && s.now - s.entries[slot].firstUsed >= KEY_RETENTION
    case ReceiveStep(p, c) =>
      && p in s.processes && s.processes[p].Calling? && (s.processes[p].request, c) in s.responses
      && StripeId(c.id, "cus_")
    case BindStep(p, _) => p in s.processes && s.processes[p].Received?
    case CrashStep(p) => p in s.processes
  }

  /** The first transaction of Initialize, and the checks on the row it returns. */
  function AfterPrepare(account: int, scope: string, allowed: seq<string>, r: Result<Row>): Process {
    match r
    case Err(_) => Finished(account, Refused)
    case Ok(record) =>
      if record.intent.None? || record.scope != scope || record.currency !in allowed then Finished(account, Refused)
      else Prepared(account, record)
  }

  /** The create request for a record, sent within `pause` of the check at `now`. */
  function CreateRequest(record: Row, now: int, pause: int): Request
    requires record.intent.Some?
  {
    var intent := record.intent.value;
    Request(IdempotencyKey(intent), intent, record.currency, record.scope, now + pause + OPERATION_LIMIT)
  }

  /** The provider replays a remembered key, refuses a key with other parameters, or creates. */
  function Provide(s: System, r: Request, newId: string): System {
    var slot := (r.scope, r.key);
    if slot in s.entries then
      var e := s.entries[slot];
      if e.binding == r.binding && e.currency == r.currency
      then s.(responses := s.responses + {(r, e.customer)}) else s
    else
      var c := Customer(newId, r.binding, r.currency, r.scope);
      s.(customers := s.customers + {c},
         entries := s.entries[slot := Entry(c, r.binding, r.currency, s.now)],
         responses := s.responses + {(r, c)})
  }

  ghost function Apply(s: System, step: Step, pause: int): System
    requires Enabled(s, step, pause)
  {
    match step
    case TickStep(to) => s.(now := to)
    case SelectStep(a, currency, compatible) => s.(rows := SelectCurrency(s.rows, a, currency, compatible).0)
    case PrepareStep(p, a, scope, intent, readAt, allowed, compatible) =>
      var (rows, r) := Prepare(s.rows, a, scope, intent, readAt, allowed, compatible);
      s.(rows := rows, processes := s.processes[p := AfterPrepare(a, scope, allowed, r)])
    case CreateStep(p) =>
      var q := s.processes[p];
      if ExpiredIntent(q.record, s.now) || q.record.intent.None? then
        s.(processes := s.processes[p := Finished(q.account, Refused)])
      else
        var request := CreateRequest(q.record, s.now, pause);
        s.(requests := s.requests + {request},
           processes := s.processes[p := Calling(q.account, q.record, request)])
    case RetrieveStep(p, c) =>
      s.(processes := s.processes[p := Received(s.processes[p].account, s.processes[p].record, c)])
    case ProviderStep(r, newId) => Provide(s, r, newId)
    case PruneStep(slot) => s.(entries := s.entries - {slot})
    case ReceiveStep(p, c) =>
      s.(processes := s.processes[p := Received(s.processes[p].account, s.processes[p].record, c)])
    case BindStep(p, compatible) =>
      var q := s.processes[p];
      if !CustomerMatches(q.record, q.customer) then s.(processes := s.processes[p := Finished(q.account, Invalid)])
      else if q.record.customer.Some? then s.(processes := s.processes[p := Finished(q.account, Bound(q.customer.id))])
      else
        var (rows, r) := Bind(s.rows, q.record, q.customer, s.now, compatible);
        s.(rows := rows,
           processes := s.processes[p := Finished(q.account, if r.Ok? then Bound(q.customer.id) else Refused)])
    case CrashStep(p) => s.(processes := s.processes - {p})
  }

  const INITIAL := System(1, map[], map[], {}, {}, map[], {})

  ghost predicate Runs(s: System, steps: seq<Step>, pause: int)
    decreases |steps|
  {
    steps == [] || (Enabled(s, steps[0], pause) && Runs(Apply(s, steps[0], pause), steps[1..], pause))
  }

  ghost function After(s: System, steps: seq<Step>, pause: int): System
    requires Runs(s, steps, pause)
    decreases |steps|
  {
    if steps == [] then s else After(Apply(s, steps[0], pause), steps[1..], pause)
  }

  // ---------- the invariant ----------

  /** Account a's row holds this intent, with this currency and scope. */
  ghost predicate Owns(rows: Rows, a: int, binding: string, currency: string, scope: string) {
    && a in rows && HasIntent(rows[a])
    && rows[a].intent == Some(binding) && rows[a].currency == currency && rows[a].scope == scope
  }

  ghost predicate ClockValid(s: System) {
    && s.now > 0 && RowsValid(s.rows)
    && forall a | a in s.rows && s.rows[a].createdAt.Some? :: s.rows[a].createdAt.value <= s.now
  }

  /** A process's copy of a row is an earlier state of that row. */
  ghost predicate RecordValid(rows: Rows, account: int, record: Row) {
    account in rows && record.account == account && HasIntent(record) && IdentityValid(record)
    && RowAdvances(record, rows[account])
  }

  /** The request is account a's, and cannot be acted on long after the intent's horizon. */
  ghost predicate RequestFor(rows: Rows, r: Request, a: int, pause: int) {
    && Owns(rows, a, r.binding, r.currency, r.scope)
    && r.latest <= rows[a].createdAt.value + INTENT_HORIZON + pause + OPERATION_LIMIT
  }

  ghost predicate RequestValid(rows: Rows, r: Request, pause: int) {
    r.key == IdempotencyKey(r.binding) && exists a :: RequestFor(rows, r, a, pause)
  }

  ghost predicate ProcessValid(s: System, q: Process) {
    match q
    case Prepared(a, record) => RecordValid(s.rows, a, record)
    case Calling(a, record, r) => RecordValid(s.rows, a, record) && record.customer.None?
    case Received(a, record, c) => RecordValid(s.rows, a, record) && c in s.customers
    case Finished(_, _) => true
  }

  function Slot(c: Customer): (string, string) {
    (c.scope, IdempotencyKey(c.binding))
  }

  /** The customer is account a's, and still remembered under its key unless the intent is a day old. */
  ghost predicate CustomerFor(s: System, c: Customer, a: int) {
    && Owns(s.rows, a, c.binding, c.currency, c.scope)
    && ((Slot(c) in s.entries && s.entries[Slot(c)].customer == c)
        || s.rows[a].createdAt.value + KEY_RETENTION <= s.now)
  }

  ghost predicate CustomerValid(s: System, c: Customer) {
    exists a :: CustomerFor(s, c, a)
  }

  ghost predicate EntryFor(rows: Rows, e: Entry, a: int) {
    && Owns(rows, a, e.customer.binding, e.customer.currency, e.customer.scope)
    && rows[a].createdAt.value <= e.firstUsed
  }

  ghost predicate EntryValid(s: System, slot: (string, string), e: Entry) {
    && e.customer in s.customers
    && e.binding == e.customer.binding && e.currency == e.customer.currency
    && slot == Slot(e.customer)
    && exists a :: EntryFor(s.rows, e, a)
  }

  ghost predicate UniqueCustomers(customers: set<Customer>) {
    forall c, d | c in customers && d in customers && (c.binding == d.binding || c.id == d.id) :: c == d
  }

  /** A bound row names a customer created for its own intent. */
  ghost predicate BindingValid(s: System, row: Row) {
    row.customer.Some? ==>
      exists c :: c in s.customers && c.id == row.customer.value && Some(c.binding) == row.intent
  }

  ghost predicate RowsInvariant(s: System) {
    ClockValid(s) && forall a | a in s.rows :: BindingValid(s, s.rows[a])
  }

  ghost predicate TrafficInvariant(s: System, pause: int) {
    && (forall r | r in s.requests :: RequestValid(s.rows, r, pause))
    && (forall p | p in s.processes :: ProcessValid(s, s.processes[p]))
    && (forall rc | rc in s.responses :: rc.1 in s.customers)
  }

  ghost predicate ProviderInvariant(s: System) {
    && (forall c | c in s.customers :: CustomerValid(s, c))
    && (forall slot | slot in s.entries :: EntryValid(s, slot, s.entries[slot]))
    && UniqueCustomers(s.customers)
  }

  ghost predicate Invariant(s: System, pause: int) {
    RowsInvariant(s) && TrafficInvariant(s, pause) && ProviderInvariant(s)
  }

  // ---------- each step keeps it ----------

  lemma OwnsAdvances(before: Rows, after: Rows, a: int, binding: string, currency: string, scope: string)
    requires Advances(before, after) && RowsValid(before) && Owns(before, a, binding, currency, scope)
    ensures Owns(after, a, binding, currency, scope) && after[a].createdAt == before[a].createdAt
  {
    assert IdentityValid(before[a]) && RowAdvances(before[a], after[a]);
  }

  lemma OneOwner(rows: Rows, a: int, b: int, binding: string, c1: string, s1: string, c2: string, s2: string)
    requires RowsValid(rows) && Owns(rows, a, binding, c1, s1) && Owns(rows, b, binding, c2, s2)
    ensures a == b
  {
  }

  lemma KeyInjective(x: string, y: string)
    requires IdempotencyKey(x) == IdempotencyKey(y)
    ensures x == y
  {
    var n := |"billing-customer-"|;
    assert IdempotencyKey(x)[n..] == x && IdempotencyKey(y)[n..] == y;
  }

  /** Rows that advance keep what requests and processes say about them. */
  lemma RowsAdvanceTraffic(s: System, t: System, pause: int)
    requires Advances(s.rows, t.rows) && RowsValid(s.rows) && TrafficInvariant(s, pause)
    requires t.requests == s.requests && t.responses == s.responses && t.customers == s.customers
    requires t.processes == s.processes
    ensures TrafficInvariant(t, pause)
  {
    forall r | r in t.requests
      ensures RequestValid(t.rows, r, pause)
    {
      assert RequestValid(s.rows, r, pause);
      var a :| RequestFor(s.rows, r, a, pause);
      OwnsAdvances(s.rows, t.rows, a, r.binding, r.currency, r.scope);
      assert RequestFor(t.rows, r, a, pause);
    }
    forall p | p in t.processes
      ensures ProcessValid(t, t.processes[p])
    {
      assert ProcessValid(s, s.processes[p]);
    }
  }

  /** Rows that advance, and time that passes, keep what the provider has created. */
  lemma RowsAdvanceProvider(s: System, t: System)
    requires Advances(s.rows, t.rows) && RowsValid(s.rows) && ProviderInvariant(s)
    requires t.customers == s.customers && t.entries == s.entries && s.now <= t.now
    ensures ProviderInvariant(t)
  {
    forall c | c in t.customers
      ensures CustomerValid(t, c)
    {
      assert CustomerValid(s, c);
      var a :| CustomerFor(s, c, a);
      OwnsAdvances(s.rows, t.rows, a, c.binding, c.currency, c.scope);
      assert CustomerFor(t, c, a);
    }
    forall slot | slot in t.entries
      ensures EntryValid(t, slot, t.entries[slot])
    {
      var e := s.entries[slot];
      assert EntryValid(s, slot, e);
      var a :| EntryFor(s.rows, e, a);
      OwnsAdvances(s.rows, t.rows, a, e.customer.binding, e.customer.currency, e.customer.scope);
      assert EntryFor(t.rows, e, a);
    }
  }

  lemma TickKeeps(s: System, step: Step, pause: int)
    requires Invariant(s, pause) && Enabled(s, step, pause) && step.TickStep?
    ensures Invariant(Apply(s, step, pause), pause)
  {
    var t := Apply(s, step, pause);
    RowsAdvanceTraffic(s, t, pause);
    RowsAdvanceProvider(s, t);
    forall a | a in t.rows ensures BindingValid(t, t.rows[a]) {
      assert BindingValid(s, s.rows[a]);
    }
  }

  lemma SelectKeeps(s: System, step: Step, pause: int)
    requires Invariant(s, pause) && Enabled(s, step, pause) && step.SelectStep?
    ensures Invariant(Apply(s, step, pause), pause)
  {
    hide RowsValid, IdentityValid, SelectCurrency;
    var t := Apply(s, step, pause);
    SelectAdvances(s.rows, step.account, step.currency, step.compatible);
    SelectChanges(s.rows, step.account, step.currency, step.compatible);
    RowsAdvanceTraffic(s, t, pause);
    RowsAdvanceProvider(s, t);
    forall a | a in t.rows ensures BindingValid(t, t.rows[a]) {
      assert a in s.rows ==> BindingValid(s, s.rows[a]);
    }
  }

  lemma PrepareKeeps(s: System, step: Step, pause: int)
    requires Invariant(s, pause) && Enabled(s, step, pause) && step.PrepareStep?
    ensures Invariant(Apply(s, step, pause), pause)
  {
    hide RowsValid, IdentityValid, Prepare, TrafficInvariant, ProviderInvariant;
    var t := Apply(s, step, pause);
    var u := s.(rows := t.rows);
    PrepareAdvances(s.rows, step.account, step.scope, step.intent, step.readAt, step.allowed, step.compatible);
    PrepareChanges(s.rows, step.account, step.scope, step.intent, step.readAt, step.allowed, step.compatible);
    RowsAdvanceTraffic(s, u, pause);
    RowsAdvanceProvider(s, t);
    forall a | a in t.rows ensures BindingValid(t, t.rows[a]) {
      assert a in s.rows ==> BindingValid(s, s.rows[a]);
    }
    ProcessesKept(u, t, step.process, pause);
  }

  /** Only process p changed, and it is valid. */
  lemma ProcessesKept(s: System, t: System, p: int, pause: int)
    requires TrafficInvariant(s, pause)
    requires t.rows == s.rows && t.customers == s.customers && t.requests == s.requests && t.responses == s.responses
    requires t.processes - {p} == s.processes - {p}
    requires p in t.processes ==> ProcessValid(t, t.processes[p])
    ensures TrafficInvariant(t, pause)
  {
    forall q | q in t.processes ensures ProcessValid(t, t.processes[q]) {
      if q != p {
        assert q in t.processes - {p};
        assert ProcessValid(s, s.processes[q]);
      }
    }
  }

  lemma ProviderUntouched(s: System, t: System)
    requires RowsInvariant(s) && ProviderInvariant(s)
    requires t.now == s.now && t.rows == s.rows && t.customers == s.customers && t.entries == s.entries
    ensures RowsInvariant(t) && ProviderInvariant(t)
  {
    RowsAdvanceProvider(s, t);
    forall a | a in t.rows ensures BindingValid(t, t.rows[a]) {
      assert BindingValid(s, s.rows[a]);
    }
  }

  lemma CreateKeeps(s: System, step: Step, pause: int)
    requires Invariant(s, pause) && Enabled(s, step, pause) && step.CreateStep?
    ensures Invariant(Apply(s, step, pause), pause)
  {
    hide RowsValid, CustomerIdValid, ScopeValid, CurrencyCode, Uuids.Parses;
    var t := Apply(s, step, pause);
    ProviderUntouched(s, t);
    var q := s.processes[step.process];
    assert ProcessValid(s, q);
    if t.requests == s.requests {
      ProcessesKept(s, t, step.process, pause);
    } else {
      var r := CreateRequest(q.record, s.now, pause);
      assert RequestFor(t.rows, r, q.account, pause);
      var u := s.(requests := t.requests);
      assert TrafficInvariant(u, pause) by {
        forall p | p in u.processes ensures ProcessValid(u, u.processes[p]) {
          assert ProcessValid(s, s.processes[p]);
        }
      }
      ProcessesKept(u, t, step.process, pause);
    }
  }

  lemma LocalKeeps(s: System, step: Step, pause: int)
    requires Invariant(s, pause) && Enabled(s, step, pause)
    requires step.RetrieveStep? || step.ReceiveStep? || step.CrashStep?
    ensures Invariant(Apply(s, step, pause), pause)
  {
    hide RowsValid, IdentityValid;
    var t := Apply(s, step, pause);
    ProviderUntouched(s, t);
    assert ProcessValid(s, s.processes[step.process]);
    ProcessesKept(s, t, step.process, pause);
  }

  /** A forgotten key is a day old, and so is the intent of its customer. */
  lemma PrunedCustomers(s: System, t: System, slot: (string, string), c: Customer)
    requires RowsInvariant(s) && ProviderInvariant(s) && slot in s.entries && c in s.customers
    requires s.now - s.entries[slot].firstUsed >= KEY_RETENTION && t == s.(entries := s.entries - {slot})
    ensures CustomerValid(t, c)
  {
    hide RowsValid, IdentityValid, HasIntent;
    var gone := s.entries[slot];
    assert EntryValid(s, slot, gone) && CustomerValid(s, c);
    var a :| CustomerFor(s, c, a);
    if c == gone.customer {
      var owner :| EntryFor(s.rows, gone, owner);
      OneOwner(s.rows, a, owner, c.binding, c.currency, c.scope, c.currency, c.scope);
    }
    assert CustomerFor(t, c, a);
  }

  lemma PruneKeeps(s: System, step: Step, pause: int)
    requires Invariant(s, pause) && Enabled(s, step, pause) && step.PruneStep?
    ensures Invariant(Apply(s, step, pause), pause)
  {
    hide RowsValid, IdentityValid, HasIntent, CustomerValid, TrafficInvariant;
    var t := Apply(s, step, pause);
    RowsAdvanceTraffic(s, t, pause);
    forall a | a in t.rows ensures BindingValid(t, t.rows[a]) {
      assert BindingValid(s, s.rows[a]);
    }
    forall c | c in t.customers ensures CustomerValid(t, c) {
      PrunedCustomers(s, t, step.slot, c);
    }
    forall slot | slot in t.entries ensures EntryValid(t, slot, t.entries[slot]) {
      assert EntryValid(s, slot, s.entries[slot]);
    }
  }

  /** Inside the retention period a request never finds its key forgotten after a customer was created. */
  lemma NoSecondCustomer(s: System, r: Request, c: Customer, pause: int)
    requires pause + OPERATION_LIMIT < HOUR
    requires Invariant(s, pause) && r in s.requests && s.now <= r.latest
    requires c in s.customers && c.binding == r.binding
    ensures (r.scope, r.key) in s.entries && s.entries[(r.scope, r.key)].customer == c
  {
    assert CustomerValid(s, c) && RequestValid(s.rows, r, pause);
    var a :| CustomerFor(s, c, a);
    var b :| RequestFor(s.rows, r, b, pause);
    OneOwner(s.rows, a, b, c.binding, c.currency, c.scope, r.currency, r.scope);
  }

  lemma ReplayedIsKnown(s: System, t: System, slot: (string, string), pause: int)
    requires Invariant(s, pause) && slot in s.entries
    requires t.customers == s.customers
    requires forall rc | rc in t.responses :: rc in s.responses || rc.1 == s.entries[slot].customer
    ensures forall rc | rc in t.responses :: rc.1 in t.customers
  {
    assert EntryValid(s, slot, s.entries[slot]);
  }

  lemma ReplayKeeps(s: System, r: Request, newId: string, pause: int)
    requires Invariant(s, pause) && r in s.requests && (r.scope, r.key) in s.entries
    ensures Invariant(Provide(s, r, newId), pause)
  {
    hide RowsInvariant, TrafficInvariant, ProviderInvariant;
    var t := Provide(s, r, newId);
    ReplayedIsKnown(s, t, (r.scope, r.key), pause);
    ProviderUntouched(s, t);
    CreationKeepsTraffic(s, t, pause);
  }

  lemma NoCustomerYet(s: System, r: Request, pause: int)
    requires pause + OPERATION_LIMIT < HOUR
    requires Invariant(s, pause) && r in s.requests && s.now <= r.latest && (r.scope, r.key) !in s.entries
    ensures forall c | c in s.customers :: c.binding != r.binding
  {
    forall c | c in s.customers && c.binding == r.binding ensures false {
      NoSecondCustomer(s, r, c, pause);
    }
  }

  /** A new customer under a free key, for an intent that has none, keeps what the provider holds. */
  lemma MadeKeepsProvider(s: System, t: System, made: Customer, owner: int)
    requires ProviderInvariant(s) && Slot(made) !in s.entries
    requires forall c | c in s.customers :: c.binding != made.binding && c.id != made.id
    requires t.rows == s.rows && t.now == s.now && t.customers == s.customers + {made}
    requires t.entries == s.entries[Slot(made) := Entry(made, made.binding, made.currency, s.now)]
    requires Owns(s.rows, owner, made.binding, made.currency, made.scope) && s.rows[owner].createdAt.value <= s.now
    ensures ProviderInvariant(t)
  {
    hide HasIntent, IdempotencyKey;
    forall c | c in t.customers ensures CustomerValid(t, c) {
      if c == made {
        assert CustomerFor(t, c, owner);
      } else {
        assert CustomerValid(s, c);
        var a :| CustomerFor(s, c, a);
        assert CustomerFor(t, c, a);
      }
    }
    forall k | k in t.entries ensures EntryValid(t, k, t.entries[k]) {
      if k == Slot(made) {
        assert EntryFor(t.rows, t.entries[k], owner);
      } else {
        assert EntryValid(s, k, s.entries[k]);
      }
    }
  }

  lemma CreationKeepsProvider(s: System, r: Request, newId: string, pause: int)
    requires pause + OPERATION_LIMIT < HOUR
    requires Invariant(s, pause) && Enabled(s, ProviderStep(r, newId), pause) && (r.scope, r.key) !in s.entries
    ensures ProviderInvariant(Provide(s, r, newId))
  {
    NoCustomerYet(s, r, pause);
    assert RequestValid(s.rows, r, pause);
    var owner :| RequestFor(s.rows, r, owner, pause);
    hide ProviderInvariant, TrafficInvariant;
    MadeKeepsProvider(s, Provide(s, r, newId), Customer(newId, r.binding, r.currency, r.scope), owner);
  }

  lemma CreationKeeps(s: System, r: Request, newId: string, pause: int)
    requires pause + OPERATION_LIMIT < HOUR
    requires Invariant(s, pause) && Enabled(s, ProviderStep(r, newId), pause) && (r.scope, r.key) !in s.entries
    ensures Invariant(Provide(s, r, newId), pause)
  {
    var t := Provide(s, r, newId);
    assert forall rc | rc in t.responses :: rc.1 in t.customers;
    hide RowsInvariant, TrafficInvariant, ProviderInvariant;
    CreationKeepsProvider(s, r, newId, pause);
    CreationKeepsTraffic(s, Provide(s, r, newId), pause);
  }

  lemma CreationKeepsTraffic(s: System, t: System, pause: int)
    requires RowsInvariant(s) && TrafficInvariant(s, pause)
    requires t.rows == s.rows && t.now == s.now && t.processes == s.processes && t.requests == s.requests
    requires s.customers <= t.customers && forall rc | rc in t.responses :: rc.1 in t.customers
    ensures RowsInvariant(t) && TrafficInvariant(t, pause)
  {
    forall p | p in t.processes ensures ProcessValid(t, t.processes[p]) {
      assert ProcessValid(s, s.processes[p]);
    }
    forall a | a in t.rows ensures BindingValid(t, t.rows[a]) {
      assert BindingValid(s, s.rows[a]);
    }
  }

  /** A successful binding names a customer created for the row's own intent. */
  lemma BindKeepsBindings(s: System, record: Row, c: Customer, compatible: bool)
    requires RowsInvariant(s) && c in s.customers
    ensures var t := s.(rows := Bind(s.rows, record, c, s.now, compatible).0);
      RowsInvariant(t) && Advances(s.rows, t.rows)
  {
    BindAdvances(s.rows, record, c, s.now, compatible);
    var t := s.(rows := Bind(s.rows, record, c, s.now, compatible).0);
    forall a | a in t.rows ensures BindingValid(t, t.rows[a]) {
      assert BindingValid(s, s.rows[a]);
    }
  }

  lemma BindKeeps(s: System, step: Step, pause: int)
    requires Invariant(s, pause) && Enabled(s, step, pause) && step.BindStep?
    ensures Invariant(Apply(s, step, pause), pause)
  {
    hide RowsValid, Bind, IdentityValid;
    var t := Apply(s, step, pause);
    var q := s.processes[step.process];
    assert ProcessValid(s, q);
    var u := s;
    if CustomerMatches(q.record, q.customer) && q.record.customer.None? {
      BindKeepsBindings(s, q.record, q.customer, step.compatible);
      u := s.(rows := t.rows);
      RowsAdvanceTraffic(s, u, pause);
      RowsAdvanceProvider(s, u);
    }
    ProviderUntouched(u, t);
    ProcessesKept(u, t, step.process, pause);
  }

  lemma StepKeepsInvariant(s: System, step: Step, pause: int)
    requires pause + OPERATION_LIMIT < HOUR
    requires Invariant(s, pause) && Enabled(s, step, pause)
    ensures Invariant(Apply(s, step, pause), pause)
  {
    match step
    case TickStep(_) => TickKeeps(s, step, pause);
    case SelectStep(_, _, _) => SelectKeeps(s, step, pause);
    case PrepareStep(_, _, _, _, _, _, _) => PrepareKeeps(s, step, pause);
    case CreateStep(_) => CreateKeeps(s, step, pause);
    case RetrieveStep(_, _) => LocalKeeps(s, step, pause);
    case ProviderStep(r, newId) =>
      if (r.scope, r.key) in s.entries {
        ReplayKeeps(s, r, newId, pause);
      } else {
        CreationKeeps(s, r, newId, pause);
      }
    case PruneStep(_) => PruneKeeps(s, step, pause);
    case ReceiveStep(_, _) => LocalKeeps(s, step, pause);
    case BindStep(_, _) => BindKeeps(s, step, pause);
    case CrashStep(_) => LocalKeeps(s, step, pause);
  }

  lemma {:induction false} RunKeepsInvariant(s: System, steps: seq<Step>, pause: int)
    requires pause + OPERATION_LIMIT < HOUR
    requires Invariant(s, pause) && Runs(s, steps, pause)
    ensures Invariant(After(s, steps, pause), pause)
    decreases |steps|
  {
    if steps != [] {
      StepKeepsInvariant(s, steps[0], pause);
      RunKeepsInvariant(Apply(s, steps[0], pause), steps[1..], pause);
    }
  }

  // ---------- what callers may rely on, over every run ----------

  lemma EveryRunKeepsInvariant(steps: seq<Step>, pause: int)
    requires pause + OPERATION_LIMIT < HOUR && Runs(INITIAL, steps, pause)
    ensures Invariant(After(INITIAL, steps, pause), pause)
  {
    RunKeepsInvariant(INITIAL, steps, pause);
  }

  /** Whatever crashes, retries and overlaps, an intent never gets a second provider customer. */
  lemma AtMostOneCustomerPerIntent(steps: seq<Step>, pause: int, c: Customer, d: Customer)
    requires pause + 15_000_000_000 < 3_600_000_000_000 && Runs(INITIAL, steps, pause)
    requires c in After(INITIAL, steps, pause).customers && d in After(INITIAL, steps, pause).customers
    requires c.binding == d.binding
    ensures c == d
  {
    EveryRunKeepsInvariant(steps, pause);
  }

  /** A bound row names a customer that was created for its intent, and no other was. */
  lemma BoundToItsOwnCustomer(steps: seq<Step>, pause: int, a: int)
    requires pause + OPERATION_LIMIT < HOUR && Runs(INITIAL, steps, pause)
    requires var s := After(INITIAL, steps, pause); a in s.rows && s.rows[a].customer.Some?
    ensures var s := After(INITIAL, steps, pause);
      exists c :: c in s.customers && Some(c.id) == s.rows[a].customer && Some(c.binding) == s.rows[a].intent
    ensures var s := After(INITIAL, steps, pause);
      forall d | d in s.customers && Some(d.binding) == s.rows[a].intent :: s.rows[a].customer == Some(d.id)
  {
    EveryRunKeepsInvariant(steps, pause);
    var s := After(INITIAL, steps, pause);
    assert BindingValid(s, s.rows[a]);
  }

  lemma RememberedMatches(s: System, r: Request, newId: string, pause: int)
    requires Invariant(s, pause) && r in s.requests && (r.scope, r.key) in s.entries
    ensures var c := s.entries[(r.scope, r.key)].customer;
      c.binding == r.binding && c.currency == r.currency && (r, c) in Provide(s, r, newId).responses
  {
    var e := s.entries[(r.scope, r.key)];
    assert EntryValid(s, (r.scope, r.key), e) && RequestValid(s.rows, r, pause);
    KeyInjective(e.binding, r.binding);
    var a :| EntryFor(s.rows, e, a);
    var b :| RequestFor(s.rows, r, b, pause);
    OneOwner(s.rows, a, b, r.binding, e.customer.currency, e.customer.scope, r.currency, r.scope);
  }

  /** Over every run a retry is answered with the customer already created, never refused for its parameters. */
  lemma RetryIsReplayed(steps: seq<Step>, pause: int, r: Request, newId: string)
    requires pause + OPERATION_LIMIT < HOUR && Runs(INITIAL, steps, pause)
    requires var s := After(INITIAL, steps, pause); r in s.requests && (r.scope, r.key) in s.entries
    ensures var s := After(INITIAL, steps, pause); var c := s.entries[(r.scope, r.key)].customer;
      c.binding == r.binding && c.currency == r.currency && (r, c) in Provide(s, r, newId).responses
  {
    EveryRunKeepsInvariant(steps, pause);
    RememberedMatches(After(INITIAL, steps, pause), r, newId, pause);
  }

  lemma ReceivedIsBindable(s: System, p: int, pause: int)
    requires Invariant(s, pause) && p in s.processes && s.processes[p].Received?
    requires var q := s.processes[p]; CustomerMatches(q.record, q.customer) && StripeId(q.customer.id, "cus_")
    ensures var q := s.processes[p]; Bind(s.rows, q.record, q.customer, s.now, true).1.Ok?
  {
    hide StripeId, CustomerIdValid, Uuids.Parses, ScopeValid, CurrencyCode;
    var q := s.processes[p];
    assert ProcessValid(s, q);
    StripeIdIsBindable(q.customer.id);
    assert BindingValid(s, s.rows[q.account]);
    forall a | a in s.rows
      ensures s.rows[a].customer == Some(q.customer.id) ==> a == q.account
    {
      assert BindingValid(s, s.rows[a]);
    }
  }

  /**
   Over every run a call that received its intent's customer can always bind it: another call may
   have bound the same customer first, but no row is ever in its way.
   */
  lemma BindingNeverConflicts(steps: seq<Step>, pause: int, p: int)
    requires pause + OPERATION_LIMIT < HOUR && Runs(INITIAL, steps, pause)
    requires var s := After(INITIAL, steps, pause);
      && p in s.processes && s.processes[p].Received?
      && CustomerMatches(s.processes[p].record, s.processes[p].customer)
      && StripeId(s.processes[p].customer.id, "cus_")
    ensures var s := After(INITIAL, steps, pause);
      Bind(s.rows, s.processes[p].record, s.processes[p].customer, s.now, true).1.Ok?
  {
    EveryRunKeepsInvariant(steps, pause);
    ReceivedIsBindable(After(INITIAL, steps, pause), p, pause);
  }

  lemma StepAdvances(s: System, step: Step, pause: int)
    requires Enabled(s, step, pause) && RowsValid(s.rows)
    ensures RowsValid(Apply(s, step, pause).rows) && Advances(s.rows, Apply(s, step, pause).rows)
  {
    match step
    case SelectStep(a, currency, compatible) => SelectAdvances(s.rows, a, currency, compatible);
    case PrepareStep(_, a, scope, intent, readAt, allowed, compatible) =>
      PrepareAdvances(s.rows, a, scope, intent, readAt, allowed, compatible);
    case BindStep(p, compatible) =>
      BindAdvances(s.rows, s.processes[p].record, s.processes[p].customer, s.now, compatible);
    case _ =>
  }

  /** Over every run an intent keeps its currency, scope and creation time, and its first binding. */
  lemma {:induction false} IntentsAreForever(s: System, steps: seq<Step>, pause: int)
    requires Runs(s, steps, pause) && RowsValid(s.rows)
    ensures Advances(s.rows, After(s, steps, pause).rows)
    decreases |steps|
  {
    if steps != [] {
      var t := Apply(s, steps[0], pause);
      StepAdvances(s, steps[0], pause);
      IntentsAreForever(t, steps[1..], pause);
      AdvancesTransitive(s.rows, t.rows, After(t, steps[1..], pause).rows);
    }
  }

  // ---------- what Initialize returns ----------

  /** A call's copy of a row is an earlier state of that row, and what it returned is bound there. */
  ghost predicate CallValid(rows: Rows, q: Process) {
    match q
    case Prepared(a, record) => RecordValid(rows, a, record)
    case Calling(a, record, _) => RecordValid(rows, a, record)
    case Received(a, record, _) => RecordValid(rows, a, record)
    case Finished(a, Bound(id)) => a in rows && rows[a].customer == Some(id)
    case Finished(_, _) => true
  }

  ghost predicate CallsValid(s: System) {
    RowsValid(s.rows) && forall p | p in s.processes :: CallValid(s.rows, s.processes[p])
  }

  lemma CallAdvances(before: Rows, after: Rows, q: Process)
    requires RowsValid(before) && Advances(before, after) && CallValid(before, q)
    ensures CallValid(after, q)
  {
    hide RowsValid;
    if q.Finished? && q.outcome.Bound? {
      BoundRowStays(before, after, q.account);
    }
  }

  lemma BoundRowStays(before: Rows, after: Rows, a: int)
    requires RowsValid(before) && Advances(before, after) && a in before && before[a].customer.Some?
    ensures after[a] == before[a]
  {
    assert IdentityValid(before[a]) && RowAdvances(before[a], after[a]);
  }

  /** What a binding step leaves behind. */
  lemma BindReturnsBound(s: System, step: Step, pause: int)
    requires CallsValid(s) && Enabled(s, step, pause) && step.BindStep?
    ensures var t := Apply(s, step, pause); CallValid(t.rows, t.processes[step.process])
  {
    hide RowsValid, Bind;
    var q := s.processes[step.process];
    assert CallValid(s.rows, q);
    BindAdvances(s.rows, q.record, q.customer, s.now, step.compatible);
    if q.record.customer.Some? {
      assert RowAdvances(q.record, s.rows[q.account]);
    }
  }

  /** What a preparing step leaves behind. */
  lemma PrepareLeavesRecord(s: System, step: Step, pause: int)
    requires CallsValid(s) && Enabled(s, step, pause) && step.PrepareStep?
    ensures var t := Apply(s, step, pause); CallValid(t.rows, t.processes[step.process])
  {
    hide RowsValid, Prepare, IdentityValid;
    PrepareChanges(s.rows, step.account, step.scope, step.intent, step.readAt, step.allowed, step.compatible);
  }

  lemma StepKeepsCalls(s: System, step: Step, pause: int)
    requires CallsValid(s) && Enabled(s, step, pause)
    ensures CallsValid(Apply(s, step, pause))
  {
    StepAdvances(s, step, pause);
    var t := Apply(s, step, pause);
    if step.BindStep? {
      BindReturnsBound(s, step, pause);
    } else if step.PrepareStep? {
      PrepareLeavesRecord(s, step, pause);
    }
    hide RowsValid, Advances, RecordValid, Bind, Prepare, SelectCurrency;
    forall p | p in t.processes
      ensures CallValid(t.rows, t.processes[p])
    {
      if p in s.processes {
        CallAdvances(s.rows, t.rows, s.processes[p]);
      }
    }
  }

  lemma {:induction false} RunKeepsCalls(s: System, steps: seq<Step>, pause: int)
    requires CallsValid(s) && Runs(s, steps, pause)
    ensures CallsValid(After(s, steps, pause))
    decreases |steps|
  {
    if steps != [] {
      StepKeepsCalls(s, steps[0], pause);
      RunKeepsCalls(Apply(s, steps[0], pause), steps[1..], pause);
    }
  }

  /**
   Over every run, however long the pause: what a finished call returned is the customer bound to its
   account's row, so two calls for one account never return different customers.
   */
  lemma ReturnedIsBound(steps: seq<Step>, pause: int, p: int, q: int)
    requires Runs(INITIAL, steps, pause)
    requires var s := After(INITIAL, steps, pause);
      && p in s.processes && s.processes[p].Finished? && s.processes[p].outcome.Bound?
      && q in s.processes && s.processes[q].Finished? && s.processes[q].outcome.Bound?
      && s.processes[p].account == s.processes[q].account
    ensures var s := After(INITIAL, steps, pause); var a := s.processes[p].account;
      && a in s.rows && s.rows[a].customer == Some(s.processes[p].outcome.id)
      && s.processes[p].outcome == s.processes[q].outcome
  {
    RunKeepsCalls(INITIAL, steps, pause);
    var s := After(INITIAL, steps, pause);
    assert CallValid(s.rows, s.processes[p]) && CallValid(s.rows, s.processes[q]);
  }

  // ---------- the bound on the pause is exact ----------

  lemma {:induction false} RunsExtend(s: System, steps: seq<Step>, step: Step, pause: int)
    requires Runs(s, steps, pause) && Enabled(After(s, steps, pause), step, pause)
    ensures Runs(s, steps + [step], pause)
    ensures After(s, steps + [step], pause) == Apply(After(s, steps, pause), step, pause)
    decreases |steps|
  {
    if steps == [] {
      assert (steps + [step])[1..] == [];
    } else {
      assert (steps + [step])[1..] == steps[1..] + [step];
      RunsExtend(Apply(s, steps[0], pause), steps[1..], step, pause);
    }
  }

  const SOME_INTENT := "11111111-1111-4111-8111-111111111111"

  lemma SomeIntentParses()
    ensures Uuids.Parses(SOME_INTENT)
  {
  }

  const SOME_RECORD := Row(1, 1, "usd", Creating, Some(SOME_INTENT), Some(1), "s", None)

  const SOME_CUSTOMER := Customer("cus_a", SOME_INTENT, "usd", "s")

  /** Account 1 has selected a currency, and an intent was written at time 1. */
  lemma FirstAttempt(pause: int) returns (steps: seq<Step>)
    ensures Runs(INITIAL, steps, pause)
    ensures After(INITIAL, steps, pause)
      == INITIAL.(rows := map[1 := SOME_RECORD], processes := map[1 := Prepared(1, SOME_RECORD)])
  {
    hide Uuids.Parses;
    SomeIntentParses();
    steps := [];
    RunsExtend(INITIAL, steps, SelectStep(1, "usd", true), pause);
    steps := steps + [SelectStep(1, "usd", true)];
    var prepare := PrepareStep(1, 1, "s", SOME_INTENT, 1, ["usd"], true);
    RunsExtend(INITIAL, steps, prepare, pause);
    steps := steps + [prepare];
  }

  /** The first call's request creates a customer at time 1, and its answer is lost. */
  lemma CreatedThenLost(pause: int) returns (steps: seq<Step>)
    requires pause + OPERATION_LIMIT >= HOUR
    ensures Runs(INITIAL, steps, pause)
    ensures var s := After(INITIAL, steps, pause); var c := SOME_CUSTOMER;
      && s.now == 1 && s.rows == map[1 := SOME_RECORD] && s.customers == {c} && 2 !in s.processes
      && s.entries == map[Slot(c) := Entry(c, SOME_INTENT, "usd", 1)]
  {
    steps := FirstAttempt(pause);
    var r := CreateRequest(SOME_RECORD, 1, pause);
    RunsExtend(INITIAL, steps, CreateStep(1), pause);
    steps := steps + [CreateStep(1)];
    RunsExtend(INITIAL, steps, ProviderStep(r, "cus_a"), pause);
    steps := steps + [ProviderStep(r, "cus_a")];
  }

  /** A second call passes the expiry check at the last moment, and its request is on its way. */
  lemma RetriedAtTheHorizon(pause: int) returns (steps: seq<Step>, r: Request)
    requires pause + OPERATION_LIMIT >= HOUR
    ensures r == CreateRequest(SOME_RECORD, 1 + INTENT_HORIZON, pause)
    ensures Runs(INITIAL, steps, pause)
    ensures var s := After(INITIAL, steps, pause); var c := SOME_CUSTOMER;
      && s.now == 1 + INTENT_HORIZON && s.customers == {c}
      && s.entries == map[Slot(c) := Entry(c, SOME_INTENT, "usd", 1)]
      && r in s.requests
  {
    hide Uuids.Parses;
    SomeIntentParses();
    steps := CreatedThenLost(pause);
    var at := 1 + INTENT_HORIZON;
    r := CreateRequest(SOME_RECORD, at, pause);
    RunsExtend(INITIAL, steps, TickStep(at), pause);
    steps := steps + [TickStep(at)];
    var prepare := PrepareStep(2, 1, "s", SOME_INTENT, at, ["usd"], true);
    RunsExtend(INITIAL, steps, prepare, pause);
    steps := steps + [prepare];
    RunsExtend(INITIAL, steps, CreateStep(2), pause);
    steps := steps + [CreateStep(2)];
  }

  /** If the pause may use up the hour, some run creates two customers for one intent. */
  lemma LongPauseCreatesTwo(pause: int) returns (steps: seq<Step>, c: Customer, d: Customer)
    requires pause + OPERATION_LIMIT >= HOUR
    ensures Runs(INITIAL, steps, pause)
    ensures c in After(INITIAL, steps, pause).customers && d in After(INITIAL, steps, pause).customers
    ensures c.binding == d.binding && c != d
  {
    var r;
    steps, r := RetriedAtTheHorizon(pause);
    c := SOME_CUSTOMER;
    d := c.(id := "cus_b");
    var at := 1 + KEY_RETENTION;
    RunsExtend(INITIAL, steps, TickStep(at), pause);
    steps := steps + [TickStep(at)];
    RunsExtend(INITIAL, steps, PruneStep(Slot(c)), pause);
    steps := steps + [PruneStep(Slot(c))];
    RunsExtend(INITIAL, steps, ProviderStep(r, "cus_b"), pause);
    steps := steps + [ProviderStep(r, "cus_b")];
  }

  ghost predicate NeverTwoCustomers(pause: int) {
    forall steps | Runs(INITIAL, steps, pause) :: UniqueCustomers(After(INITIAL, steps, pause).customers)
  }

  /**
   The 23-hour horizon and the 15-second limit rule out a second customer on every run
   exactly when less than the remaining hour passes between the check and the request.
   */
  lemma OneCustomerExactlyWhenPauseIsShort(pause: int)
    ensures NeverTwoCustomers(pause) <==> pause + 15_000_000_000 < 3_600_000_000_000
  {
    if pause + OPERATION_LIMIT < HOUR {
      forall steps | Runs(INITIAL, steps, pause)
        ensures UniqueCustomers(After(INITIAL, steps, pause).customers)
      {
        EveryRunKeepsInvariant(steps, pause);
      }
    } else {
      var steps, c, d := LongPauseCreatesTwo(pause);
      assert !UniqueCustomers(After(INITIAL, steps, pause).customers);
    }
  }
}
