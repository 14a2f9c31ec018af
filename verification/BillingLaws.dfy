/** What each transaction of the billing store changes and when it succeeds, and how an undisturbed call ends. */
module BillingLaws {
  import opened Prelude
  import opened BillingStore
  import opened BillingProtocol
  import Spaces
  import Uuids

  // ---------- the store, transaction by transaction ----------

  /** All rows but the account's are untouched. */
  predicate OnlyTouches(before: Rows, after: Rows, account: int) {
    before - {account} == after - {account}
  }

  /** A customer id carries the prefix, does not end in white space and holds no line break, tab, blank or slash. */
  lemma CustomerIdMeans(id: string)
    ensures CustomerIdValid(id) <==>
      && 5 <= |id| <= 255 && id[0] == 'c' && id[1] == 'u' && id[2] == 's' && id[3] == '_'
      && !Spaces.EndsInSpace(id)
      && '\r' !in id && '\n' !in id && '\t' !in id && ' ' !in id && '/' !in id && '\\' !in id
  {
  }

  /** A selection sets the account's currency, and succeeds unless the currency is locked to another one. */
  lemma SelectionSetsCurrency(rows: Rows, account: int, currency: string, compatible: bool)
    requires RowsValid(rows)
    ensures var (after, r) := SelectCurrency(rows, account, currency, compatible);
      && OnlyTouches(rows, after, account)
      && (r.Err? ==> after == rows)
      && (r.Ok? ==> account in after && after[account].currency == currency)
      && (r.Ok? <==> account != 0 && CurrencyCode(currency) && compatible
                     && (account in rows && rows[account].phase != Selected ==> rows[account].currency == currency))
      && (r.Ok? && account in rows ==> after[account] == rows[account].(currency := currency))
      && (r.Ok? && account !in rows ==> after[account].phase == Selected && after[account].intent.None?)
      && (r == Err(InvalidRequest) <==> account == 0 || !CurrencyCode(currency))
  {
    hide Spaces.EndsInSpace, Uuids.Parses;
  }

  /** A preparation never changes a currency; it opens an intent once and afterwards returns it. */
  lemma PreparationKeepsCurrency(rows: Rows, account: int, scope: string, intent: string, now: int,
                                 allowed: seq<string>, compatible: bool)
    requires RowsValid(rows)
    ensures var (after, r) := Prepare(rows, account, scope, intent, now, allowed, compatible);
      && OnlyTouches(rows, after, account) && after.Keys == rows.Keys
      && (forall a | a in rows ::
            after[a].currency == rows[a].currency && after[a].id == rows[a].id && after[a].customer == rows[a].customer)
      && (r.Err? ==> after == rows)
      && (r.Ok? ==>
            account in rows && r.value == after[account] && r.value.currency in allowed && r.value.scope == scope)
      && (r.Ok? && rows[account].phase != Selected ==> after == rows)
      && (r.Ok? && rows[account].phase == Selected ==>
            && r.value.phase == Creating && r.value.intent == Some(intent) && r.value.createdAt == Some(now)
            && r.value.customer.None?)
  {
    hide Spaces.EndsInSpace, Uuids.Parses, ScopeValid, CurrencyCode;
  }

  /** A preparation succeeds exactly for a well-formed request on a compatible account with an allowed currency. */
  lemma PreparationSucceedsExactly(rows: Rows, account: int, scope: string, intent: string, now: int,
                                   allowed: seq<string>, compatible: bool)
    requires RowsValid(rows)
    ensures var r := Prepare(rows, account, scope, intent, now, allowed, compatible).1;
      var asked := account != 0 && 1 <= |scope| <= 64 && now != 0 && Uuids.Parses(intent);
      && (r.Ok? <==>
            && asked && compatible && account in rows && rows[account].currency in allowed
            && (if rows[account].phase == Selected then forall a | a in rows :: rows[a].intent != Some(intent)
                else rows[account].scope == scope))
      && (r == Err(CurrencyRequired) <==> asked && compatible && account !in rows)
      && (!asked ==> r == Err(InvalidRequest))
  {
    hide Spaces.EndsInSpace, Uuids.Parses, CurrencyCode;
  }

  /** Binding only adds the customer, and only to an open intent or the same customer again. */
  lemma BindingOnlyAddsCustomer(rows: Rows, expected: Row, customer: Customer, now: int, compatible: bool)
    requires RowsValid(rows)
    ensures var (after, r) := Bind(rows, expected, customer, now, compatible);
      && OnlyTouches(rows, after, expected.account)
      && (r.Err? ==> after == rows && r == Err(Conflict))
      && (r.Ok? ==>
            && expected.account in rows
            && after[expected.account] == rows[expected.account].(phase := Ready, customer := Some(customer.id))
            && (rows[expected.account].customer.None? || rows[expected.account].customer == Some(customer.id)))
  {
    hide Spaces.EndsInSpace, Uuids.Parses, ScopeValid, CurrencyCode;
  }

  /** Against the row it was read from, binding succeeds exactly for a customer of that intent that no other row has. */
  lemma BindingSucceedsExactly(rows: Rows, account: int, customer: Customer, now: int, compatible: bool)
    requires RowsValid(rows) && account in rows && rows[account].phase == Creating
    ensures var row := rows[account];
      Bind(rows, row, customer, now, compatible).1.Ok? <==>
        && now != 0 && compatible && CustomerIdValid(customer.id)
        && Some(customer.binding) == row.intent && customer.currency == row.currency && customer.scope == row.scope
        && forall a | a in rows && a != account :: rows[a].customer != Some(customer.id)
  {
    hide CustomerIdValid, Uuids.Parses, ScopeValid, CurrencyCode;
  }

  /**
   Against any earlier copy of a row, binding succeeds exactly when the row has only moved forward since, the
   customer was made for the copy's intent, and the row has no customer yet or has this one.
   */
  lemma LateBindingsSucceedExactly(rows: Rows, expected: Row, customer: Customer, now: int, compatible: bool)
    requires RowsValid(rows) && IdentityValid(expected) && expected.phase != Selected
    ensures Bind(rows, expected, customer, now, compatible).1.Ok? <==>
      && now != 0 && compatible && CustomerIdValid(customer.id)
      && Some(customer.binding) == expected.intent
      && customer.currency == expected.currency && customer.scope == expected.scope
      && expected.account in rows && RowAdvances(expected, rows[expected.account])
      && rows[expected.account].customer in {None, Some(customer.id)}
      && forall a | a in rows && a != expected.account :: rows[a].customer != Some(customer.id)
  {
    hide CustomerIdValid, Uuids.Parses, ScopeValid, CurrencyCode;
  }

  /** What a well-formed row holds in each phase. */
  lemma PhasesHold(row: Row)
    requires IdentityValid(row)
    ensures row.id != 0 && row.account != 0
    ensures |row.currency| == 3 && forall c | c in row.currency :: 'a' <= c <= 'z'
    ensures row.phase == Selected <==> row.intent.None?
    ensures row.phase == Selected <==> row.createdAt.None?
    ensures row.phase == Selected <==> row.scope == ""
    ensures row.phase == Ready <==> row.customer.Some?
    ensures row.intent.Some? ==> Uuids.Parses(row.intent.value) && row.createdAt.value != 0 && 1 <= |row.scope| <= 64
    ensures row.customer.Some? ==> "cus_" < row.customer.value && |row.customer.value| <= 255
  {
    hide Spaces.EndsInSpace, Uuids.Parses;
  }

  // ---------- which step may change what ----------

  /**
   In every step of the system a row changes its currency only by a selection naming it, its intent only by a
   preparation of it, and its customer only by binding one that a call received.
   */
  lemma ChangesAreAskedFor(s: System, step: Step, pause: int, a: int)
    requires RowsValid(s.rows) && Enabled(s, step, pause) && a in Apply(s, step, pause).rows
    ensures var t := Apply(s, step, pause);
      var row := t.rows[a];
      && (a !in s.rows || s.rows[a].currency != row.currency ==> step == SelectStep(a, row.currency, true))
      && (a in s.rows && s.rows[a].intent != row.intent ==>
            step.PrepareStep? && step.account == a && row.intent == Some(step.intent)
            && row.createdAt == Some(step.readAt) && row.scope == step.scope)
      && (a in s.rows && s.rows[a].customer != row.customer ==>
            step.BindStep? && s.processes[step.process].record.account == a
            && row.customer == Some(s.processes[step.process].customer.id))
  {
    hide RowsValid, Prepare, Bind, SelectCurrency, CustomerMatches, OnlyTouches;
    var t := Apply(s, step, pause);
    match step {
      case SelectStep(b, currency, compatible) =>
        SelectionSetsCurrency(s.rows, b, currency, compatible);
        Untouched(s.rows, t.rows, b, a);
      case PrepareStep(_, b, scope, intent, readAt, allowed, compatible) =>
        PreparationKeepsCurrency(s.rows, b, scope, intent, readAt, allowed, compatible);
        assert t.rows == Prepare(s.rows, b, scope, intent, readAt, allowed, compatible).0;
        Untouched(s.rows, t.rows, b, a);
      case BindStep(p, compatible) =>
        var q := s.processes[p];
        BindingOnlyAddsCustomer(s.rows, q.record, q.customer, s.now, compatible);
        Untouched(s.rows, Bind(s.rows, q.record, q.customer, s.now, compatible).0, q.record.account, a);
      case _ =>
    }
  }

  lemma Untouched(before: Rows, after: Rows, account: int, a: int)
    ensures OnlyTouches(before, after, account) && a != account ==>
      (a in before <==> a in after) && (a in before ==> after[a] == before[a])
  {
    if OnlyTouches(before, after, account) && a != account {
      assert a in before <==> a in before - {account};
      assert a in after <==> a in after - {account};
      assert a in before ==> before[a] == (before - {account})[a];
      assert a in after ==> after[a] == (after - {account})[a];
    }
  }

  /** Rows are numbered from 1 on in the order of their creation. */
  ghost predicate Numbered(rows: Rows) {
    && (forall a | a in rows :: 1 <= rows[a].id <= |rows|)
    && forall a, b | a in rows && b in rows && rows[a].id == rows[b].id :: a == b
  }

  lemma StepKeepsNumbers(s: System, step: Step, pause: int)
    requires RowsValid(s.rows) && Numbered(s.rows) && Enabled(s, step, pause)
    ensures Numbered(Apply(s, step, pause).rows)
  {
    hide RowsValid, IdentityValid, CustomerMatches, CustomerIdValid, CurrencyCode, ScopeValid, Uuids.Parses;
    hide Prepare, Bind;
    var t := Apply(s, step, pause);
    match step {
      case SelectStep(b, currency, compatible) =>
      case PrepareStep(_, b, scope, intent, readAt, allowed, compatible) =>
        PreparationKeepsCurrency(s.rows, b, scope, intent, readAt, allowed, compatible);
        assert t.rows == Prepare(s.rows, b, scope, intent, readAt, allowed, compatible).0;
        SameNumbers(s.rows, t.rows);
      case BindStep(p, compatible) =>
        var q := s.processes[p];
        BindKeepsNumbers(s.rows, q.record, q.customer, s.now, compatible);
        SameNumbers(s.rows, t.rows);
      case _ =>
    }
  }

  lemma BindKeepsNumbers(rows: Rows, expected: Row, customer: Customer, now: int, compatible: bool)
    ensures var after := Bind(rows, expected, customer, now, compatible).0;
      after.Keys == rows.Keys && forall a | a in rows :: after[a].id == rows[a].id
  {
  }

  lemma SameNumbers(before: Rows, after: Rows)
    requires Numbered(before) && after.Keys == before.Keys && forall a | a in before :: after[a].id == before[a].id
    ensures Numbered(after)
  {
    assert |after| == |after.Keys| == |before.Keys| == |before|;
  }

  /** Over every run no two accounts' rows have the same number. */
  lemma {:induction false} NumbersAreDistinct(s: System, steps: seq<Step>, pause: int)
    requires RowsValid(s.rows) && Numbered(s.rows) && Runs(s, steps, pause)
    ensures Numbered(After(s, steps, pause).rows)
    decreases |steps|
  {
    if steps != [] {
      StepKeepsNumbers(s, steps[0], pause);
      StepAdvances(s, steps[0], pause);
      NumbersAreDistinct(Apply(s, steps[0], pause), steps[1..], pause);
    }
  }

  // ---------- the checks of a call ----------

  /** An intent may be used from its creation on for 23 hours. */
  lemma UsableFor23Hours(record: Row, now: int)
    ensures ExpiredIntent(record, now) <==>
      !(record.createdAt.Some? && record.createdAt.value <= now <= record.createdAt.value + 82_800_000_000_000)
  {
  }

  /** A provider customer answers a record exactly when it carries the record's intent, currency and scope. */
  lemma MatchingMeans(record: Row, c: Customer)
    ensures CustomerMatches(record, c) <==>
      && record.intent == Some(c.binding) && record.currency == c.currency && record.scope == c.scope
      && (record.customer == None || record.customer == Some(c.id))
      && |c.id| >= 5 && c.id[..4] == "cus_"
  {
    assert "cus_" <= c.id <==> |c.id| >= 4 && c.id[..4] == "cus_";
  }

  /** Provider ids are the prefix and at least one more letter, digit or underscore, up to 255 in all. */
  lemma StripeIdMeans(s: string)
    ensures StripeId(s, "cus_") <==>
      && 5 <= |s| <= 255 && s[..4] == "cus_"
      && forall c | c in s :: 'a' <= c <= 'z' || 'A' <= c <= 'Z' || '0' <= c <= '9' || c == '_'
  {
    assert "cus_" <= s <==> |s| >= 4 && s[..4] == "cus_";
    assert forall i | 0 <= i < |s| :: s[i] in s;
  }

  /** A call past the horizon is refused and sends nothing. */
  lemma ExpiredCallsAreRefused(s: System, p: int, pause: int)
    requires Enabled(s, CreateStep(p), pause) && ExpiredIntent(s.processes[p].record, s.now)
    ensures var t := Apply(s, CreateStep(p), pause);
      && t.processes[p] == Finished(s.processes[p].account, Refused)
      && t.requests == s.requests && t.rows == s.rows && t.customers == s.customers
  {
  }

  /** A preparation that succeeds hands its row to the call; one that fails ends it. */
  lemma PreparedCallsHoldTheirRow(s: System, step: Step, pause: int)
    requires RowsValid(s.rows) && Enabled(s, step, pause) && step.PrepareStep?
    ensures var t := Apply(s, step, pause);
      var r := Prepare(s.rows, step.account, step.scope, step.intent, step.readAt, step.allowed, step.compatible).1;
      && (r.Ok? ==> t.processes[step.process] == Prepared(step.account, t.rows[step.account]))
      && (r.Err? ==> t.processes[step.process] == Finished(step.account, Refused))
  {
    hide RowsValid, Prepare, IdentityValid;
    PreparationKeepsCurrency(s.rows, step.account, step.scope, step.intent, step.readAt, step.allowed, step.compatible);
    PrepareChanges(s.rows, step.account, step.scope, step.intent, step.readAt, step.allowed, step.compatible);
  }

  /** A remembered key never makes a second customer, and answers only a request with its own parameters. */
  lemma RememberedKeysMakeNothing(s: System, r: Request, newId: string, pause: int)
    requires Enabled(s, ProviderStep(r, newId), pause) && (r.scope, r.key) in s.entries
    ensures var t := Apply(s, ProviderStep(r, newId), pause);
      var e := s.entries[(r.scope, r.key)];
      && t.customers == s.customers && t.entries == s.entries
      && t.responses == s.responses +
           (if (e.binding, e.currency) == (r.binding, r.currency) then {(r, e.customer)} else {})
  {
  }

  /** A crash forgets the call and nothing else; the same caller may begin again. */
  lemma CrashesForgetTheCall(s: System, p: int, a: int, scope: string, intent: string, allowed: seq<string>, pause: int)
    requires Enabled(s, CrashStep(p), pause)
    ensures var t := Apply(s, CrashStep(p), pause);
      && Enabled(t, PrepareStep(p, a, scope, intent, t.now, allowed, true), pause)
      && (forall q | q in s.processes && q != p :: q in t.processes && t.processes[q] == s.processes[q])
      && t.rows == s.rows && t.requests == s.requests && t.customers == s.customers && t.entries == s.entries
  {
  }

  // ---------- an undisturbed call ----------

  /** The steps of a call that is neither disturbed nor interrupted. */
  function Undisturbed(p: int, r: Request, c: Customer): seq<Step> {
    [CreateStep(p), ProviderStep(r, c.id), ReceiveStep(p, c), BindStep(p, true)]
  }

  lemma StepThen(s: System, a: Step, rest: seq<Step>, pause: int)
    requires Enabled(s, a, pause) && Runs(Apply(s, a, pause), rest, pause)
    ensures Runs(s, [a] + rest, pause) && After(s, [a] + rest, pause) == After(Apply(s, a, pause), rest, pause)
  {
    hide Enabled, Apply;
    assert ([a] + rest)[1..] == rest;
  }

  lemma FourSteps(s: System, a: Step, b: Step, c: Step, d: Step, pause: int)
    requires Enabled(s, a, pause) && Enabled(Apply(s, a, pause), b, pause)
    requires var u := Apply(Apply(s, a, pause), b, pause);
      Enabled(u, c, pause) && Enabled(Apply(u, c, pause), d, pause)
    ensures Runs(s, [a, b, c, d], pause)
    ensures After(s, [a, b, c, d], pause)
         == Apply(Apply(Apply(Apply(s, a, pause), b, pause), c, pause), d, pause)
  {
    hide Enabled, Apply;
    var u := Apply(s, a, pause);
    var v := Apply(u, b, pause);
    var w := Apply(v, c, pause);
    StepThen(w, d, [], pause);
    assert [d] + [] == [d];
    StepThen(v, c, [d], pause);
    StepThen(u, b, [c, d], pause);
    StepThen(s, a, [b, c, d], pause);
    assert [c] + [d] == [c, d] && [b] + [c, d] == [b, c, d] && [a] + [b, c, d] == [a, b, c, d];
  }

  /**
   From every reachable state, a call that holds its account's open row within 23 hours can create the customer
   for it, receive it, bind it and return it, in four steps of its own and the provider's.
   */
  lemma UndisturbedCallsBind(steps: seq<Step>, pause: int, p: int, newId: string)
    requires 0 <= pause && pause + 15_000_000_000 < 3_600_000_000_000 && Runs(INITIAL, steps, pause)
    requires StripeId(newId, "cus_") && forall c | c in After(INITIAL, steps, pause).customers :: c.id != newId
    requires var s := After(INITIAL, steps, pause);
      && p in s.processes && s.processes[p].Prepared?
      && var a, record := s.processes[p].account, s.processes[p].record;
      && record.phase == Creating && record.intent.Some? && a in s.rows && s.rows[a] == record
      && !ExpiredIntent(record, s.now)
      && (record.scope, "billing-customer-" + record.intent.value) !in s.entries
    ensures var s := After(INITIAL, steps, pause); var a, record := s.processes[p].account, s.processes[p].record;
      var c := Customer(newId, record.intent.value, record.currency, record.scope);
      var own := Undisturbed(p, CreateRequest(record, s.now, pause), c);
      && Runs(s, own, pause)
      && p in After(s, own, pause).processes && After(s, own, pause).processes[p] == Finished(a, Bound(newId))
      && After(s, own, pause).rows == s.rows[a := record.(phase := Ready, customer := Some(newId))]
      && After(s, own, pause).customers == s.customers + {c}
  {
    EveryRunKeepsInvariant(steps, pause);
    var s := After(INITIAL, steps, pause);
    var a, record := s.processes[p].account, s.processes[p].record;
    assert ProcessValid(s, s.processes[p]);
    var c := Customer(newId, record.intent.value, record.currency, record.scope);
    var r := CreateRequest(record, s.now, pause);
    FreshIdIsFree(s, a, c, pause);
    StripeIdIsBindable(newId);
    hide RowsValid, IdentityValid, Invariant, Bind, StripeId, CustomerIdValid;
    var s1 := Apply(s, CreateStep(p), pause);
    var s2 := Apply(s1, ProviderStep(r, newId), pause);
    var s3 := Apply(s2, ReceiveStep(p, c), pause);
    assert CustomerMatches(record, c) by {
      MatchingMeans(record, c);
      StripeIdMeans(newId);
    }
    FourSteps(s, CreateStep(p), ProviderStep(r, newId), ReceiveStep(p, c), BindStep(p, true), pause);
  }

  /** A customer id the provider never gave out is in no row, so the open row can be bound to it. */
  lemma FreshIdIsFree(s: System, a: int, c: Customer, pause: int)
    requires Invariant(s, pause) && a in s.rows && s.rows[a].phase == Creating
    requires StripeId(c.id, "cus_") && forall d | d in s.customers :: d.id != c.id
    requires Some(c.binding) == s.rows[a].intent && c.currency == s.rows[a].currency && c.scope == s.rows[a].scope
    ensures Bind(s.rows, s.rows[a], c, s.now, true)
         == (s.rows[a := s.rows[a].(phase := Ready, customer := Some(c.id))], Ok(()))
  {
    hide StripeId, CustomerIdValid, Uuids.Parses, ScopeValid, CurrencyCode, TrafficInvariant, ProviderInvariant;
    StripeIdIsBindable(c.id);
    forall b | b in s.rows
      ensures s.rows[b].customer != Some(c.id)
    {
      assert BindingValid(s, s.rows[b]);
    }
    BindingSucceedsExactly(s.rows, a, c, s.now, true);
  }

  /** A call whose account is already bound retrieves its customer and returns it, changing nothing. */
  lemma BoundAccountsReturnTheirCustomer(s: System, p: int, c: Customer, pause: int)
    requires Enabled(s, RetrieveStep(p, c), pause) && CustomerMatches(s.processes[p].record, c)
    ensures var t := Apply(s, RetrieveStep(p, c), pause);
      && Enabled(t, BindStep(p, true), pause)
      && Apply(t, BindStep(p, true), pause).processes[p] == Finished(s.processes[p].account, Bound(c.id))
      && Apply(t, BindStep(p, true), pause).rows == s.rows
  {
    hide CustomerMatches;
  }

  /** A customer that does not answer the record is an invalid response, and nothing is bound. */
  lemma ForeignCustomersAreInvalid(s: System, p: int, compatible: bool, pause: int)
    requires Enabled(s, BindStep(p, compatible), pause)
    requires !CustomerMatches(s.processes[p].record, s.processes[p].customer)
    ensures var t := Apply(s, BindStep(p, compatible), pause);
      t.processes[p] == Finished(s.processes[p].account, Invalid) && t.rows == s.rows
  {
    hide CustomerMatches;
  }
}
