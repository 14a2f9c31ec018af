/**
 The durable billing customer rows: one per account, moving from an editable currency
 selection to an immutable creation intent to a bound provider customer. Each operation is
 one transaction: it either returns an error and changes nothing, or commits.
 Times are nanoseconds; 0 is the zero time. A char of a stored text stands for one byte.
 */
module BillingStore {
  import opened Prelude
  import Spaces
  import Uuids

  datatype Phase = Selected | Creating | Ready

  datatype Row = Row(
    id: nat,
    account: int,
    currency: string,
    phase: Phase,
    intent: Option<string>,
    createdAt: Option<int>,
    scope: string,
    customer: Option<string>)

  datatype Customer = Customer(id: string, binding: string, currency: string, scope: string)

  datatype Error = InvalidRequest | CurrencyRequired | Conflict

  datatype Result<+T> = Ok(value: T) | Err(error: Error)

  type Rows = map<int, Row>

  predicate CurrencyCode(s: string) {
    |s| == 3 && forall i | 0 <= i < 3 :: 'a' <= s[i] <= 'z'
  }

  predicate ScopeValid(s: string) {
    0 < |s| <= 64
  }

  /** The prefix rules out white space in front. */
  predicate CustomerIdValid(id: string) {
    && "cus_" <= id && 4 < |id| <= 255 && !Spaces.EndsInSpace(id)
    && forall i | 0 <= i < |id| :: id[i] !in "\r\n\t /\\"
  }

  /** The shape each phase must have; anything else is refused, never repaired. */
  predicate IdentityValid(row: Row) {
    && row.id != 0 && row.account != 0
    && CurrencyCode(row.currency)
    && match row.phase
       case Selected => row.intent.None? && row.createdAt.None? && row.scope == "" && row.customer.None?
       case Creating => HasIntent(row) && row.customer.None?
       case Ready => HasIntent(row) && row.customer.Some? && CustomerIdValid(row.customer.value)
  }

  predicate HasIntent(row: Row) {
    && row.intent.Some? && Uuids.Parses(row.intent.value)
    && row.createdAt.Some? && row.createdAt.value != 0 && ScopeValid(row.scope)
  }

  /** `compatible` is the verdict on the account's older subscription records; new rows are numbered from 1 on. */
  function SelectCurrency(rows: Rows, account: int, currency: string, compatible: bool): (Rows, Result<()>) {
    if account == 0 || !CurrencyCode(currency) then (rows, Err(InvalidRequest))
    else if !compatible then (rows, Err(Conflict))
    else if account !in rows then
      (rows[account := Row(|rows| + 1, account, currency, Selected, None, None, "", None)], Ok(()))
    else
      var current := rows[account];
      if !IdentityValid(current) then (rows, Err(Conflict))
      else if current.currency == currency then (rows, Ok(()))
      else if !current.phase.Selected? then (rows, Err(Conflict))
      else (rows[account := current.(currency := currency)], Ok(()))
  }

  predicate IntentTaken(rows: Rows, intent: string) {
    exists a | a in rows :: rows[a].intent == Some(intent)
  }

  predicate CustomerTaken(rows: Rows, account: int, id: string) {
    exists a | a in rows :: a != account && rows[a].customer == Some(id)
  }

  /** Returns the row of the existing intent, or turns a selection into one. */
  function Prepare(rows: Rows, account: int, scope: string, intent: string, now: int,
                   allowed: seq<string>, compatible: bool): (Rows, Result<Row>) {
    if account == 0 || !ScopeValid(scope) || now == 0 || !Uuids.Parses(intent) then (rows, Err(InvalidRequest))
    else if !compatible then (rows, Err(Conflict))
    else if account !in rows then (rows, Err(CurrencyRequired))
    else
      var current := rows[account];
      if !IdentityValid(current) then (rows, Err(Conflict))
      else if current.currency !in allowed then (rows, Err(InvalidRequest))
      else if !current.phase.Selected? then
        if current.scope != scope then (rows, Err(Conflict)) else (rows, Ok(current))
      else if IntentTaken(rows, intent) then (rows, Err(Conflict))
      else
        var row := Row(current.id, current.account, current.currency, Creating, Some(intent), Some(now), scope, None);
        (rows[account := row], Ok(row))
  }

  predicate SameIntent(a: Row, b: Row) {
    && a.id == b.id && a.account == b.account && a.currency == b.currency && a.scope == b.scope
    && a.intent.Some? && a.intent == b.intent
    && a.createdAt.Some? && a.createdAt == b.createdAt
  }

  /** Binds the provider's customer to the intent it was created for, at most once. */
  function Bind(rows: Rows, expected: Row, customer: Customer, now: int, compatible: bool): (Rows, Result<()>) {
    var account := expected.account;
    if !IdentityValid(expected) || expected.phase.Selected? || now == 0 then (rows, Err(Conflict))
    else if !CustomerIdValid(customer.id) || Some(customer.binding) != expected.intent
            || customer.currency != expected.currency || customer.scope != expected.scope then (rows, Err(Conflict))
    else if expected.customer.Some? && expected.customer != Some(customer.id) then (rows, Err(Conflict))
    else if account !in rows || !compatible then (rows, Err(Conflict))
    else
      var current := rows[account];
      if !IdentityValid(current) || !SameIntent(current, expected) then (rows, Err(Conflict))
      else if expected.phase.Ready? && !current.phase.Ready? then (rows, Err(Conflict))
      else if current.phase.Ready? then
        (rows, if current.customer == Some(customer.id) then Ok(()) else Err(Conflict))
      else if CustomerTaken(rows, account, customer.id) then (rows, Err(Conflict))
      else (rows[account := current.(phase := Ready, customer := Some(customer.id))], Ok(()))
  }

  /** The repository: its one table, and one method per transaction. */
  class Repository {
    var rows: Rows

    constructor ()
      ensures rows == map[]
    {
      rows := map[];
    }

    method SelectCurrencyTx(account: int, currency: string, compatible: bool) returns (r: Result<()>)
      modifies this
      ensures (rows, r) == SelectCurrency(old(rows), account, currency, compatible)
      ensures RowsValid(old(rows)) ==> RowsValid(rows) && Advances(old(rows), rows)
      ensures r.Err? ==> rows == old(rows)
    {
      if RowsValid(rows) {
        SelectAdvances(rows, account, currency, compatible);
      }
      if account == 0 || !CurrencyCode(currency) {
        return Err(InvalidRequest);
      }
      if !compatible {
        return Err(Conflict);
      }
      if account !in rows {
        rows := rows[account := Row(|rows| + 1, account, currency, Selected, None, None, "", None)];
        return Ok(());
      }
      var current := rows[account];
      if !IdentityValid(current) {
        return Err(Conflict);
      }
      if current.currency == currency {
        return Ok(());
      }
      if !current.phase.Selected? {
        return Err(Conflict);
      }
      rows := rows[account := current.(currency := currency)];
      return Ok(());
    }

    method PrepareTx(account: int, scope: string, intent: string, now: int, allowed: seq<string>, compatible: bool)
      returns (r: Result<Row>)
      modifies this
      ensures (rows, r) == Prepare(old(rows), account, scope, intent, now, allowed, compatible)
      ensures RowsValid(old(rows)) ==> RowsValid(rows) && Advances(old(rows), rows)
      ensures r.Err? ==> rows == old(rows)
    {
      if RowsValid(rows) {
        PrepareAdvances(rows, account, scope, intent, now, allowed, compatible);
      }
      if account == 0 || !ScopeValid(scope) || now == 0 || !Uuids.Parses(intent) {
        return Err(InvalidRequest);
      }
      if !compatible {
        return Err(Conflict);
      }
      if account !in rows {
        return Err(CurrencyRequired);
      }
      var current := rows[account];
      if !IdentityValid(current) {
        return Err(Conflict);
      }
      if current.currency !in allowed {
        return Err(InvalidRequest);
      }
      if !current.phase.Selected? {
        if current.scope != scope {
          return Err(Conflict);
        }
        return Ok(current);
      }
      if IntentTaken(rows, intent) {
        return Err(Conflict);
      }
      current := current.(phase := Creating, intent := Some(intent), createdAt := Some(now), scope := scope);
      rows := rows[account := current];
      return Ok(current);
    }

    method BindTx(expected: Row, customer: Customer, now: int, compatible: bool) returns (r: Result<()>)
      modifies this
      ensures (rows, r) == Bind(old(rows), expected, customer, now, compatible)
      ensures RowsValid(old(rows)) ==> RowsValid(rows) && Advances(old(rows), rows)
      ensures r.Err? ==> rows == old(rows)
    {
      if RowsValid(rows) {
        BindAdvances(rows, expected, customer, now, compatible);
      }
      var account := expected.account;
      if !IdentityValid(expected) || expected.phase.Selected? || now == 0 {
        return Err(Conflict);
      }
      if !CustomerIdValid(customer.id) || Some(customer.binding) != expected.intent
         || customer.currency != expected.currency || customer.scope != expected.scope
      {
        return Err(Conflict);
      }
      if expected.customer.Some? && expected.customer != Some(customer.id) {
        return Err(Conflict);
      }
      if account !in rows || !compatible {
        return Err(Conflict);
      }
      var current := rows[account];
      if !IdentityValid(current) || !SameIntent(current, expected) {
        return Err(Conflict);
      }
      if expected.phase.Ready? && !current.phase.Ready? {
        return Err(Conflict);
      }
      if current.phase.Ready? {
        if current.customer != Some(customer.id) {
          return Err(Conflict);
        }
        return Ok(());
      }
      if CustomerTaken(rows, account, customer.id) {
        return Err(Conflict);
      }
      rows := rows[account := current.(phase := Ready, customer := Some(customer.id))];
      return Ok(());
    }
  }

  // ---------- what every transaction keeps ----------

  /** All rows well formed and under their account; no two accounts share an intent or a customer. */
  predicate RowsValid(rows: Rows) {
    && (forall a | a in rows :: IdentityValid(rows[a]) && rows[a].account == a)
    && (forall a, b | a in rows && b in rows && rows[a].intent.Some? && rows[a].intent == rows[b].intent :: a == b)
    && (forall a, b | a in rows && b in rows && rows[a].customer.Some? && rows[a].customer == rows[b].customer ::
          a == b)
  }

  function Rank(p: Phase): int {
    match p case Selected => 0 case Creating => 1 case Ready => 2
  }

  /** A row only moves forward; once there is an intent, only the binding may still be added. */
  predicate RowAdvances(before: Row, after: Row) {
    && before.id == after.id && before.account == after.account
    && Rank(before.phase) <= Rank(after.phase)
    && (!before.phase.Selected? ==>
        && after == before.(phase := after.phase, customer := after.customer)
        && (before.customer.Some? ==> after == before))
  }

  predicate Advances(before: Rows, after: Rows) {
    before.Keys <= after.Keys && forall a | a in before :: RowAdvances(before[a], after[a])
  }

  lemma SelectAdvances(rows: Rows, account: int, currency: string, compatible: bool)
    requires RowsValid(rows)
    ensures var after := SelectCurrency(rows, account, currency, compatible).0;
      RowsValid(after) && Advances(rows, after)
  {
    hide CustomerIdValid, CurrencyCode, ScopeValid, Uuids.Parses;
  }

  lemma PrepareAdvances(rows: Rows, account: int, scope: string, intent: string, now: int,
                        allowed: seq<string>, compatible: bool)
    requires RowsValid(rows)
    ensures var (after, r) := Prepare(rows, account, scope, intent, now, allowed, compatible);
      && RowsValid(after) && Advances(rows, after)
      && (r.Ok? ==> account in after && after[account] == r.value && HasIntent(r.value) && r.value.scope == scope)
      && (r.Err? ==> after == rows)
  {
    hide CustomerIdValid, CurrencyCode, ScopeValid, Uuids.Parses;
  }

  /** Which rows a selection touches, and how. */
  lemma SelectChanges(rows: Rows, account: int, currency: string, compatible: bool)
    requires RowsValid(rows)
    ensures var after := SelectCurrency(rows, account, currency, compatible).0;
      forall a | a in after ::
        (a in rows && after[a] == rows[a]) || (after[a].customer.None? && after[a].createdAt.None?)
  {
    hide CustomerIdValid, CurrencyCode, ScopeValid, Uuids.Parses;
  }

  /** Which rows a preparation touches, and what it returns. */
  lemma PrepareChanges(rows: Rows, account: int, scope: string, intent: string, now: int,
                       allowed: seq<string>, compatible: bool)
    requires RowsValid(rows)
    ensures var (after, r) := Prepare(rows, account, scope, intent, now, allowed, compatible);
      && (forall a | a in after ::
            (a in rows && after[a] == rows[a]) || (after[a].customer.None? && after[a].createdAt == Some(now)))
      && (r.Ok? ==> account in after && after[account] == r.value && r.value.account == account
                    && IdentityValid(r.value) && HasIntent(r.value) && RowAdvances(r.value, r.value))
  {
    hide CustomerIdValid, CurrencyCode, ScopeValid, Uuids.Parses;
  }

  lemma BindAdvances(rows: Rows, expected: Row, customer: Customer, now: int, compatible: bool)
    requires RowsValid(rows)
    ensures var (after, r) := Bind(rows, expected, customer, now, compatible);
      var account := expected.account;
      && RowsValid(after) && Advances(rows, after)
      && (r.Ok? ==> account in after && after[account].customer == Some(customer.id)
                    && after[account].intent == Some(customer.binding))
      && (r.Err? ==> after == rows)
  {
    hide CustomerIdValid, CurrencyCode, ScopeValid, Uuids.Parses;
  }

  lemma AdvancesTransitive(a: Rows, b: Rows, c: Rows)
    requires Advances(a, b) && Advances(b, c)
    ensures Advances(a, c)
  {
  }
}
