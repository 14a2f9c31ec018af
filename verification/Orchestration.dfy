/** Process checkpoints: when one is valid, what a valid one guarantees, and its step keys. */
module Orchestration {
  import opened Prelude

  const TWO_TO_THE_64 := 0x1_0000_0000_0000_0000

  const PROCESS_STATES := {"created", "running", "waiting", "compensating", "completed", "partially_completed",
                           "failed", "cancelled", "manual_action_required"}
  const TERMINAL_STATES := {"completed", "partially_completed", "failed", "cancelled"}
  const STEP_STATUSES := {"accepted", "completed", "failed", "timed_out", "result_unknown", "compensated", "skipped"}

  const STEP_ORDERS: map<string, seq<string>> := map[
    "inbound_message" := ["channel", "contact", "conversation", "message", "routing"],
    "outbound_message" := ["message", "provider", "status"],
    "automatic_assignment" := ["candidate", "assignment", "notification"],
    "automation_action" := ["execution", "target_action"],
    "ai_answer" := ["generation", "reply", "usage"],
    "campaign_delivery" := ["campaign", "message"],
    "account_deletion" := ["schedule", "access", "channels", "contacts", "media", "conversations", "messages",
                           "tickets", "knowledge", "plugins", "notifications", "campaigns", "ai_index", "reporting",
                           "search", "realtime", "audit", "complete"],
    "import_migration" := ["job", "contacts", "conversations", "messages", "reconcile"]]

  const TRANSITIONS: map<string, set<string>> := map[
    "created" := {"running", "cancelled"},
    "running" := {"waiting", "compensating", "completed", "partially_completed", "failed", "cancelled",
                  "manual_action_required"},
    "waiting" := {"running", "compensating", "failed", "cancelled", "manual_action_required"},
    "compensating" := {"failed", "partially_completed", "manual_action_required"},
    "manual_action_required" := {"running", "compensating", "failed", "cancelled"}]

  /** Times are nanoseconds; 0 is the zero time. */
  datatype StepResult = StepResult(
    stepID: string, commandID: string, idempotencyKey: string, status: string,
    correlationID: string, changeID: string, auditID: string,
    attempt: nat, startedAt: int, finishedAt: int)

  /** None for the completed list or the results is Go's nil. */
  datatype Checkpoint = Checkpoint(
    processID: string, processType: string, processVersion: string, state: string,
    currentStepID: string, correlationID: string,
    accountID: nat, version: nat, expectedVersion: nat,
    stepOrder: seq<string>, completedSteps: Option<seq<string>>, stepResults: Option<map<string, StepResult>>,
    updatedAt: int)

  // ---------- step keys ----------

  function IdempotencyKey(processID: string, version: string, stepID: string): Option<string> {
    if processID == "" || version == "" || stepID == "" then None
    else Some(KeyText(processID, version, stepID))
  }

  function KeyText(processID: string, version: string, stepID: string): string {
    processID + ":" + version + ":" + stepID
  }

  predicate ColonFree(s: string) {
    ':' !in s
  }

  /** Cutting at the last colon recovers both sides when the right one has no colon. */
  lemma LastColonCuts(a: string, b: string, c: string, d: string)
    requires a + ":" + b == c + ":" + d && ColonFree(b) && ColonFree(d)
    ensures a == c && b == d
  {
    var s, t := a + ":" + b, c + ":" + d;
    assert s[|a|] == ':' && t[|c|] == ':';
    assert forall i | |a| < i < |s| :: s[i] == b[i - |a| - 1] && s[i] in b;
    assert forall i | |c| < i < |t| :: t[i] == d[i - |c| - 1] && t[i] in d;
    assert |a| == |c|;
    assert s[..|a|] == a && t[..|c|] == c;
    assert s[|a| + 1..] == b && t[|c| + 1..] == d;
  }

  /** Process IDs may contain colons: without one in versions and steps, keys are injective. */
  lemma KeysInjective(p: string, v: string, s: string, q: string, w: string, t: string)
    requires ColonFree(v) && ColonFree(s) && ColonFree(w) && ColonFree(t)
    requires KeyText(p, v, s) == KeyText(q, w, t)
    ensures p == q && v == w && s == t
  {
    assert KeyText(p, v, s) == (p + ":" + v) + ":" + s;
    assert KeyText(q, w, t) == (q + ":" + w) + ":" + t;
    LastColonCuts(p + ":" + v, s, q + ":" + w, t);
    LastColonCuts(p, v, q, w);
  }

  /** What a key adds to the process ID. */
  function KeySuffix(version: string, stepID: string): string {
    ":" + version + ":" + stepID
  }

  predicate EndsWith(s: string, t: string) {
    |t| <= |s| && s[|s| - |t|..] == t
  }

  /** Two different triples over these versions and steps share one key. */
  ghost predicate Collides(v: string, s: string, w: string, t: string) {
    exists p, q :: SharedKey(p, v, s, q, w, t)
  }

  predicate SharedKey(p: string, v: string, s: string, q: string, w: string, t: string) {
    && IdempotencyKey(p, v, s).Some?
    && IdempotencyKey(p, v, s) == IdempotencyKey(q, w, t)
    && !(p == q && v == w && s == t)
  }

  lemma SharedSuffix(p: string, a: string, q: string, b: string)
    requires p + a == q + b
    ensures EndsWith(a, b) || EndsWith(b, a)
    ensures a == b ==> p == q
  {
    var k := p + a;
    if |a| >= |b| {
      assert a[|a| - |b|..] == k[|k| - |b|..] == b;
    } else {
      assert b[|b| - |a|..] == k[|k| - |a|..] == a;
    }
    assert |a| == |b| ==> p == k[..|p|] == q;
  }

  /** The process ID of the shorter suffix absorbs the rest of the longer one. */
  lemma EndingCollides(v: string, s: string, w: string, t: string)
    requires v != "" && s != "" && w != "" && t != "" && !(v == w && s == t)
    requires EndsWith(KeySuffix(v, s), KeySuffix(w, t))
    ensures SharedKey("p", v, s, "p" + KeySuffix(v, s)[..|KeySuffix(v, s)| - |KeySuffix(w, t)|], w, t)
  {
    var a, b := KeySuffix(v, s), KeySuffix(w, t);
    var x := a[..|a| - |b|];
    assert a == x + b;
    assert KeyText("p", v, s) == "p" + a == "p" + x + b == KeyText("p" + x, w, t);
  }

  /**
   For any two pairs of a version and a step: some process IDs give them one key and different
   triples if and only if the pairs differ and one suffix ends with the other.
   */
  lemma KeysCollideExactly(v: string, s: string, w: string, t: string)
    requires v != "" && s != "" && w != "" && t != ""
    ensures Collides(v, s, w, t)
       <==> !(v == w && s == t)
            && (EndsWith(KeySuffix(v, s), KeySuffix(w, t)) || EndsWith(KeySuffix(w, t), KeySuffix(v, s)))
  {
    var a, b := KeySuffix(v, s), KeySuffix(w, t);
    forall p, q | SharedKey(p, v, s, q, w, t)
      ensures !(v == w && s == t) && (EndsWith(a, b) || EndsWith(b, a))
    {
      assert KeyText(p, v, s) == p + a && KeyText(q, w, t) == q + b;
      SharedSuffix(p, a, q, b);
    }
    if !(v == w && s == t) && EndsWith(a, b) {
      EndingCollides(v, s, w, t);
    } else if !(v == w && s == t) && EndsWith(b, a) {
      EndingCollides(w, t, v, s);
      var p, q := "p" + b[..|b| - |a|], "p";
      assert SharedKey(p, v, s, q, w, t);
    }
  }

  /** A colon in the version is enough: two different triples with one key. */
  lemma ColonInVersionCollides()
    ensures IdempotencyKey("a", "b:c", "d") == IdempotencyKey("a:b", "c", "d") && "a" != "a:b"
  {
    assert KeyText("a", "b:c", "d") == "a:b:c:d" == KeyText("a:b", "c", "d");
  }

  // ---------- validation ----------

  predicate ResultValid(r: StepResult) {
    && r.stepID != "" && r.commandID != "" && r.idempotencyKey != "" && r.status in STEP_STATUSES
    && r.correlationID != "" && r.changeID != "" && r.auditID != "" && r.attempt != 0
    && r.startedAt != 0 && r.finishedAt != 0 && r.startedAt <= r.finishedAt
  }

  predicate Done(r: StepResult) {
    r.status == "completed" || r.status == "compensated" || r.status == "skipped"
  }

  predicate HeaderValid(c: Checkpoint) {
    && c.processID != "" && c.processType in STEP_ORDERS && c.processVersion == "v1" && c.state in PROCESS_STATES
    && c.accountID != 0 && c.expectedVersion != 0
    && c.version == (c.expectedVersion + 1) % TWO_TO_THE_64
    && c.correlationID != "" && c.stepOrder != [] && c.completedSteps.Some? && c.stepResults.Some? && c.updatedAt != 0
  }

  predicate Distinct(s: seq<string>) {
    forall i, j | 0 <= i < j < |s| :: s[i] != s[j]
  }

  predicate OrderValid(order: seq<string>) {
    "" !in order && Distinct(order)
  }

  /** A completed step is known, has a result that is done, and is listed once. */
  predicate CompletedValid(order: seq<string>, completed: seq<string>, results: map<string, StepResult>) {
    && Distinct(completed)
    && forall s | s in completed :: s in order && s in results && Done(results[s])
  }

  predicate ResultConsistent(c: Checkpoint, s: string, r: StepResult)
    requires HeaderValid(c)
  {
    && s in c.stepOrder && s == r.stepID && r.correlationID == c.correlationID
    && r.idempotencyKey == KeyText(c.processID, c.processVersion, s) && ResultValid(r)
    && (Done(r) <==> s in c.completedSteps.value)
  }

  predicate ValidCheckpoint(c: Checkpoint) {
    && HeaderValid(c)
    && c.stepOrder == STEP_ORDERS[c.processType]
    && OrderValid(c.stepOrder)
    && CompletedValid(c.stepOrder, c.completedSteps.value, c.stepResults.value)
    && (c.state !in TERMINAL_STATES ==>
        c.currentStepID != "" && c.currentStepID in c.stepOrder && c.currentStepID !in c.completedSteps.value)
    && (c.state == "completed" ==> |c.completedSteps.value| == |c.stepOrder|)
    && forall s | s in c.stepResults.value :: ResultConsistent(c, s, c.stepResults.value[s])
  }

  function Elements(s: seq<string>): set<string> {
    set x | x in s
  }

  method SameOrder(approved: seq<string>, order: seq<string>) returns (same: bool)
    ensures same == (approved == order)
  {
    if |approved| != |order| {
      return false;
    }
    for i := 0 to |approved|
      invariant forall k | 0 <= k < i :: approved[k] == order[k]
    {
      if approved[i] != order[i] {
        return false;
      }
    }
    return true;
  }

  /** Collects the step names, refusing an empty or repeated one. */
  method CollectOrder(order: seq<string>) returns (known: set<string>, ok: bool)
    ensures ok == OrderValid(order)
    ensures ok ==> known == Elements(order)
  {
    known := {};
    for i := 0 to |order|
      invariant OrderValid(order[..i]) && known == Elements(order[..i])
    {
      assert order[..i + 1] == order[..i] + [order[i]];
      if order[i] == "" || order[i] in known {
        return known, false;
      }
      known := known + {order[i]};
    }
    assert order[..|order|] == order;
    return known, true;
  }

  method CollectCompleted(order: seq<string>, known: set<string>, steps: seq<string>, results: map<string, StepResult>)
    returns (completed: set<string>, ok: bool)
    requires known == Elements(order)
    ensures ok == CompletedValid(order, steps, results)
    ensures ok ==> completed == Elements(steps) && |completed| == |steps|
  {
    completed := {};
    for i := 0 to |steps|
      invariant CompletedValid(order, steps[..i], results)
      invariant completed == Elements(steps[..i]) && |completed| == i
    {
      var s := steps[i];
      assert steps[..i + 1] == steps[..i] + [s];
      if s !in known || s in completed || s !in results || !Done(results[s]) {
        return completed, false;
      }
      completed := completed + {s};
    }
    assert steps[..|steps|] == steps;
    return completed, true;
  }

  method CheckResults(c: Checkpoint, known: set<string>, completed: set<string>) returns (ok: bool)
    requires HeaderValid(c) && known == Elements(c.stepOrder) && completed == Elements(c.completedSteps.value)
    ensures ok == forall s | s in c.stepResults.value :: ResultConsistent(c, s, c.stepResults.value[s])
  {
    var results := c.stepResults.value;
    var left := results.Keys;
    while left != {}
      invariant left <= results.Keys
      invariant forall s | s in results.Keys - left :: ResultConsistent(c, s, results[s])
      decreases |left|
    {
      var s :| s in left;
      var r := results[s];
      if s !in known || s != r.stepID || r.correlationID != c.correlationID
         || r.idempotencyKey != KeyText(c.processID, c.processVersion, s) || !ResultValid(r)
      {
        return false;
      }
      if Done(r) != (s in completed) {
        return false;
      }
      left := left - {s};
    }
    return true;
  }

  method Validate(c: Checkpoint) returns (ok: bool)
    ensures ok == ValidCheckpoint(c)
  {
    hide OrderValid, CompletedValid, ResultConsistent;
    if !HeaderValid(c) {
      return false;
    }
    var same := SameOrder(STEP_ORDERS[c.processType], c.stepOrder);
    if !same {
      return false;
    }
    var known, orderOk := CollectOrder(c.stepOrder);
    if !orderOk {
      return false;
    }
    var completed, completedOk := CollectCompleted(c.stepOrder, known, c.completedSteps.value, c.stepResults.value);
    if !completedOk {
      return false;
    }
    if c.state !in TERMINAL_STATES
       && (c.currentStepID == "" || c.currentStepID !in known || c.currentStepID in completed)
    {
      return false;
    }
    if c.state == "completed" && |completed| != |c.stepOrder| {
      return false;
    }
    ok := CheckResults(c, known, completed);
  }

  // ---------- what a valid checkpoint guarantees ----------

  lemma {:induction false} DistinctSize(s: seq<string>)
    ensures |Elements(s)| <= |s|
    ensures Distinct(s) ==> |Elements(s)| == |s|
  {
    if s == [] {
      assert Elements(s) == {};
    } else {
      var n := |s| - 1;
      DistinctSize(s[..n]);
      assert s == s[..n] + [s[n]];
      assert Elements(s) == Elements(s[..n]) + {s[n]};
      assert Distinct(s) ==> s[n] !in s[..n];
    }
  }

  lemma SubsetOfSameSize(a: set<string>, b: set<string>)
    requires a <= b && |a| >= |b|
    ensures a == b
  {
    assert |b| == |a| + |b - a| by {
      assert b == a + (b - a);
    }
    assert b - a == {};
  }

  /** The completed list is, without repetition, exactly the steps whose result is done. */
  lemma CompletedAreTheDoneSteps(c: Checkpoint)
    requires ValidCheckpoint(c)
    ensures Distinct(c.completedSteps.value)
    ensures Elements(c.completedSteps.value)
         == set s | s in c.stepResults.value && Done(c.stepResults.value[s])
  {
  }

  /** A completed process has a done result for every step of its approved order. */
  lemma CompletedMeansEveryStepDone(c: Checkpoint, s: string)
    requires ValidCheckpoint(c) && c.state == "completed" && s in STEP_ORDERS[c.processType]
    ensures s in c.stepResults.value && Done(c.stepResults.value[s])
  {
    DistinctSize(c.stepOrder);
    DistinctSize(c.completedSteps.value);
    SubsetOfSameSize(Elements(c.completedSteps.value), Elements(c.stepOrder));
    assert s in Elements(c.stepOrder);
  }

  /** A process that may resume has an unfinished step: the list is strictly shorter than the order. */
  lemma ResumableHasWorkLeft(c: Checkpoint)
    requires ValidCheckpoint(c) && c.state !in TERMINAL_STATES
    ensures |c.completedSteps.value| < |c.stepOrder|
  {
    var done := Elements(c.completedSteps.value);
    DistinctSize(c.stepOrder);
    DistinctSize(c.completedSteps.value);
    assert done <= Elements(c.stepOrder) - {c.currentStepID};
    if |done| >= |Elements(c.stepOrder) - {c.currentStepID}| {
      SubsetOfSameSize(done, Elements(c.stepOrder) - {c.currentStepID});
    } else {
      SmallerSubset(done, Elements(c.stepOrder) - {c.currentStepID});
    }
  }

  lemma SmallerSubset(a: set<string>, b: set<string>)
    requires a <= b
    ensures |a| <= |b|
  {
    assert b == a + (b - a);
  }

  lemma DeletionStepsAreColonFree(s: string)
    requires s in STEP_ORDERS["account_deletion"]
    ensures ColonFree(s)
  {
  }

  lemma ApprovedStepsAreColonFree(processType: string, s: string)
    requires processType in STEP_ORDERS && s in STEP_ORDERS[processType]
    ensures ColonFree(s)
  {
    if processType == "account_deletion" {
      DeletionStepsAreColonFree(s);
    }
  }

  /** Step keys of valid checkpoints identify process and step, whatever the process IDs contain. */
  lemma StepKeysIdentify(c: Checkpoint, d: Checkpoint, s: string, t: string)
    requires ValidCheckpoint(c) && ValidCheckpoint(d) && s in c.stepResults.value && t in d.stepResults.value
    requires c.stepResults.value[s].idempotencyKey == d.stepResults.value[t].idempotencyKey
    ensures c.processID == d.processID && s == t
  {
    assert ResultConsistent(c, s, c.stepResults.value[s]) && ResultConsistent(d, t, d.stepResults.value[t]);
    ApprovedStepsAreColonFree(c.processType, s);
    ApprovedStepsAreColonFree(d.processType, t);
    KeysInjective(c.processID, "v1", s, d.processID, "v1", t);
  }

  /** The version grows by one, except that the largest 64-bit version is followed by 0. */
  lemma VersionSuccessor(c: Checkpoint)
    requires ValidCheckpoint(c) && c.expectedVersion < TWO_TO_THE_64
    ensures c.version > c.expectedVersion <==> c.expectedVersion != TWO_TO_THE_64 - 1
  {
  }

  const LARGEST := TWO_TO_THE_64 - 1

  const WRAPPED := Checkpoint(
    "p", "campaign_delivery", "v1", "created", "campaign", "c", 1, 0, LARGEST,
    ["campaign", "message"], Some([]), Some(map[]), 1)

  /** A valid checkpoint may follow the largest version with 0. */
  lemma VersionsWrap()
    ensures ValidCheckpoint(WRAPPED) && WRAPPED.expectedVersion == LARGEST && WRAPPED.version == 0
  {
    assert "campaign" in WRAPPED.stepOrder;
  }

  // ---------- state transitions ----------

  predicate TransitionValid(from: string, to: string) {
    from in PROCESS_STATES && to in PROCESS_STATES && from in TRANSITIONS && to in TRANSITIONS[from]
  }

  predicate History(states: seq<string>) {
    && states != [] && states[0] == "created"
    && forall i | 0 <= i < |states| - 1 :: TransitionValid(states[i], states[i + 1])
  }

  /** Over every history a terminal state is the last one, and the initial state never returns. */
  lemma TerminalStatesAreFinal(states: seq<string>, i: nat)
    requires History(states) && i < |states|
    ensures states[i] in TERMINAL_STATES ==> i == |states| - 1
    ensures states[i] == "created" ==> i == 0
    ensures states[i] == "completed" ==> states[i - 1] == "running"
  {
    assert i < |states| - 1 ==> TransitionValid(states[i], states[i + 1]);
    assert i > 0 ==> TransitionValid(states[i - 1], states[i]);
  }

  /** The moves between states. */
  const MOVES: set<(string, string)> := {
    ("created", "running"), ("created", "cancelled"),
    ("running", "waiting"), ("running", "compensating"), ("running", "completed"), ("running", "partially_completed"),
    ("running", "failed"), ("running", "cancelled"), ("running", "manual_action_required"),
    ("waiting", "running"), ("waiting", "compensating"), ("waiting", "failed"), ("waiting", "cancelled"),
    ("waiting", "manual_action_required"),
    ("compensating", "failed"), ("compensating", "partially_completed"), ("compensating", "manual_action_required"),
    ("manual_action_required", "running"), ("manual_action_required", "compensating"),
    ("manual_action_required", "failed"), ("manual_action_required", "cancelled")}

  lemma MovesAre(from: string, to: string)
    ensures TransitionValid(from, to) <==> (from, to) in MOVES
  {
  }

  /** The terminal states are those without a move; the others go on. */
  lemma TerminalMeansNoMove(state: string)
    requires state in PROCESS_STATES
    ensures state in TERMINAL_STATES <==> forall to :: !TransitionValid(state, to)
    ensures state in TERMINAL_STATES <==> state in {"completed", "partially_completed", "failed", "cancelled"}
  {
    if state !in TERMINAL_STATES {
      var next := EveryHistoryCanEnd(state);
      assert TransitionValid(state, next[0]);
    }
  }

  /** From every state that is not terminal a history can go on to "failed" or "cancelled" in at most two moves. */
  lemma EveryHistoryCanEnd(state: string) returns (next: seq<string>)
    requires state in PROCESS_STATES && state !in TERMINAL_STATES
    ensures 1 <= |next| <= 2 && next[|next| - 1] in {"failed", "cancelled"}
    ensures TransitionValid(state, next[0]) && (|next| == 2 ==> TransitionValid(next[0], next[1]))
  {
    if state == "created" {
      next := ["cancelled"];
    } else {
      next := ["failed"];
    }
  }

  // ---------- every check is needed, and they can all be met ----------

  lemma DoneStatuses(r: StepResult)
    ensures Done(r) <==> r.status in {"completed", "compensated", "skipped"}
    ensures r.status in STEP_STATUSES ==>
      (!Done(r) <==> r.status in {"accepted", "failed", "timed_out", "result_unknown"})
  {
  }

  /** Statuses that count as done, and statuses that never do. */
  lemma UnfinishedIsNeverListed(c: Checkpoint, s: string)
    requires ValidCheckpoint(c) && s in c.stepResults.value
    ensures var status := c.stepResults.value[s].status;
      && (status in {"completed", "compensated", "skipped"} <==> s in c.completedSteps.value)
      && (status in {"accepted", "failed", "timed_out", "result_unknown"} <==> s !in c.completedSteps.value)
  {
    var r := c.stepResults.value[s];
    hide Done, CompletedValid, OrderValid;
    assert ResultConsistent(c, s, r);
    DoneStatuses(r);
  }

  /** No field of a valid checkpoint's header may be blank or out of step. */
  lemma EveryHeaderFieldCounts(c: Checkpoint)
    requires ValidCheckpoint(c)
    ensures !ValidCheckpoint(c.(processID := "")) && !ValidCheckpoint(c.(processType := "unknown"))
    ensures !ValidCheckpoint(c.(processVersion := "v2")) && !ValidCheckpoint(c.(state := "unknown"))
    ensures !ValidCheckpoint(c.(correlationID := "")) && !ValidCheckpoint(c.(accountID := 0))
    ensures !ValidCheckpoint(c.(expectedVersion := 0)) && !ValidCheckpoint(c.(version := c.version + 1))
    ensures !ValidCheckpoint(c.(completedSteps := None)) && !ValidCheckpoint(c.(stepResults := None))
    ensures !ValidCheckpoint(c.(updatedAt := 0)) && !ValidCheckpoint(c.(stepOrder := []))
    ensures c.state !in TERMINAL_STATES ==> !ValidCheckpoint(c.(currentStepID := ""))
    ensures c.state !in TERMINAL_STATES ==> c.currentStepID in STEP_ORDERS[c.processType]
    ensures c.state !in TERMINAL_STATES ==> c.currentStepID !in c.completedSteps.value
  {
  }

  /** No field of a step's result may be blank, it may not end before it starts, and it has one of seven statuses. */
  lemma EveryResultFieldCounts(r: StepResult, status: string)
    requires ResultValid(r)
    ensures ResultValid(r.(status := status)) <==>
      status in {"accepted", "completed", "failed", "timed_out", "result_unknown", "compensated", "skipped"}
    ensures !ResultValid(r.(stepID := "")) && !ResultValid(r.(commandID := ""))
    ensures !ResultValid(r.(idempotencyKey := ""))
    ensures !ResultValid(r.(status := "unknown")) && !ResultValid(r.(correlationID := ""))
    ensures !ResultValid(r.(changeID := "")) && !ResultValid(r.(auditID := "")) && !ResultValid(r.(attempt := 0))
    ensures !ResultValid(r.(startedAt := 0)) && !ResultValid(r.(finishedAt := 0))
    ensures !ResultValid(r.(finishedAt := r.startedAt - 1))
  {
  }

  /** In a valid checkpoint every result is valid, known, and carries its own step, key and correlation. */
  lemma ResultsBelong(c: Checkpoint, s: string)
    requires ValidCheckpoint(c) && s in c.stepResults.value
    ensures var r := c.stepResults.value[s];
      && ResultValid(r) && s in STEP_ORDERS[c.processType] && r.stepID == s && r.correlationID == c.correlationID
      && IdempotencyKey(c.processID, c.processVersion, s) == Some(r.idempotencyKey)
  {
    assert ResultConsistent(c, s, c.stepResults.value[s]);
  }

  function CompletedResult(s: string): StepResult {
    StepResult(s, "command", KeyText("p", "v1", s), "completed", "c", "change", "audit", 1, 1, 1)
  }

  /** The process of a type with all its steps completed. */
  function AllCompleted(processType: string): Checkpoint
    requires processType in STEP_ORDERS
  {
    var order := STEP_ORDERS[processType];
    Checkpoint("p", processType, "v1", "completed", "", "c", 1, 2, 1, order, Some(order),
               Some(map s | s in order :: CompletedResult(s)), 1)
  }

  lemma OrdersAreValid(processType: string)
    requires processType in STEP_ORDERS
    ensures STEP_ORDERS[processType] != [] && OrderValid(STEP_ORDERS[processType])
  {
    if processType == "account_deletion" {
      DeletionOrderIsValid();
    }
  }

  /** A number that tells the deletion steps apart. */
  function Mark(s: string): int
    requires |s| > 2
  {
    1000 * |s| + 7 * (s[0] as int) + s[2] as int
  }

  const DELETION_MARKS: seq<int> := [
    8909, 6778, 8790, 8803, 5863, 13803, 8878, 7911, 9860,
    7901, 13886, 9802, 8774, 9910, 6902, 8895, 5779, 8802]

  lemma DeletionMarks(i: nat)
    requires i < 18
    ensures |STEP_ORDERS["account_deletion"]| == 18
    ensures var s := STEP_ORDERS["account_deletion"][i]; |s| > 2 && Mark(s) == DELETION_MARKS[i]
  {
  }

  lemma MarkedOrderIsValid(order: seq<string>)
    requires |order| == 18 && forall i | 0 <= i < 18 :: |order[i]| > 2 && Mark(order[i]) == DELETION_MARKS[i]
    ensures OrderValid(order)
  {
    forall i, k | 0 <= k < i < 18
      ensures order[k] != order[i]
    {
      assert DELETION_MARKS[k] != DELETION_MARKS[i];
    }
  }

  lemma DeletionOrderIsValid()
    ensures OrderValid(STEP_ORDERS["account_deletion"]) && |STEP_ORDERS["account_deletion"]| == 18
  {
    DeletionMarks(0);
    var order := STEP_ORDERS["account_deletion"];
    forall i | 0 <= i < 18
      ensures |order[i]| > 2 && Mark(order[i]) == DELETION_MARKS[i]
    {
      DeletionMarks(i);
    }
    hide STEP_ORDERS;
    MarkedOrderIsValid(order);
  }

  /** Every type of process has a valid completed checkpoint. */
  lemma EveryProcessCanComplete(processType: string)
    requires processType in STEP_ORDERS
    ensures ValidCheckpoint(AllCompleted(processType))
  {
    OrdersAreValid(processType);
    hide OrderValid;
    var c := AllCompleted(processType);
    var order := STEP_ORDERS[processType];
    assert Distinct(order) by {
      DistinctOrder(order);
    }
    forall s | s in c.stepResults.value
      ensures ResultConsistent(c, s, c.stepResults.value[s])
    {
      NonEmptyStep(order, s);
    }
  }

  lemma DistinctOrder(order: seq<string>)
    requires OrderValid(order)
    ensures Distinct(order)
  {
  }

  lemma NonEmptyStep(order: seq<string>, s: string)
    requires OrderValid(order) && s in order
    ensures s != ""
  {
  }
}
