/** Permission grants: the expansion of interface labels, normalisation, and matching. */
module Permissions {

  const SERVICE_LABELS: map<string, seq<string>> := map[
    "会话:查看" := ["conversation_manage", "conversation_participating_manage", "conversation_unassigned_manage",
              "conversation_view"],
    "会话:处理" := ["conversation_manage", "conversation_participating_manage", "conversation_unassigned_manage"],
    "会话:管理" := ["conversation_manage", "conversation_participating_manage", "conversation_unassigned_manage"],
    "会话:导出" := ["conversation_manage", "conversation_export"],
    "客户:查看" := ["contact_manage", "contact_view"],
    "客户:处理" := ["contact_manage"],
    "客户:管理" := ["contact_manage"],
    "客户:导出" := ["contact_manage", "contact_export"],
    "工单:查看" := ["ticket_view"],
    "工单:处理" := ["ticket_manage"],
    "工单:管理" := ["ticket_manage"],
    "工单:导出" := ["ticket_manage"]
  ]

  const INSIGHT_LABELS: map<string, seq<string>> := map[
    "自动化:查看" := ["automation_manage", "automation_view"],
    "自动化:处理" := ["automation_manage"],
    "自动化:管理" := ["automation_manage"],
    "报表:查看" := ["report_view", "report_manage"],
    "报表:处理" := ["report_view", "report_manage"],
    "报表:管理" := ["report_view", "report_manage"],
    "报表:导出" := ["report_view", "report_manage"],
    "知识:查看" := ["settings_manage", "knowledge_base_manage", "knowledge_view"],
    "知识:处理" := ["settings_manage", "knowledge_base_manage", "knowledge_manage"],
    "知识:管理" := ["settings_manage", "knowledge_base_manage", "knowledge_manage"]
  ]

  const WORKSPACE_LABELS: map<string, seq<string>> := map[
    "AI 助手:查看" := ["ai_manage"],
    "AI 助手:处理" := ["ai_manage"],
    "AI 助手:管理" := ["ai_manage"],
    "集成:查看" := ["settings_manage", "inbox_manage"],
    "集成:处理" := ["settings_manage", "inbox_manage"],
    "集成:管理" := ["settings_manage", "inbox_manage"],
    "开放接口:查看" := ["settings_manage"],
    "开放接口:处理" := ["settings_manage"],
    "开放接口:管理" := ["settings_manage"],
    "工作区设置:查看" := ["settings_manage"],
    "工作区设置:处理" := ["settings_manage"],
    "工作区设置:管理" := ["settings_manage", "agent_manage", "custom_role_manage", "inbox_manage", "team_manage",
                 "billing_manage", "audit_manage"]
  ]

  const QUALITY_LABELS: map<string, seq<string>> := map[
    "质检:查看" := ["qa_view"],
    "质检:处理" := ["qa_evaluate", "qa_appeal"],
    "质检:管理" := ["qa_manage", "qa_appeal_review", "qa_evaluate", "qa_appeal", "qa_view"],
    "质检:导出" := ["qa_view"],
    "质检:评分" := ["qa_evaluate"],
    "质检:申诉" := ["qa_appeal"],
    "质检:复核" := ["qa_appeal_review"]
  ]

  /** Interface labels and the backend permissions each stands for. */
  const EXPANSIONS: map<string, seq<string>> :=
    SERVICE_LABELS + INSIGHT_LABELS + WORKSPACE_LABELS + QUALITY_LABELS

  // ---------- white space ----------

  /** Unicode White_Space. */
  predicate IsSpace(c: char) {
    || '\t' <= c <= '\r' || c == ' ' || c == '\U{0085}' || c == '\U{00A0}' || c == '\U{1680}'
    || '\U{2000}' <= c <= '\U{200A}' || c == '\U{2028}' || c == '\U{2029}' || c == '\U{202F}'
    || c == '\U{205F}' || c == '\U{3000}'
  }

  /** The characters with the White_Space property, by their numbers. */
  lemma SpacesAre(c: char)
    ensures IsSpace(c) <==>
      c as int in {9, 10, 11, 12, 13, 32, 133, 160, 5760, 8192, 8193, 8194, 8195, 8196, 8197, 8198, 8199, 8200, 8201,
                   8202, 8232, 8233, 8239, 8287, 12288}
  {
  }

  predicate Trimmed(s: string) {
    s == "" || (!IsSpace(s[0]) && !IsSpace(s[|s| - 1]))
  }

  function TrimLeft(s: string): (t: string)
    ensures t == "" || !IsSpace(t[0])
    ensures s == "" || !IsSpace(s[0]) ==> t == s
  {
    if s != "" && IsSpace(s[0]) then TrimLeft(s[1..]) else s
  }

  function TrimRight(s: string): (t: string)
    ensures t == "" || !IsSpace(t[|t| - 1])
    ensures t <= s
    ensures s == "" || !IsSpace(s[|s| - 1]) ==> t == s
  {
    if s != "" && IsSpace(s[|s| - 1]) then TrimRight(s[..|s| - 1]) else s
  }

  function Trim(s: string): (t: string)
    ensures Trimmed(t)
    ensures Trimmed(s) ==> t == s
  {
    TrimRight(TrimLeft(s))
  }

  predicate AllSpaces(s: string) {
    forall c | c in s :: IsSpace(c)
  }

  lemma {:induction false} TrimLeftDropsSpaces(s: string) returns (a: string)
    ensures s == a + TrimLeft(s) && AllSpaces(a)
  {
    if s != "" && IsSpace(s[0]) {
      a := TrimLeftDropsSpaces(s[1..]);
      a := [s[0]] + a;
    } else {
      a := "";
    }
  }

  lemma {:induction false} TrimRightDropsSpaces(s: string) returns (b: string)
    ensures s == TrimRight(s) + b && AllSpaces(b)
  {
    if s != "" && IsSpace(s[|s| - 1]) {
      b := TrimRightDropsSpaces(s[..|s| - 1]);
      b := b + [s[|s| - 1]];
    } else {
      b := "";
    }
  }

  /** Trimming removes white space at the ends and nothing else. */
  lemma TrimDropsOnlySpaces(s: string) returns (a: string, b: string)
    ensures s == a + Trim(s) + b && AllSpaces(a) && AllSpaces(b)
  {
    a := TrimLeftDropsSpaces(s);
    b := TrimRightDropsSpaces(TrimLeft(s));
    assert a + (Trim(s) + b) == a + Trim(s) + b;
  }

  // ---------- normalisation ----------

  function Expansion(p: string): seq<string> {
    if p in EXPANSIONS then EXPANSIONS[p] else []
  }

  function Add(acc: seq<string>, p: string): seq<string> {
    var q := Trim(p);
    if q == "" || q in acc then acc else acc + [q]
  }

  function AddAll(acc: seq<string>, ps: seq<string>): seq<string>
    decreases ps
  {
    if ps == [] then acc else AddAll(Add(acc, ps[0]), ps[1..])
  }

  /** One input token: itself, then whatever it stands for. */
  function Absorb(acc: seq<string>, p: string): seq<string> {
    if Trim(p) == "" then acc else AddAll(Add(acc, p), Expansion(Trim(p)))
  }

  function AbsorbAll(acc: seq<string>, ps: seq<string>): seq<string>
    decreases ps
  {
    if ps == [] then acc else AbsorbAll(Absorb(acc, ps[0]), ps[1..])
  }

  function Normalized(input: seq<string>): seq<string> {
    AbsorbAll([], input)
  }

  /** The variables the `add` closure shares with its loop. */
  class Normalizer {
    var seen: set<string>
    var result: seq<string>

    predicate Valid()
      reads this
    {
      seen == set p | p in result
    }

    constructor ()
      ensures Valid() && result == []
    {
      seen, result := {}, [];
    }

    method AddToken(p: string)
      requires Valid()
      modifies this
      ensures Valid() && result == Add(old(result), p)
    {
      var q := Trim(p);
      if q != "" && q !in seen {
        seen := seen + {q};
        result := result + [q];
      }
    }

    method AddExpansion(ps: seq<string>)
      requires Valid()
      modifies this
      ensures Valid() && result == AddAll(old(result), ps)
    {
      assert ps[0..] == ps;
      for i := 0 to |ps|
        invariant Valid() && AddAll(result, ps[i..]) == AddAll(old(result), ps)
      {
        assert ps[i..][1..] == ps[i + 1..];
        AddToken(ps[i]);
      }
    }
  }

  method NormalizePermissions(input: seq<string>) returns (result: seq<string>)
    ensures result == Normalized(input)
  {
    var n := new Normalizer();
    assert input[0..] == input;
    for i := 0 to |input|
      invariant fresh(n) && n.Valid() && AbsorbAll(n.result, input[i..]) == Normalized(input)
    {
      assert input[i..][1..] == input[i + 1..];
      var p := Trim(input[i]);
      if p != "" {
        n.AddToken(p);
        if p in EXPANSIONS {
          n.AddExpansion(EXPANSIONS[p]);
        }
      }
    }
    return n.result;
  }

  // ---------- the table ----------

  /** Labels end in a letter beyond ASCII; backend permissions start and end in a lower-case ASCII one. */
  predicate LabelShaped(s: string) {
    s != "" && s[|s| - 1] > 'z'
  }

  predicate BackendShaped(s: string) {
    s != "" && 'a' <= s[0] <= 'z' && 'a' <= s[|s| - 1] <= 'z'
  }

  predicate TableShaped(m: map<string, seq<string>>) {
    forall k | k in m :: LabelShaped(k) && forall v | v in m[k] :: BackendShaped(v)
  }

  lemma ServiceShaped()
    ensures TableShaped(SERVICE_LABELS)
  {
  }

  lemma InsightShaped()
    ensures TableShaped(INSIGHT_LABELS)
  {
  }

  lemma WorkspaceShaped()
    ensures TableShaped(WORKSPACE_LABELS)
  {
  }

  lemma QualityShaped()
    ensures TableShaped(QUALITY_LABELS)
  {
  }

  lemma MergedShaped(m: map<string, seq<string>>, n: map<string, seq<string>>)
    requires TableShaped(m) && TableShaped(n)
    ensures TableShaped(m + n)
  {
  }

  lemma ExpansionsShaped()
    ensures TableShaped(EXPANSIONS)
  {
    ServiceShaped();
    InsightShaped();
    WorkspaceShaped();
    QualityShaped();
    hide TableShaped;
    MergedShaped(SERVICE_LABELS, INSIGHT_LABELS);
    MergedShaped(SERVICE_LABELS + INSIGHT_LABELS, WORKSPACE_LABELS);
    MergedShaped(SERVICE_LABELS + INSIGHT_LABELS + WORKSPACE_LABELS, QUALITY_LABELS);
  }

  lemma RowIsFlat(m: map<string, seq<string>>, p: string, v: string)
    requires TableShaped(m) && p in m && v in m[p]
    ensures Trimmed(v) && v != "" && v !in m
  {
    assert BackendShaped(v);
    assert v in m ==> LabelShaped(v);
  }

  /** What a label stands for is trimmed and stands for nothing further. */
  lemma ExpansionsAreFlat(p: string, v: string)
    requires v in Expansion(p)
    ensures Trimmed(v) && v != "" && Expansion(v) == []
  {
    hide TableShaped, Trimmed;
    ExpansionsShaped();
    RowIsFlat(EXPANSIONS, p, v);
  }

  // ---------- what normalisation computes ----------

  /** The tokens a normalisation pass meets, in order. */
  function Tokens(ps: seq<string>): seq<string>
    decreases ps
  {
    if ps == [] then [] else
      var q := Trim(ps[0]);
      (if q == "" then [] else [q] + Expansion(q)) + Tokens(ps[1..])
  }

  /** A sequence without the elements that occur earlier in it. */
  function FirstOccurrences(s: seq<string>): (r: seq<string>)
    ensures forall x :: x in r <==> x in s
    ensures forall i, j :: 0 <= i < j < |r| ==> r[i] != r[j]
  {
    if s == [] then [] else
      var last := |s| - 1;
      var front := FirstOccurrences(s[..last]);
      if s[last] in s[..last] then front else front + [s[last]]
  }

  predicate Clean(ps: seq<string>) {
    forall p | p in ps :: Trimmed(p) && p != ""
  }

  lemma {:induction false} AddAllAppend(acc: seq<string>, ps: seq<string>, qs: seq<string>)
    ensures AddAll(acc, ps + qs) == AddAll(AddAll(acc, ps), qs)
    decreases ps
  {
    hide Add, Trim;
    if ps == [] {
      assert ps + qs == qs;
    } else {
      AddAllAppend(Add(acc, ps[0]), ps[1..], qs);
      assert (ps + qs)[1..] == ps[1..] + qs;
    }
  }

  lemma {:induction false} AbsorbAllAppend(acc: seq<string>, ps: seq<string>, qs: seq<string>)
    ensures AbsorbAll(acc, ps + qs) == AbsorbAll(AbsorbAll(acc, ps), qs)
    decreases ps
  {
    hide Absorb;
    if ps == [] {
      assert ps + qs == qs;
    } else {
      AbsorbAllAppend(Absorb(acc, ps[0]), ps[1..], qs);
      assert (ps + qs)[1..] == ps[1..] + qs;
    }
  }

  lemma AbsorbIsAddAll(acc: seq<string>, p: string)
    requires Trim(p) != ""
    ensures Absorb(acc, p) == AddAll(acc, [Trim(p)] + Expansion(Trim(p)))
  {
    hide Expansion, Trim;
    var q := Trim(p);
    assert ([q] + Expansion(q))[1..] == Expansion(q);
  }

  /** Absorbing token by token adds the flat list of tokens. */
  lemma {:induction false} AbsorbAllIsAddAll(acc: seq<string>, ps: seq<string>)
    ensures AbsorbAll(acc, ps) == AddAll(acc, Tokens(ps))
    decreases ps
  {
    hide Expansion, Trim, Absorb;
    if ps != [] {
      var q := Trim(ps[0]);
      AbsorbAllIsAddAll(Absorb(acc, ps[0]), ps[1..]);
      if q == "" {
        AbsorbNothing(acc, ps[0]);
        assert Tokens(ps) == Tokens(ps[1..]);
      } else {
        AbsorbIsAddAll(acc, ps[0]);
        AddAllAppend(acc, [q] + Expansion(q), Tokens(ps[1..]));
      }
    }
  }

  lemma AbsorbNothing(acc: seq<string>, p: string)
    requires Trim(p) == ""
    ensures Absorb(acc, p) == acc
  {
  }

  lemma {:induction false} TokensAreClean(ps: seq<string>)
    ensures Clean(Tokens(ps))
  {
    hide Expansion, Trim, Trimmed;
    if ps != [] {
      var q := Trim(ps[0]);
      TokensAreClean(ps[1..]);
      forall v | v in Expansion(q)
        ensures Trimmed(v) && v != ""
      {
        ExpansionsAreFlat(q, v);
      }
    }
  }

  lemma AddKeepsFirsts(before: seq<string>, q: string)
    requires Trimmed(q) && q != ""
    ensures Add(FirstOccurrences(before), q) == FirstOccurrences(before + [q])
  {
    hide Trimmed, Trim;
    assert (before + [q])[..|before|] == before;
  }

  lemma {:induction false} AddAllKeepsFirsts(before: seq<string>, ts: seq<string>)
    requires Clean(ts)
    ensures AddAll(FirstOccurrences(before), ts) == FirstOccurrences(before + ts)
    decreases ts
  {
    hide Add, Trim, Trimmed, FirstOccurrences;
    if ts == [] {
      assert before + ts == before;
    } else {
      AddKeepsFirsts(before, ts[0]);
      AddAllKeepsFirsts(before + [ts[0]], ts[1..]);
      assert before + [ts[0]] + ts[1..] == before + ts;
    }
  }

  /** Normalising keeps the first occurrence of every token and of everything it stands for, in order. */
  lemma NormalizedIsFirstOccurrences(input: seq<string>)
    ensures Normalized(input) == FirstOccurrences(Tokens(input))
  {
    hide AddAll, AbsorbAll;
    AbsorbAllIsAddAll([], input);
    TokensAreClean(input);
    AddAllKeepsFirsts([], Tokens(input));
    assert [] + Tokens(input) == Tokens(input);
  }

  lemma {:induction false} TokensCame(ps: seq<string>, x: string)
    ensures x in Tokens(ps) <==> exists p | p in ps :: Stands(p, x)
  {
    hide Expansion, Trim, Trimmed;
    if ps != [] {
      TokensCame(ps[1..], x);
      assert ps == [ps[0]] + ps[1..];
      assert x in Tokens(ps) <==> Stands(ps[0], x) || x in Tokens(ps[1..]);
    }
  }

  /** x is the trimmed token p itself or something it stands for. */
  predicate Stands(p: string, x: string) {
    Trim(p) != "" && (x == Trim(p) || x in Expansion(Trim(p)))
  }

  /** The result has no duplicate and holds exactly the trimmed tokens and what they stand for. */
  lemma NormalizedHoldsExactly(input: seq<string>, x: string)
    ensures x in Normalized(input) <==> exists p | p in input :: Stands(p, x)
    ensures forall i, j :: 0 <= i < j < |Normalized(input)| ==> Normalized(input)[i] != Normalized(input)[j]
    ensures Clean(Normalized(input))
  {
    hide Tokens, Normalized, Stands, Trimmed;
    NormalizedIsFirstOccurrences(input);
    TokensCame(input, x);
    TokensAreClean(input);
  }

  // ---------- normalising twice ----------

  /** With every token, everything it stands for. */
  predicate Closed(acc: seq<string>) {
    forall p, v | p in acc && v in Expansion(p) :: v in acc
  }

  lemma {:induction false} AddAllAdds(acc: seq<string>, ps: seq<string>) returns (b: seq<string>)
    requires Clean(ps)
    ensures AddAll(acc, ps) == acc + b
    ensures forall x | x in b :: x in ps
    ensures forall x | x in ps :: x in acc + b
    decreases ps
  {
    hide Trim, Trimmed;
    if ps == [] {
      b := [];
    } else {
      var q := ps[0];
      assert Trim(q) == q;
      b := AddAllAdds(Add(acc, q), ps[1..]);
      if q !in acc {
        assert acc + [q] + b == acc + ([q] + b);
        b := [q] + b;
      }
      assert ps == [q] + ps[1..];
    }
  }

  lemma {:induction false} AddAllPresent(acc: seq<string>, ps: seq<string>)
    requires Clean(ps) && forall p | p in ps :: p in acc
    ensures AddAll(acc, ps) == acc
    decreases ps
  {
    hide Trim, Trimmed;
    if ps != [] {
      assert ps[0] in ps;
      assert Trim(ps[0]) == ps[0];
      assert Add(acc, ps[0]) == acc;
      AddAllPresent(acc, ps[1..]);
    }
  }

  lemma ExpansionIsClean(p: string)
    ensures Clean(Expansion(p))
  {
    hide Expansion, Trimmed;
    forall v | v in Expansion(p)
      ensures Trimmed(v) && v != ""
    {
      ExpansionsAreFlat(p, v);
    }
  }

  lemma AbsorbPresent(acc: seq<string>, p: string)
    requires Trimmed(p) && p in acc && forall v | v in Expansion(p) :: v in acc
    ensures Absorb(acc, p) == acc
  {
    hide Expansion, Trim, Trimmed, AddAll;
    assert Trim(p) == p;
    ExpansionIsClean(p);
    AddAllPresent(acc, Expansion(p));
  }

  lemma {:induction false} AbsorbAllFlat(acc: seq<string>, b: seq<string>)
    requires forall v | v in b :: Trimmed(v) && v in acc && Expansion(v) == []
    ensures AbsorbAll(acc, b) == acc
    decreases b
  {
    hide Expansion, Trim, Trimmed, Absorb;
    if b != [] {
      assert b[0] in b;
      AbsorbPresent(acc, b[0]);
      AbsorbAllFlat(acc, b[1..]);
    }
  }

  /** A new token lands at the end, followed by flat tokens. */
  lemma AbsorbNew(acc: seq<string>, p: string) returns (b: seq<string>)
    requires Trim(p) != "" && Trim(p) !in acc
    ensures Absorb(acc, p) == acc + [Trim(p)] + b
    ensures forall v | v in b :: v in Expansion(Trim(p))
    ensures forall v | v in Expansion(Trim(p)) :: v in Absorb(acc, p)
  {
    hide Expansion, Trim, Trimmed, AddAll;
    ExpansionIsClean(Trim(p));
    b := AddAllAdds(acc + [Trim(p)], Expansion(Trim(p)));
  }

  /** A result that another pass would reproduce and that is closed stays so after one more token. */
  lemma AbsorbKeepsStable(acc: seq<string>, p: string)
    requires AbsorbAll([], acc) == acc && Closed(acc)
    ensures AbsorbAll([], Absorb(acc, p)) == Absorb(acc, p) && Closed(Absorb(acc, p))
  {
    hide Expansion, Trim, Trimmed, Absorb;
    var q := Trim(p);
    if q == "" {
      AbsorbNothing(acc, p);
    } else if q in acc {
      AbsorbTrims(acc, p);
      AbsorbPresent(acc, q);
    } else {
      var b := AbsorbNew(acc, p);
      var all := Absorb(acc, p);
      forall v | v in b
        ensures Trimmed(v) && Expansion(v) == []
      {
        ExpansionsAreFlat(q, v);
      }
      assert all == acc + ([q] + b);
      assert all == (acc + [q]) + b;
      AbsorbAllAppend([], acc + [q], b);
      AbsorbAllAppend([], acc, [q]);
      AbsorbTrims(acc, p);
      assert AbsorbAll(acc, [q]) == all;
      AbsorbAllFlat(all, b);
    }
  }

  lemma AbsorbTrims(acc: seq<string>, p: string)
    ensures Absorb(acc, Trim(p)) == Absorb(acc, p)
  {
    hide Expansion, AddAll, Trim;
    assert Trim(Trim(p)) == Trim(p);
  }

  lemma {:induction false} AbsorbAllStable(ps: seq<string>)
    ensures AbsorbAll([], AbsorbAll([], ps)) == AbsorbAll([], ps) && Closed(AbsorbAll([], ps))
  {
    hide Absorb, Expansion;
    if ps != [] {
      var last := |ps| - 1;
      assert ps == ps[..last] + [ps[last]];
      AbsorbAllStable(ps[..last]);
      AbsorbAllAppend([], ps[..last], [ps[last]]);
      AbsorbKeepsStable(AbsorbAll([], ps[..last]), ps[last]);
    }
  }

  /** Normalising twice changes nothing, not even the order. */
  lemma NormalizingIsIdempotent(input: seq<string>)
    ensures Normalized(Normalized(input)) == Normalized(input)
  {
    hide AbsorbAll;
    AbsorbAllStable(input);
  }
}
