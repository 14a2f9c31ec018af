/** Whether a set of permission grants allows a target permission. */
module RoleMatching {
  import opened Permissions

  /** The grant p, a trimmed non-empty token, allows the target. */
  predicate Grants(p: string, target: string) {
    || p == "administrator"
    || p == target
    || (p == "conversation_manage"
        && (target == "conversation_unassigned_manage" || target == "conversation_participating_manage"
            || target == "conversation_view"))
    || (p == "report_manage" && target == "report_view")
    || (p == "knowledge_base_manage"
        && (target == "settings_manage" || target == "knowledge_view" || target == "knowledge_manage"))
    || (target == "knowledge_base_manage" && (p == "knowledge_manage" || p == "settings_manage"))
    || (target == "ticket_view" && (p == "ticket_manage" || p == "qa_manage"))
    || (target == "qa_view" && (p == "qa_manage" || p == "qa_evaluate" || p == "qa_appeal_review"))
    || (target == "qa_evaluate" && p == "qa_manage")
    || (target == "qa_appeal" && p == "qa_manage")
    || (target == "qa_appeal_review" && p == "qa_manage")
    || (exists bp | bp in Expansion(p) :: LabelGrants(bp, target))
    || (target == "conversation_manage" && (p == "conversation_manage" || p == "conversation_view"))
  }

  /** One permission a label stands for allows the target. */
  predicate LabelGrants(bp: string, target: string) {
    || bp == target
    || (target == "ticket_view" && bp == "ticket_manage")
    || (target == "qa_view" && (bp == "qa_manage" || bp == "qa_evaluate"))
    || (bp == "conversation_manage"
        && (target == "conversation_unassigned_manage" || target == "conversation_participating_manage"))
  }

  /** The set of trimmed, non-empty grants. */
  function GrantSet(granted: seq<string>): set<string> {
    set p | p in granted && Trim(p) != "" :: Trim(p)
  }

  /** The target is empty or some grant allows it. */
  predicate Matches(granted: seq<string>, target: string) {
    target == "" || exists q | q in GrantSet(granted) :: Grants(q, target)
  }

  method LabelMatches(expansion: seq<string>, target: string) returns (found: bool)
    ensures found <==> exists bp | bp in expansion :: LabelGrants(bp, target)
  {
    for i := 0 to |expansion|
      invariant forall bp | bp in expansion[..i] :: !LabelGrants(bp, target)
    {
      var bp := expansion[i];
      assert bp in expansion;
      if bp == target {
        return true;
      }
      if target == "ticket_view" && bp == "ticket_manage" {
        return true;
      }
      if target == "qa_view" && (bp == "qa_manage" || bp == "qa_evaluate") {
        return true;
      }
      if bp == "conversation_manage"
        && (target == "conversation_unassigned_manage" || target == "conversation_participating_manage") {
        return true;
      }
    }
    assert expansion[..|expansion|] == expansion;
    return false;
  }

  method RoleMatchesPermission(granted: seq<string>, target: string) returns (allowed: bool)
    ensures allowed <==> Matches(granted, target)
  {
    hide Trim, Expansion, LabelGrants;
    if target == "" {
      return true;
    }
    for i := 0 to |granted|
      invariant forall q | q in GrantSet(granted[..i]) :: !Grants(q, target)
    {
      var p := Trim(granted[i]);
      assert GrantSet(granted[..i + 1]) == GrantSet(granted[..i]) + if p == "" then {} else {p} by {
        GrantSetGrows(granted, i);
      }
      if p == "" {
        continue;
      }
      assert p in GrantSet(granted);
      if p == "administrator" || p == target {
        return true;
      }
      if p == "conversation_manage" {
        if target == "conversation_unassigned_manage" || target == "conversation_participating_manage"
          || target == "conversation_view" {
          return true;
        }
      }
      if p == "report_manage" && target == "report_view" {
        return true;
      }
      if p == "knowledge_base_manage"
        && (target == "settings_manage" || target == "knowledge_view" || target == "knowledge_manage") {
        return true;
      }
      if target == "knowledge_base_manage" && (p == "knowledge_manage" || p == "settings_manage") {
        return true;
      }
      if target == "ticket_view" && (p == "ticket_manage" || p == "qa_manage") {
        return true;
      }
      if target == "qa_view" && (p == "qa_manage" || p == "qa_evaluate" || p == "qa_appeal_review") {
        return true;
      }
      if target == "qa_evaluate" && p == "qa_manage" {
        return true;
      }
      if target == "qa_appeal" && p == "qa_manage" {
        return true;
      }
      if target == "qa_appeal_review" && p == "qa_manage" {
        return true;
      }
      var found := LabelMatches(Expansion(p), target);
      if found {
        return true;
      }
      if target == "conversation_manage" && (p == "conversation_manage" || p == "conversation_view") {
        return true;
      }
    }
    assert granted[..|granted|] == granted;
    return false;
  }

  lemma GrantSetGrows(granted: seq<string>, i: nat)
    requires i < |granted|
    ensures GrantSet(granted[..i + 1])
         == GrantSet(granted[..i]) + if Trim(granted[i]) == "" then {} else {Trim(granted[i])}
  {
    hide Trim;
    assert granted[..i + 1] == granted[..i] + [granted[i]];
  }

  /** Only the set of trimmed grants matters, and a larger set never allows less. */
  lemma MatchingIsMonotone(few: seq<string>, many: seq<string>, target: string)
    requires GrantSet(few) <= GrantSet(many)
    ensures Matches(few, target) ==> Matches(many, target)
    ensures GrantSet(few) == GrantSet(many) ==> (Matches(few, target) <==> Matches(many, target))
  {
    hide Grants, Trim;
  }

  /** Normalising keeps every trimmed grant and adds what the labels among them stand for. */
  lemma NormalizedGrantSet(granted: seq<string>, x: string)
    ensures x in GrantSet(Normalized(granted))
       <==> x in GrantSet(granted) || exists p | p in GrantSet(granted) :: x in Expansion(p)
  {
    hide Trim, Trimmed, Expansion, Normalized;
    NormalizedHoldsExactly(granted, x);
    assert x in GrantSet(Normalized(granted)) <==> x in Normalized(granted);
    if p :| p in granted && Stands(p, x) {
      assert Trim(p) in GrantSet(granted);
    }
    if p :| p in GrantSet(granted) && x in Expansion(p) {
      var g :| g in granted && Trim(g) != "" && Trim(g) == p;
      assert Stands(g, x);
    }
    if x in GrantSet(granted) {
      var g :| g in granted && Trim(g) != "" && Trim(g) == x;
      assert Stands(g, x);
    }
  }

  /** Normalising never loses a match; it gains one exactly when something a label stands for allows the target. */
  lemma NormalizingOnlyAddsMatches(granted: seq<string>, target: string)
    ensures Matches(granted, target) ==> Matches(Normalized(granted), target)
    ensures Matches(Normalized(granted), target)
       <==> Matches(granted, target)
            || exists p, v | p in GrantSet(granted) && v in Expansion(p) :: Grants(v, target)
  {
    hide Trim, Expansion, Normalized, Grants, GrantSet;
    forall x
      ensures x in GrantSet(Normalized(granted))
         <==> x in GrantSet(granted) || exists p | p in GrantSet(granted) :: x in Expansion(p)
    {
      NormalizedGrantSet(granted, x);
    }
  }

  lemma ReviewLabel()
    ensures Trim("质检:复核") == "质检:复核"
    ensures Expansion("质检:复核") == ["qa_appeal_review"]
  {
    assert Trimmed("质检:复核");
  }

  lemma LoneGrant(p: string)
    requires Trim(p) == p != ""
    ensures GrantSet([p]) == {p}
  {
    hide Trim;
    assert p in [p];
  }

  /** A stored quality-review label does not allow the quality view; its normal form does. */
  lemma NormalizingCanAddAMatch()
    ensures !Matches(["质检:复核"], "qa_view")
    ensures Matches(Normalized(["质检:复核"]), "qa_view")
  {
    hide Trim, Expansion, Normalized, GrantSet;
    var review := "质检:复核";
    ReviewLabel();
    LoneGrant(review);
    assert !Grants(review, "qa_view") by {
      assert review[0] > 'z';
    }
    NormalizingOnlyAddsMatches([review], "qa_view");
    assert "qa_appeal_review" in Expansion(review);
    assert Grants("qa_appeal_review", "qa_view");
  }

  // ---------- the relation ----------

  /** Which permission allows which other one. */
  const ALLOWS: set<(string, string)> := {
    ("conversation_manage", "conversation_unassigned_manage"),
    ("conversation_manage", "conversation_participating_manage"),
    ("conversation_manage", "conversation_view"), ("conversation_view", "conversation_manage"),
    ("report_manage", "report_view"),
    ("knowledge_base_manage", "settings_manage"), ("settings_manage", "knowledge_base_manage"),
    ("knowledge_base_manage", "knowledge_view"),
    ("knowledge_base_manage", "knowledge_manage"), ("knowledge_manage", "knowledge_base_manage"),
    ("ticket_manage", "ticket_view"), ("qa_manage", "ticket_view"),
    ("qa_manage", "qa_view"), ("qa_evaluate", "qa_view"), ("qa_appeal_review", "qa_view"),
    ("qa_manage", "qa_evaluate"), ("qa_manage", "qa_appeal"), ("qa_manage", "qa_appeal_review")}

  /** Which permission a label stands for allows which other one. */
  const LABEL_ALLOWS: set<(string, string)> := {
    ("ticket_manage", "ticket_view"), ("qa_manage", "qa_view"), ("qa_evaluate", "qa_view"),
    ("conversation_manage", "conversation_unassigned_manage"),
    ("conversation_manage", "conversation_participating_manage")}

  lemma LabelGrantsAre(bp: string, target: string)
    ensures LabelGrants(bp, target) <==> bp == target || (bp, target) in LABEL_ALLOWS
  {
  }

  lemma DirectGrantsAre(p: string, target: string)
    requires Expansion(p) == []
    ensures Grants(p, target) <==> p == "administrator" || p == target || (p, target) in ALLOWS
  {
    hide Expansion, LabelGrants;
  }

  /** The conditions of the code are exactly this relation: identity, administration, two tables, and the labels. */
  lemma GrantsAre(p: string, target: string)
    ensures Grants(p, target) <==>
      || p == "administrator" || p == target || (p, target) in ALLOWS
      || exists bp | bp in Expansion(p) :: bp == target || (bp, target) in LABEL_ALLOWS
  {
    hide Expansion, LabelGrants;
    forall bp | bp in Expansion(p)
      ensures LabelGrants(bp, target) <==> bp == target || (bp, target) in LABEL_ALLOWS
    {
      LabelGrantsAre(bp, target);
    }
  }

  /** An administrator may do everything; everyone may do what is granted by name or by label. */
  lemma GrantedByNameOrLabel(granted: seq<string>, p: string, target: string)
    requires p in GrantSet(granted)
    requires p == "administrator" || p == target || target in Expansion(p)
    ensures Matches(granted, target)
  {
    hide Expansion, GrantSet, Trim;
    GrantsAre(p, target);
  }

  /** A token the tables do not know allows itself only. */
  lemma UnknownTokensAllowThemselves(p: string, target: string)
    requires p != "administrator" && Expansion(p) == [] && forall t :: (p, t) !in ALLOWS
    ensures Grants(p, target) <==> p == target
  {
    hide Grants;
    DirectGrantsAre(p, target);
  }
}
