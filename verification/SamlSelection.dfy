/**
 Two whole responses that the preflight admits although their signature's reference does not name
 the assertion: one declares a namespace prefix called ID, the other a namespace prefix called URI,
 and the selection of attributes finds the declaration first.
 */
module SamlSelection {
  import opened Prelude
  import opened SamlIds
  import opened SamlPreflight
  import opened SamlUniqueness
  import Spaces

  function Plain(key: string, value: string): Attr {
    Attr("", key, value)
  }

  function Node(ns: string, tag: string, attrs: seq<Attr>, children: seq<Element>): Element {
    Element(ns, tag, attrs, "", children)
  }

  function Leaf(ns: string, tag: string, attrs: seq<Attr>): Element {
    Node(ns, tag, attrs, [])
  }

  function Say(ns: string, tag: string, text: string): Element {
    Element(ns, tag, [], text, [])
  }

  const RSA_SHA256 := MORE_NS + "rsa-sha256"
  const SHA256 := ENC_NS + "sha256"

  const PROVIDER := Provider("acs", "idp", "certificate", 1, _ => Some(1), _ => None)

  const STATUS := Node(PROTOCOL_NS, "Status", [], [Leaf(PROTOCOL_NS, "StatusCode", [Plain("Value", STATUS_SUCCESS)])])

  const TRANSFORMS := Node(DSIG_NS, "Transforms", [],
    [Leaf(DSIG_NS, "Transform", [Plain("Algorithm", DSIG_NS + "enveloped-signature")]),
     Leaf(DSIG_NS, "Transform", [Plain("Algorithm", EXCLUSIVE_C14N)])])

  function Reference(uris: seq<Attr>): Element {
    Node(DSIG_NS, "Reference", uris,
         [TRANSFORMS, Leaf(DSIG_NS, "DigestMethod", [Plain("Algorithm", SHA256)]),
          Say(DSIG_NS, "DigestValue", "digest")])
  }

  function SignedInfo(uris: seq<Attr>): Element {
    Node(DSIG_NS, "SignedInfo", [],
         [Leaf(DSIG_NS, "CanonicalizationMethod", [Plain("Algorithm", EXCLUSIVE_C14N)]),
          Leaf(DSIG_NS, "SignatureMethod", [Plain("Algorithm", RSA_SHA256)]),
          Reference(uris)])
  }

  function Signature(uris: seq<Attr>): Element {
    Node(DSIG_NS, "Signature", [], [SignedInfo(uris), Say(DSIG_NS, "SignatureValue", "signature")])
  }

  const CONFIRMATION :=
    Node(ASSERTION_NS, "SubjectConfirmation", [], [Leaf(ASSERTION_NS, "SubjectConfirmationData", [])])

  const SUBJECT := Node(ASSERTION_NS, "Subject", [], [Say(ASSERTION_NS, "NameID", "name"), CONFIRMATION])

  const RESTRICTION := Node(ASSERTION_NS, "AudienceRestriction", [], [Say(ASSERTION_NS, "Audience", "sp")])

  const CONDITIONS := Node(ASSERTION_NS, "Conditions", [], [RESTRICTION])

  const CONTEXT := Node(ASSERTION_NS, "AuthnContext", [], [Say(ASSERTION_NS, "AuthnContextClassRef", "class")])

  const STATEMENT := Node(ASSERTION_NS, "AuthnStatement", [], [CONTEXT])

  /** The assertion with these identifiers, whose signature's reference has these URIs. */
  function Assertion(ids: seq<Attr>, uris: seq<Attr>): Element {
    Node(ASSERTION_NS, "Assertion", [Plain("Version", "2.0")] + ids,
         [Say(ASSERTION_NS, "Issuer", "idp"), Signature(uris), SUBJECT, CONDITIONS, STATEMENT])
  }

  function Response(ids: seq<Attr>, uris: seq<Attr>): Element {
    Node(PROTOCOL_NS, "Response",
         [Plain("ID", "r"), Plain("Version", "2.0"), Plain("Destination", "acs"), Plain("InResponseTo", "q"),
          Plain("IssueInstant", "2026-01-01T00:00:00Z")],
         [Say(ASSERTION_NS, "Issuer", "idp"), STATUS, Assertion(ids, uris)])
  }

  /** The assertion's one identifier is y, and the selected URI is the number sign and the selected ID. */
  predicate Selectable(ids: seq<Attr>, uris: seq<Attr>) {
    && (forall a | a in ids :: a.key == "ID" && (a.space == "xmlns" || a.space == ""))
    && OwnIds(ids) == [Plain("ID", "y")]
    && IdPattern(Select(ids, "ID")) && Select(ids, "ID") != "r"
    && Select(uris, "URI") == "#" + Select(ids, "ID")
    && NoIdAttrs(uris)
  }

  predicate NoIdAttrs(attrs: seq<Attr>) {
    forall i | 0 <= i < |attrs| :: !IdLike(attrs[i])
  }

  // ---------- small evaluations ----------

  lemma {:induction false} MatchingNone(els: seq<Element>, ns: string, tag: string)
    requires forall i | 0 <= i < |els| :: !Named(els[i], ns, tag)
    ensures Matching(els, ns, tag) == []
  {
    if els != [] {
      MatchingNone(els[1..], ns, tag);
    }
  }

  /** The only child of a name is the one child of that name. */
  lemma {:induction false} MatchingAt(els: seq<Element>, k: nat, ns: string, tag: string)
    requires k < |els| && Named(els[k], ns, tag)
    requires forall i | 0 <= i < |els| && i != k :: !Named(els[i], ns, tag)
    ensures Matching(els, ns, tag) == [els[k]]
  {
    if k == 0 {
      MatchingNone(els[1..], ns, tag);
    } else {
      MatchingAt(els[1..], k - 1, ns, tag);
    }
  }

  lemma OneAt(el: Element, k: nat, ns: string, tag: string)
    requires k < |el.children| && Named(el.children[k], ns, tag)
    requires forall i | 0 <= i < |el.children| && i != k :: !Named(el.children[i], ns, tag)
    ensures One(el, ns, tag) == Some(el.children[k])
  {
    MatchingAt(el.children, k, ns, tag);
  }

  /** The first attribute of a name is the one selected. */
  lemma {:induction false} SelectAt(attrs: seq<Attr>, k: nat, key: string)
    requires k < |attrs| && attrs[k].key == key && forall i | 0 <= i < k :: attrs[i].key != key
    ensures Select(attrs, key) == attrs[k].value
  {
    if k > 0 {
      SelectAt(attrs[1..], k - 1, key);
    }
  }

  // ---------- the parts ----------

  lemma StatusAdmitted()
    ensures One(STATUS, PROTOCOL_NS, "StatusCode") == Some(STATUS.children[0])
    ensures Shape(STATUS, PROTOCOL_NS, ["StatusCode"]) && OneEmpty(STATUS, PROTOCOL_NS, "StatusCode")
    ensures AttrOf(STATUS.children[0], "Value") == STATUS_SUCCESS
  {
    OneAt(STATUS, 0, PROTOCOL_NS, "StatusCode");
    SelectAt(STATUS.children[0].attrs, 0, "Value");
  }

  /** Printable texts are bounded, trimmed and clean. */
  lemma TextAdmitted(s: string)
    requires Spaces.Printable(s) && |s| <= 4096
    ensures BoundedText(s, 4096)
  {
    hide Spaces.StartsInSpace, Spaces.EndsInSpace;
    Spaces.PrintableIsTrimmed(s);
  }

  lemma TextsAdmitted()
    ensures forall s | s in {"idp", "digest", "signature", "name", "sp", "class"} :: BoundedText(s, 4096)
  {
    hide BoundedText;
    forall s | s in {"idp", "digest", "signature", "name", "sp", "class"}
      ensures BoundedText(s, 4096)
    {
      TextAdmitted(s);
    }
  }

  lemma TransformsAdmitted(uris: seq<Attr>)
    ensures TransformsOk(Reference(uris))
  {
    OneAt(Reference(uris), 0, DSIG_NS, "Transforms");
    SelectAt(TRANSFORMS.children[0].attrs, 0, "Algorithm");
    SelectAt(TRANSFORMS.children[1].attrs, 0, "Algorithm");
  }

  lemma ReferenceAdmitted(uris: seq<Attr>, id: string)
    requires Select(uris, "URI") == "#" + id
    ensures ReferenceOk(Reference(uris), id, SHA256)
  {
    hide TransformsOk, BoundedText;
    TextsAdmitted();
    var r := Reference(uris);
    TransformsAdmitted(uris);
    OneAt(r, 1, DSIG_NS, "DigestMethod");
    SelectAt(r.children[1].attrs, 0, "Algorithm");
    OneAt(r, 2, DSIG_NS, "DigestValue");
  }

  lemma SignedInfoAdmitted(uris: seq<Attr>, id: string)
    requires Select(uris, "URI") == "#" + id
    ensures SignedInfoOk(SignedInfo(uris), id)
    ensures One(SignedInfo(uris), DSIG_NS, "Reference") == Some(Reference(uris))
  {
    hide ReferenceOk;
    var info := SignedInfo(uris);
    ReferenceAdmitted(uris, id);
    OneAt(info, 0, DSIG_NS, "CanonicalizationMethod");
    SelectAt(info.children[0].attrs, 0, "Algorithm");
    OneAt(info, 1, DSIG_NS, "SignatureMethod");
    SelectAt(info.children[1].attrs, 0, "Algorithm");
    OneAt(info, 2, DSIG_NS, "Reference");
  }

  lemma SignatureAdmitted(uris: seq<Attr>, id: string)
    requires Select(uris, "URI") == "#" + id
    ensures SignatureShape(PROVIDER, Signature(uris), id)
    ensures One(Signature(uris), DSIG_NS, "SignedInfo") == Some(SignedInfo(uris))
  {
    hide SignedInfoOk, BoundedText;
    TextsAdmitted();
    var sig := Signature(uris);
    SignedInfoAdmitted(uris, id);
    OneAt(sig, 0, DSIG_NS, "SignedInfo");
    OneAt(sig, 1, DSIG_NS, "SignatureValue");
    MatchingNone(sig.children, DSIG_NS, "KeyInfo");
  }

  lemma SubjectAdmitted()
    ensures SubjectOk(SUBJECT)
  {
    hide BoundedText;
    TextsAdmitted();
    OneAt(SUBJECT, 0, ASSERTION_NS, "NameID");
    OneAt(SUBJECT, 1, ASSERTION_NS, "SubjectConfirmation");
    OneAt(CONFIRMATION, 0, ASSERTION_NS, "SubjectConfirmationData");
  }

  lemma ConditionsAdmitted()
    ensures ConditionsOk(CONDITIONS)
  {
    hide BoundedText;
    TextsAdmitted();
    OneAt(CONDITIONS, 0, ASSERTION_NS, "AudienceRestriction");
    OneAt(RESTRICTION, 0, ASSERTION_NS, "Audience");
  }

  lemma StatementAdmitted()
    ensures AuthnStatementOk(STATEMENT)
  {
    hide BoundedText;
    TextsAdmitted();
    OneAt(STATEMENT, 0, ASSERTION_NS, "AuthnContext");
    OneAt(CONTEXT, 0, ASSERTION_NS, "AuthnContextClassRef");
  }

  lemma PartsAdmitted(ids: seq<Attr>, uris: seq<Attr>)
    ensures AssertionPartsOk(Assertion(ids, uris))
    ensures One(Assertion(ids, uris), DSIG_NS, "Signature") == Some(Signature(uris))
  {
    hide SubjectOk, ConditionsOk, AuthnStatementOk, AttributeStatementOk, BoundedText, Signature, AttrOf, AttrsOnly;
    var a := Assertion(ids, uris);
    assert Named(a.children[1], DSIG_NS, "Signature") by {
      SignatureIsNamed(uris);
    }
    TextsAdmitted();
    SubjectAdmitted();
    ConditionsAdmitted();
    StatementAdmitted();
    OneAt(a, 0, ASSERTION_NS, "Issuer");
    OneAt(a, 1, DSIG_NS, "Signature");
    OneAt(a, 2, ASSERTION_NS, "Subject");
    OneAt(a, 3, ASSERTION_NS, "Conditions");
    OneAt(a, 4, ASSERTION_NS, "AuthnStatement");
    MatchingNone(a.children, ASSERTION_NS, "AttributeStatement");
  }

  lemma SignatureIsNamed(uris: seq<Attr>)
    ensures Named(Signature(uris), DSIG_NS, "Signature")
  {
  }

  lemma ResponseHeaderAdmitted(ids: seq<Attr>, uris: seq<Attr>)
    ensures ResponseHeaderOk(PROVIDER, Response(ids, uris), "q") && AttrOf(Response(ids, uris), "ID") == "r"
  {
    hide Assertion;
    var r := Response(ids, uris);
    SelectAt(r.attrs, 0, "ID");
    SelectAt(r.attrs, 1, "Version");
    SelectAt(r.attrs, 2, "Destination");
    SelectAt(r.attrs, 3, "InResponseTo");
    SelectAt(r.attrs, 4, "IssueInstant");
  }

  lemma AssertionHeaderAdmitted(ids: seq<Attr>, uris: seq<Attr>)
    requires Selectable(ids, uris)
    ensures AssertionHeaderOk(Assertion(ids, uris), "r") && AttrOf(Assertion(ids, uris), "ID") == Select(ids, "ID")
  {
    hide Signature, IdPattern;
    var a := Assertion(ids, uris);
    assert a.attrs[1..] == ids;
    SelectAt(a.attrs, 0, "Version");
  }

  lemma ChildrenAdmitted(ids: seq<Attr>, uris: seq<Attr>)
    ensures ResponseChildrenOk(PROVIDER, Response(ids, uris))
    ensures One(Response(ids, uris), ASSERTION_NS, "Assertion") == Some(Assertion(ids, uris))
  {
    hide BoundedText, Signature;
    var r := Response(ids, uris);
    TextsAdmitted();
    StatusAdmitted();
    OneAt(r, 0, ASSERTION_NS, "Issuer");
    OneAt(r, 1, PROTOCOL_NS, "Status");
    OneAt(r, 2, ASSERTION_NS, "Assertion");
  }

  // ---------- the identifiers ----------

  lemma {:induction false} NoOwnIds(attrs: seq<Attr>)
    requires NoIdAttrs(attrs)
    ensures OwnIds(attrs) == []
  {
    if attrs != [] {
      NoOwnIds(attrs[1..]);
    }
  }

  lemma {:induction false} OwnIdsAt(attrs: seq<Attr>, k: nat)
    requires k < |attrs| && IdLike(attrs[k]) && forall i | 0 <= i < |attrs| && i != k :: !IdLike(attrs[i])
    ensures OwnIds(attrs) == [attrs[k]]
  {
    if k == 0 {
      NoOwnIds(attrs[1..]);
    } else {
      OwnIdsAt(attrs[1..], k - 1);
    }
  }

  lemma {:induction false} NoForestIds(els: seq<Element>)
    requires forall c | c in els :: TreeIds(c) == []
    ensures ForestIds(els) == []
  {
    if els != [] {
      NoForestIds(els[1..]);
    }
  }

  /** An element without identifiers of its own, over children without any, has none. */
  lemma NoIds(el: Element)
    requires NoIdAttrs(el.attrs) && forall c | c in el.children :: TreeIds(c) == []
    ensures TreeIds(el) == []
  {
    NoOwnIds(el.attrs);
    NoForestIds(el.children);
  }

  lemma ChildlessHasNoIds(el: Element)
    requires NoIdAttrs(el.attrs) && el.children == []
    ensures TreeIds(el) == []
  {
    NoIds(el);
  }

  lemma NoLeafIds(el: Element)
    requires NoIdAttrs(el.attrs) && forall c | c in el.children :: c.children == [] && NoIdAttrs(c.attrs)
    ensures TreeIds(el) == []
  {
    forall c | c in el.children
      ensures TreeIds(c) == []
    {
      NoIds(c);
    }
    NoIds(el);
  }

  lemma ReferenceHasNoIds(uris: seq<Attr>)
    requires NoIdAttrs(uris)
    ensures TreeIds(Reference(uris)) == []
  {
    hide TreeIds;
    var r := Reference(uris);
    NoLeafIds(TRANSFORMS);
    ChildlessHasNoIds(r.children[1]);
    ChildlessHasNoIds(r.children[2]);
    NoIds(r);
  }

  lemma InfoHasNoIds(uris: seq<Attr>)
    requires NoIdAttrs(uris)
    ensures TreeIds(SignedInfo(uris)) == []
  {
    hide TreeIds, Reference;
    var info := SignedInfo(uris);
    ChildlessHasNoIds(info.children[0]);
    ChildlessHasNoIds(info.children[1]);
    ReferenceHasNoIds(uris);
    NoIds(info);
  }

  lemma SignatureHasNoIds(uris: seq<Attr>)
    requires NoIdAttrs(uris)
    ensures TreeIds(Signature(uris)) == []
  {
    hide TreeIds, SignedInfo;
    var sig := Signature(uris);
    InfoHasNoIds(uris);
    ChildlessHasNoIds(sig.children[1]);
    NoIds(sig);
  }

  lemma SubjectHasNoIds()
    ensures TreeIds(SUBJECT) == []
  {
    NoIds(SUBJECT.children[0]);
    NoLeafIds(CONFIRMATION);
    NoIds(SUBJECT);
  }

  lemma StatementsHaveNoIds()
    ensures TreeIds(CONDITIONS) == [] && TreeIds(STATEMENT) == []
  {
    NoLeafIds(RESTRICTION);
    NoIds(CONDITIONS);
    NoLeafIds(CONTEXT);
    NoIds(STATEMENT);
  }

  lemma PartsHaveNoIds(ids: seq<Attr>, uris: seq<Attr>)
    requires NoIdAttrs(uris)
    ensures ForestIds(Assertion(ids, uris).children) == []
  {
    var a := Assertion(ids, uris);
    NoIds(a.children[0]);
    hide TreeIds, Signature;
    SignatureHasNoIds(uris);
    SubjectHasNoIds();
    StatementsHaveNoIds();
    NoForestIds(a.children);
  }

  lemma AssertionIds(ids: seq<Attr>, uris: seq<Attr>)
    requires Selectable(ids, uris)
    ensures TreeIds(Assertion(ids, uris)) == [Plain("ID", "y")] == OwnIds(Assertion(ids, uris).attrs)
  {
    hide ForestIds, Signature;
    PartsHaveNoIds(ids, uris);
    assert Assertion(ids, uris).attrs[1..] == ids;
  }

  lemma ForestOfThree(a: Element, b: Element, c: Element)
    ensures ForestIds([a, b, c]) == TreeIds(a) + TreeIds(b) + TreeIds(c)
  {
    hide TreeIds;
    assert [a, b, c][1..] == [b, c] && [b, c][1..] == [c] && [c][1..] == [];
    assert ForestIds([c]) == TreeIds(c);
    assert ForestIds([b, c]) == TreeIds(b) + TreeIds(c);
  }

  lemma StatusHasNoIds()
    ensures TreeIds(STATUS) == [] && TreeIds(Say(ASSERTION_NS, "Issuer", "idp")) == []
  {
    NoLeafIds(STATUS);
    NoIds(Say(ASSERTION_NS, "Issuer", "idp"));
  }

  lemma TreeIdsAre(el: Element)
    ensures TreeIds(el) == OwnIds(el.attrs) + ForestIds(el.children)
  {
  }

  lemma ResponseOwnIds(ids: seq<Attr>, uris: seq<Attr>)
    ensures OwnIds(Response(ids, uris).attrs) == [Plain("ID", "r")]
  {
    hide Assertion;
    OwnIdsAt(Response(ids, uris).attrs, 0);
  }

  lemma ResponseIds(ids: seq<Attr>, uris: seq<Attr>)
    requires Selectable(ids, uris)
    ensures TreeIds(Response(ids, uris)) == [Plain("ID", "r"), Plain("ID", "y")]
  {
    hide TreeIds, ForestIds, OwnIds, IdLike, Assertion, Selectable;
    var r := Response(ids, uris);
    TreeIdsAre(r);
    ResponseOwnIds(ids, uris);
    StatusHasNoIds();
    AssertionIds(ids, uris);
    ForestOfThree(r.children[0], STATUS, Assertion(ids, uris));
    assert r.children == [r.children[0], STATUS, Assertion(ids, uris)];
  }

  lemma TwoDistinctIds()
    ensures IdsUnique([Plain("ID", "r"), Plain("ID", "y")])
  {
  }

  // ---------- the results ----------

  lemma ResponseAdmitted(ids: seq<Attr>, uris: seq<Attr>)
    requires Selectable(ids, uris)
    ensures PreflightOk(PROVIDER, Response(ids, uris), "q")
    ensures One(Response(ids, uris), ASSERTION_NS, "Assertion") == Some(Assertion(ids, uris))
    ensures ReferenceOf(Assertion(ids, uris)) == Some(Reference(uris))
  {
    hide ResponseHeaderOk, ResponseChildrenOk, AssertionHeaderOk, AssertionPartsOk, SignatureShape, AttrOf, IdsUnique,
         TreeIds, Response, Assertion, Signature, Reference, SignedInfo;
    ResponseHeaderAdmitted(ids, uris);
    AssertionHeaderAdmitted(ids, uris);
    ChildrenAdmitted(ids, uris);
    PartsAdmitted(ids, uris);
    SignatureAdmitted(uris, Select(ids, "ID"));
    SignedInfoAdmitted(uris, Select(ids, "ID"));
    ResponseIds(ids, uris);
    TwoDistinctIds();
  }

  /** How many identifiers r and y have some value. */
  lemma CountOfTwo(value: string)
    ensures CountValue([Plain("ID", "r"), Plain("ID", "y")], value)
         == (if value == "r" then 1 else 0) + (if value == "y" then 1 else 0)
    ensures CountValue([Plain("ID", "y")], value) == if value == "y" then 1 else 0
  {
    var one := [Plain("ID", "y")];
    var two := [Plain("ID", "r")] + one;
    assert two[1..] == one && one[1..] == [];
    assert CountValue(one, value) == if value == "y" then 1 else 0;
    assert two[0].value == "r";
    assert CountValue(two, value) == (if two[0].value == value then 1 else 0) + CountValue(one, value);
    assert two == [Plain("ID", "r"), Plain("ID", "y")];
  }

  const DECLARES_ID: seq<Attr> := [Attr("xmlns", "ID", "x"), Plain("ID", "y")]

  /** A prefix called ID: the preflight admits the response, and its reference names no element at all. */
  lemma AdmittedWithoutReferent()
    ensures var root, a := Response(DECLARES_ID, [Plain("URI", "#x")]), Assertion(DECLARES_ID, [Plain("URI", "#x")]);
      && PreflightOk(PROVIDER, root, "q")
      && One(root, ASSERTION_NS, "Assertion") == Some(a)
      && ReferenceOf(a) == Some(Reference([Plain("URI", "#x")]))
      && CountValue(TreeIds(root), "x") == 0
      && !RefersOnlyTo(root, Reference([Plain("URI", "#x")]), a)
  {
    hide Response, Assertion, PreflightOk, TreeIds, ReferenceOf;
    var uris := [Plain("URI", "#x")];
    SelectAt(DECLARES_ID, 0, "ID");
    OwnIdsAt(DECLARES_ID, 1);
    SelectAt(uris, 0, "URI");
    assert Selectable(DECLARES_ID, uris);
    ResponseAdmitted(DECLARES_ID, uris);
    ResponseIds(DECLARES_ID, uris);
    CountOfTwo("x");
    assert "#x"[1..] == "x";
  }

  const DECLARES_URI: seq<Attr> := [Attr("xmlns", "URI", "#y"), Plain("URI", "#r")]

  /** An element without the value refers nowhere through a reference that spells it. */
  lemma RefersElsewhere(root: Element, r: Element, a: Element, plain: Attr)
    requires forall x | x in r.attrs && PlainUri(x) :: x == plain
    requires PlainUri(plain) && CountValue(OwnIds(a.attrs), plain.value[1..]) == 0
    ensures !RefersOnlyTo(root, r, a)
  {
  }

  lemma UriSelectable()
    ensures Selectable([Plain("ID", "y")], DECLARES_URI)
  {
    var ids := [Plain("ID", "y")];
    SelectAt(ids, 0, "ID");
    OwnIdsAt(ids, 0);
    SelectAt(DECLARES_URI, 0, "URI");
  }

  lemma CountOfResponse()
    ensures CountValue([Plain("ID", "r")], "r") == 1
  {
    assert [Plain("ID", "r")][1..] == [];
  }

  /** A prefix called URI: the preflight admits the response, and its reference names the response itself. */
  lemma AdmittedNamingTheResponse()
    ensures var root, a := Response([Plain("ID", "y")], DECLARES_URI), Assertion([Plain("ID", "y")], DECLARES_URI);
      && PreflightOk(PROVIDER, root, "q")
      && One(root, ASSERTION_NS, "Assertion") == Some(a) && !Prefixed(a, "ID")
      && ReferenceOf(a) == Some(Reference(DECLARES_URI))
      && CountValue(TreeIds(root), "r") == 1 == CountValue(OwnIds(root.attrs), "r")
      && !RefersOnlyTo(root, Reference(DECLARES_URI), a)
  {
    hide PreflightOk, TreeIds, ReferenceOf, Signature, OwnIds, Response, One, RefersOnlyTo, CountValue, Selectable;
    var ids := [Plain("ID", "y")];
    UriSelectable();
    ResponseAdmitted(ids, DECLARES_URI);
    ResponseIds(ids, DECLARES_URI);
    ResponseOwnIds(ids, DECLARES_URI);
    AssertionIds(ids, DECLARES_URI);
    CountOfTwo("r");
    CountOfResponse();
    assert "#r"[1..] == "r";
    var root, r, a := Response(ids, DECLARES_URI), Reference(DECLARES_URI), Assertion(ids, DECLARES_URI);
    RefersElsewhere(root, r, a, Plain("URI", "#r"));
  }
}
