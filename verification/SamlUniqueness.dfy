/** What an admitted SAML response looks like as a whole: one assertion, one signature, one referent. */
module SamlUniqueness {
  import opened Prelude
  import opened SamlIds
  import opened SamlPreflight

  /** Elements of that name in the whole tree, the root included. */
  function TreeCount(el: Element, ns: string, tag: string): nat
    decreases el, 1
  {
    (if Named(el, ns, tag) then 1 else 0) + ForestCount(el.children, ns, tag)
  }

  function ForestCount(els: seq<Element>, ns: string, tag: string): nat
    decreases els, 0
  {
    if els == [] then 0 else TreeCount(els[0], ns, tag) + ForestCount(els[1..], ns, tag)
  }

  /** Nothing of that name below the element. */
  predicate Clear(el: Element, ns: string, tag: string) {
    ForestCount(el.children, ns, tag) == 0
  }

  /** The two names that must occur once. */
  predicate Target(ns: string, tag: string) {
    (ns == ASSERTION_NS && tag == "Assertion") || (ns == DSIG_NS && tag == "Signature")
  }

  // ---------- counting ----------

  /** Children that count one each when they bear the name (ns2, tag2), and nothing otherwise. */
  lemma {:induction false} ForestCountIs(els: seq<Element>, ns: string, tag: string, ns2: string, tag2: string)
    requires forall c | c in els :: TreeCount(c, ns, tag) == if Named(c, ns2, tag2) then 1 else 0
    ensures ForestCount(els, ns, tag) == |Matching(els, ns2, tag2)|
  {
    hide TreeCount;
    if els != [] {
      ForestCountIs(els[1..], ns, tag, ns2, tag2);
    }
  }

  lemma {:induction false} ForestClear(els: seq<Element>, ns: string, tag: string)
    requires forall c | c in els :: !Named(c, ns, tag) && Clear(c, ns, tag)
    ensures ForestCount(els, ns, tag) == 0
  {
    if els != [] {
      ForestClear(els[1..], ns, tag);
    }
  }

  lemma {:induction false} MatchingMembers(els: seq<Element>, ns: string, tag: string, c: Element)
    ensures c in Matching(els, ns, tag) <==> c in els && Named(c, ns, tag)
  {
    if els != [] {
      MatchingMembers(els[1..], ns, tag, c);
      assert els == [els[0]] + els[1..];
    }
  }

  /** A child of a name that occurs once is that one child. */
  lemma OnlyOne(el: Element, ns: string, tag: string, c: Element)
    requires One(el, ns, tag).Some? && c in el.children && Named(c, ns, tag)
    ensures c == One(el, ns, tag).value
  {
    MatchingMembers(el.children, ns, tag, c);
  }

  lemma OneIsChild(el: Element, ns: string, tag: string)
    requires One(el, ns, tag).Some?
    ensures One(el, ns, tag).value in el.children && Named(One(el, ns, tag).value, ns, tag)
  {
    MatchingMembers(el.children, ns, tag, One(el, ns, tag).value);
  }

  // ---------- nothing hides in the subtrees ----------

  lemma StatusClear(root: Element, ns: string, tag: string)
    requires Target(ns, tag) && StatusOk(root)
    ensures Clear(One(root, PROTOCOL_NS, "Status").value, ns, tag)
  {
    var status := One(root, PROTOCOL_NS, "Status").value;
    forall c | c in status.children ensures !Named(c, ns, tag) && Clear(c, ns, tag) {
      OnlyOne(status, PROTOCOL_NS, "StatusCode", c);
    }
    ForestClear(status.children, ns, tag);
  }

  lemma SubjectClear(subject: Element, ns: string, tag: string)
    requires Target(ns, tag) && SubjectOk(subject)
    ensures Clear(subject, ns, tag)
  {
    var confirmation := One(subject, ASSERTION_NS, "SubjectConfirmation").value;
    forall c | c in confirmation.children ensures !Named(c, ns, tag) && Clear(c, ns, tag) {
      OnlyOne(confirmation, ASSERTION_NS, "SubjectConfirmationData", c);
    }
    ForestClear(confirmation.children, ns, tag);
    forall c | c in subject.children ensures !Named(c, ns, tag) && Clear(c, ns, tag) {
      OnlyOne(subject, ASSERTION_NS, c.tag, c);
    }
    ForestClear(subject.children, ns, tag);
  }

  /** A wrapper holding one wrapper holding one leaf. */
  lemma WrappedLeafClear(el: Element, middle: string, leaf: string, ns: string, tag: string)
    requires Target(ns, tag) && middle != tag && leaf != tag
    requires Shape(el, ASSERTION_NS, [middle]) && One(el, ASSERTION_NS, middle).Some?
    requires var m := One(el, ASSERTION_NS, middle).value;
      Shape(m, ASSERTION_NS, [leaf]) && OneEmpty(m, ASSERTION_NS, leaf)
    ensures Clear(el, ns, tag)
  {
    var m := One(el, ASSERTION_NS, middle).value;
    forall c | c in m.children ensures !Named(c, ns, tag) && Clear(c, ns, tag) {
      OnlyOne(m, ASSERTION_NS, leaf, c);
    }
    ForestClear(m.children, ns, tag);
    forall c | c in el.children ensures !Named(c, ns, tag) && Clear(c, ns, tag) {
      OnlyOne(el, ASSERTION_NS, middle, c);
    }
    ForestClear(el.children, ns, tag);
  }

  lemma ConditionsClear(conditions: Element, ns: string, tag: string)
    requires Target(ns, tag) && ConditionsOk(conditions)
    ensures Clear(conditions, ns, tag)
  {
    WrappedLeafClear(conditions, "AudienceRestriction", "Audience", ns, tag);
  }

  lemma AuthnStatementClear(statement: Element, ns: string, tag: string)
    requires Target(ns, tag) && AuthnStatementOk(statement)
    ensures Clear(statement, ns, tag)
  {
    WrappedLeafClear(statement, "AuthnContext", "AuthnContextClassRef", ns, tag);
  }

  lemma AttributesClear(attributes: Element, ns: string, tag: string)
    requires Target(ns, tag) && AttributeStatementOk(attributes)
    ensures Clear(attributes, ns, tag)
  {
    forall a | a in attributes.children ensures !Named(a, ns, tag) && Clear(a, ns, tag) {
      assert AttributeOk(a);
      ForestClear(a.children, ns, tag);
    }
    ForestClear(attributes.children, ns, tag);
  }

  lemma ReferenceClear(reference: Element, id: string, digest: string, ns: string, tag: string)
    requires Target(ns, tag) && ReferenceOk(reference, id, digest)
    ensures Clear(reference, ns, tag)
  {
    var transforms := One(reference, DSIG_NS, "Transforms").value;
    assert transforms.children == [transforms.children[0], transforms.children[1]];
    ForestClear(transforms.children, ns, tag);
    forall c | c in reference.children ensures !Named(c, ns, tag) && Clear(c, ns, tag) {
      OnlyOne(reference, DSIG_NS, c.tag, c);
    }
    ForestClear(reference.children, ns, tag);
  }

  lemma SignedInfoClear(info: Element, id: string, ns: string, tag: string)
    requires Target(ns, tag) && SignedInfoOk(info, id)
    ensures Clear(info, ns, tag)
  {
    ReferenceClear(One(info, DSIG_NS, "Reference").value, id,
                   DigestFor(AttrOf(One(info, DSIG_NS, "SignatureMethod").value, "Algorithm")), ns, tag);
    forall c | c in info.children ensures !Named(c, ns, tag) && Clear(c, ns, tag) {
      OnlyOne(info, DSIG_NS, c.tag, c);
    }
    ForestClear(info.children, ns, tag);
  }

  lemma KeyInfoClear(p: Provider, key: Element, ns: string, tag: string)
    requires Target(ns, tag) && KeyInfoOk(p, key)
    ensures Clear(key, ns, tag)
  {
    var data := One(key, DSIG_NS, "X509Data").value;
    forall c | c in data.children ensures !Named(c, ns, tag) && Clear(c, ns, tag) {
      OnlyOne(data, DSIG_NS, "X509Certificate", c);
    }
    ForestClear(data.children, ns, tag);
    forall c | c in key.children ensures !Named(c, ns, tag) && Clear(c, ns, tag) {
      OnlyOne(key, DSIG_NS, "X509Data", c);
    }
    ForestClear(key.children, ns, tag);
  }

  lemma SignatureClear(p: Provider, sig: Element, id: string, ns: string, tag: string)
    requires Target(ns, tag) && SignatureShape(p, sig, id)
    ensures Clear(sig, ns, tag)
  {
    hide SignedInfoOk, KeyInfoOk, Matching;
    forall c | c in sig.children ensures !Named(c, ns, tag) && Clear(c, ns, tag) {
      if c.tag == "KeyInfo" {
        MatchingMembers(sig.children, DSIG_NS, "KeyInfo", c);
        KeyInfoClear(p, c, ns, tag);
      } else {
        OnlyOne(sig, DSIG_NS, c.tag, c);
        if c.tag == "SignedInfo" {
          SignedInfoClear(c, id, ns, tag);
        }
      }
    }
    ForestClear(sig.children, ns, tag);
  }

  lemma AssertionPartClear(p: Provider, a: Element, c: Element, ns: string, tag: string)
    requires Target(ns, tag) && AssertionPartsOk(a) && c in a.children
    requires One(a, DSIG_NS, "Signature").Some?
    requires SignatureShape(p, One(a, DSIG_NS, "Signature").value, AttrOf(a, "ID"))
    ensures Clear(c, ns, tag)
  {
    hide SubjectOk, ConditionsOk, AuthnStatementOk, AttributeStatementOk, SignatureShape, AttrsOnly, Matching, One,
         AttrOf;
    if Named(c, DSIG_NS, "Signature") {
      OnlyOne(a, DSIG_NS, "Signature", c);
      SignatureClear(p, c, AttrOf(a, "ID"), ns, tag);
    } else if c.tag == "AttributeStatement" {
      MatchingMembers(a.children, ASSERTION_NS, "AttributeStatement", c);
      AttributesClear(c, ns, tag);
    } else {
      OnlyOne(a, ASSERTION_NS, c.tag, c);
      if c.tag == "Subject" {
        SubjectClear(c, ns, tag);
      } else if c.tag == "Conditions" {
        ConditionsClear(c, ns, tag);
      } else if c.tag == "AuthnStatement" {
        AuthnStatementClear(c, ns, tag);
      }
    }
  }

  /** Inside the assertion there is one signature and no further assertion. */
  lemma AssertionCounts(p: Provider, a: Element, ns: string, tag: string)
    requires Target(ns, tag) && AssertionPartsOk(a)
    requires One(a, DSIG_NS, "Signature").Some?
    requires SignatureShape(p, One(a, DSIG_NS, "Signature").value, AttrOf(a, "ID"))
    ensures ForestCount(a.children, ns, tag) == if ns == DSIG_NS then 1 else 0
  {
    assert ns == DSIG_NS ==> |Matching(a.children, ns, tag)| == 1;
    PartsAreNotAssertions(a);
    hide AssertionPartsOk, SignatureShape, Matching, AttrOf;
    forall c | c in a.children
      ensures TreeCount(c, ns, tag) == if Named(c, ns, tag) then 1 else 0
    {
      AssertionPartClear(p, a, c, ns, tag);
    }
    ForestCountIs(a.children, ns, tag, ns, tag);
  }

  lemma PartsAreNotAssertions(a: Element)
    requires AssertionPartsOk(a)
    ensures Matching(a.children, ASSERTION_NS, "Assertion") == []
  {
    hide SubjectOk, ConditionsOk, AuthnStatementOk, AttributeStatementOk, OneTextLeaf, One, Matching, AttrOf;
    assert forall c | c in a.children :: !Named(c, ASSERTION_NS, "Assertion");
    hide AssertionPartsOk;
    ForestClearWhenUnnamed(a, ASSERTION_NS, "Assertion");
  }

  lemma ForestClearWhenUnnamed(a: Element, ns: string, tag: string)
    requires forall c | c in a.children :: !Named(c, ns, tag)
    ensures Matching(a.children, ns, tag) == []
  {
    if Matching(a.children, ns, tag) != [] {
      MatchingMembers(a.children, ns, tag, Matching(a.children, ns, tag)[0]);
    }
  }

  /** An admitted document has exactly one assertion and one signature, at any depth. */
  lemma OneAssertionOneSignature(p: Provider, root: Element, requestID: string, ns: string, tag: string)
    requires PreflightOk(p, root, requestID) && Target(ns, tag)
    ensures TreeCount(root, ns, tag) == 1
  {
    hide AssertionHeaderOk, IdsUnique, AssertionPartsOk, SignatureShape, AttrOf;
    var a := One(root, ASSERTION_NS, "Assertion").value;
    forall c | c in root.children
      ensures TreeCount(c, ns, tag) == if Named(c, ASSERTION_NS, "Assertion") then 1 else 0
    {
      if Named(c, ASSERTION_NS, "Assertion") {
        OnlyOne(root, ASSERTION_NS, "Assertion", c);
        AssertionCounts(p, a, ns, tag);
      } else if Named(c, PROTOCOL_NS, "Status") {
        OnlyOne(root, PROTOCOL_NS, "Status", c);
        StatusClear(root, ns, tag);
      } else {
        OnlyOne(root, ASSERTION_NS, "Issuer", c);
      }
    }
    ForestCountIs(root.children, ns, tag, ASSERTION_NS, "Assertion");
  }

  // ---------- what the signature's reference names ----------

  function CountValue(attrs: seq<Attr>, value: string): nat {
    if attrs == [] then 0 else (if attrs[0].value == value then 1 else 0) + CountValue(attrs[1..], value)
  }

  lemma {:induction false} CountSplit(a: seq<Attr>, b: seq<Attr>, value: string)
    ensures CountValue(a + b, value) == CountValue(a, value) + CountValue(b, value)
  {
    if a == [] {
      assert a + b == b;
    } else {
      CountSplit(a[1..], b, value);
      assert (a + b)[1..] == a[1..] + b;
    }
  }

  lemma {:induction false} CountPositive(attrs: seq<Attr>, value: string)
    ensures CountValue(attrs, value) > 0 <==> exists a :: a in attrs && a.value == value
  {
    if attrs != [] {
      CountPositive(attrs[1..], value);
      assert attrs == [attrs[0]] + attrs[1..];
    }
  }

  lemma {:induction false} UniqueCount(attrs: seq<Attr>, value: string)
    requires IdsUnique(attrs)
    ensures CountValue(attrs, value) <= 1
  {
    if attrs != [] {
      UniqueStep(attrs);
      UniqueCount(attrs[1..], value);
      CountPositive(attrs[1..], value);
    }
  }

  /** The identifiers of a child are among those of its parent. */
  lemma {:induction false} ChildCounts(els: seq<Element>, c: Element, value: string)
    requires c in els
    ensures CountValue(OwnIds(c.attrs), value) <= CountValue(ForestIds(els), value)
  {
    CountSplit(TreeIds(els[0]), ForestIds(els[1..]), value);
    if c == els[0] {
      CountSplit(OwnIds(c.attrs), ForestIds(c.children), value);
    } else {
      ChildCounts(els[1..], c, value);
    }
  }

  lemma {:induction false} OwnIdsMembers(attrs: seq<Attr>, a: Attr)
    ensures a in OwnIds(attrs) <==> a in attrs && IdLike(a)
  {
    if attrs != [] {
      OwnIdsMembers(attrs[1..], a);
      assert attrs == [attrs[0]] + attrs[1..];
    }
  }

  lemma {:induction false} CountMembers(attrs: seq<Attr>, a: Attr)
    requires a in attrs
    ensures CountValue(attrs, a.value) >= 1
  {
    CountPositive(attrs, a.value);
  }

  /** Exactly one identifier in the document has this value, and element a carries it. */
  predicate NamesOnly(root: Element, a: Element, id: string) {
    CountValue(TreeIds(root), id) == 1 && CountValue(OwnIds(a.attrs), id) == 1
  }

  lemma AssertionCountWithin(root: Element, a: Element, id: string)
    requires a in root.children
    ensures CountValue(OwnIds(a.attrs), id) <= CountValue(TreeIds(root), id)
  {
    CountSplit(OwnIds(root.attrs), ForestIds(root.children), id);
    ChildCounts(root.children, a, id);
  }

  lemma CarriedIsProper(root: Element, a: Element, x: Attr)
    requires IdsUnique(TreeIds(root)) && a in root.children && x in OwnIds(a.attrs)
    ensures ProperId(x)
  {
    OwnWithinTree(root.children, a, x);
    assert x in TreeIds(root);
  }

  lemma {:induction false} OwnWithinTree(els: seq<Element>, c: Element, x: Attr)
    requires c in els && x in OwnIds(c.attrs)
    ensures x in ForestIds(els)
  {
    if c != els[0] {
      OwnWithinTree(els[1..], c, x);
    }
  }

  /** In an admitted document a value names exactly one element, the assertion, when it is a plain ID of it. */
  lemma ValueNamesTheAssertion(p: Provider, root: Element, requestID: string, id: string)
    requires PreflightOk(p, root, requestID)
    ensures var a := One(root, ASSERTION_NS, "Assertion").value;
      NamesOnly(root, a, id) <==> Attr("", "ID", id) in a.attrs
  {
    hide ResponseHeaderOk, ResponseChildrenOk, AssertionHeaderOk, AssertionPartsOk, SignatureShape;
    var a := One(root, ASSERTION_NS, "Assertion").value;
    var plain := Attr("", "ID", id);
    OneIsChild(root, ASSERTION_NS, "Assertion");
    UniqueCount(TreeIds(root), id);
    AssertionCountWithin(root, a, id);
    OwnIdsMembers(a.attrs, plain);
    CountPositive(OwnIds(a.attrs), id);
    if CountValue(OwnIds(a.attrs), id) > 0 {
      var x :| x in OwnIds(a.attrs) && x.value == id;
      CarriedIsProper(root, a, x);
      assert x == plain;
    }
  }

  /** The one reference of the assertion's signature. */
  function ReferenceOf(a: Element): Option<Element> {
    var sig := One(a, DSIG_NS, "Signature");
    if sig.None? then None
    else
      var info := One(sig.value, DSIG_NS, "SignedInfo");
      if info.None? then None else One(info.value, DSIG_NS, "Reference")
  }

  /** An attribute that refers within the document: URI without a prefix, a number sign, an identifier. */
  predicate PlainUri(x: Attr) {
    x.space == "" && x.key == "URI" && x.value != "" && x.value[0] == '#'
  }

  /** The reference's own URI names exactly one element of the document, a. */
  predicate RefersOnlyTo(root: Element, r: Element, a: Element) {
    exists x | x in r.attrs :: PlainUri(x) && NamesOnly(root, a, x.value[1..])
  }

  /** The reference's own URI is the number sign and the assertion's own ID. */
  predicate SpellsOutId(r: Element, a: Element) {
    exists x | x in r.attrs :: PlainUri(x) && Attr("", "ID", x.value[1..]) in a.attrs
  }

  /**
   In an admitted document the signature's reference names exactly one element, the sole assertion,
   if and only if its URI without a prefix spells out an ID without a prefix of the assertion. The
   preflight compares selected attributes, and selection by local name ignores prefixes on both elements.
   */
  lemma ReferenceNamesTheAssertion(p: Provider, root: Element, requestID: string)
    requires PreflightOk(p, root, requestID)
    ensures var a := One(root, ASSERTION_NS, "Assertion").value;
      && ReferenceOf(a).Some?
      && (RefersOnlyTo(root, ReferenceOf(a).value, a) <==> SpellsOutId(ReferenceOf(a).value, a))
  {
    hide ResponseHeaderOk, ResponseChildrenOk, AssertionHeaderOk, AssertionPartsOk, NamesOnly, ReferenceOk, Matching;
    var a := One(root, ASSERTION_NS, "Assertion").value;
    forall x | x in ReferenceOf(a).value.attrs && PlainUri(x)
      ensures NamesOnly(root, a, x.value[1..]) <==> Attr("", "ID", x.value[1..]) in a.attrs
    {
      ValueNamesTheAssertion(p, root, requestID, x.value[1..]);
    }
  }

  /** Some attribute of that local name has a prefix; a declaration of a prefix of that name counts. */
  predicate Prefixed(el: Element, key: string) {
    exists a | a in el.attrs :: a.space != "" && a.key == key
  }

  lemma {:induction false} SelectedIsThere(attrs: seq<Attr>, key: string)
    requires Select(attrs, key) != ""
    ensures exists a :: a in attrs && a.key == key && a.value == Select(attrs, key)
  {
    if attrs[0].key != key {
      SelectedIsThere(attrs[1..], key);
      assert forall a | a in attrs[1..] :: a in attrs;
    }
  }

  lemma PlainlySelected(el: Element, key: string)
    requires AttrOf(el, key) != "" && !Prefixed(el, key)
    ensures Attr("", key, AttrOf(el, key)) in el.attrs
  {
    SelectedIsThere(el.attrs, key);
    var x :| x in el.attrs && x.key == key && x.value == AttrOf(el, key);
    assert x == Attr("", key, x.value);
  }

  /** What the preflight compares: the selected URI is the number sign and the selected ID. */
  lemma SelectedReference(p: Provider, root: Element, requestID: string)
    requires PreflightOk(p, root, requestID)
    ensures var a := One(root, ASSERTION_NS, "Assertion").value;
      && ReferenceOf(a).Some? && AttrOf(a, "ID") != ""
      && AttrOf(ReferenceOf(a).value, "URI") == "#" + AttrOf(a, "ID")
  {
    hide ResponseHeaderOk, ResponseChildrenOk, AssertionPartsOk, Matching, AttrOf, TransformsOk;
  }

  lemma PlainReference(r: Element, a: Element)
    requires AttrOf(a, "ID") != "" && AttrOf(r, "URI") == "#" + AttrOf(a, "ID")
    requires !Prefixed(a, "ID") && !Prefixed(r, "URI")
    ensures SpellsOutId(r, a)
  {
    hide AttrOf, Prefixed;
    var id := AttrOf(a, "ID");
    PlainlySelected(a, "ID");
    PlainlySelected(r, "URI");
    var x := Attr("", "URI", "#" + id);
    assert x.value[1..] == id;
    assert PlainUri(x) && x in r.attrs;
  }

  /**
   Without a prefixed ID on the assertion and a prefixed URI on the reference, it always names the
   assertion alone.
   */
  lemma ReferenceNamesTheAssertionPlainly(p: Provider, root: Element, requestID: string)
    requires PreflightOk(p, root, requestID)
    requires var a := One(root, ASSERTION_NS, "Assertion").value;
      !Prefixed(a, "ID") && (ReferenceOf(a).Some? ==> !Prefixed(ReferenceOf(a).value, "URI"))
    ensures var a := One(root, ASSERTION_NS, "Assertion").value;
      ReferenceOf(a).Some? && RefersOnlyTo(root, ReferenceOf(a).value, a)
  {
    var a := One(root, ASSERTION_NS, "Assertion").value;
    hide PreflightOk, AttrOf, ReferenceOf, NamesOnly, Prefixed, SpellsOutId, RefersOnlyTo;
    SelectedReference(p, root, requestID);
    ReferenceNamesTheAssertion(p, root, requestID);
    PlainReference(ReferenceOf(a).value, a);
  }
}
