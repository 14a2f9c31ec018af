/**
 The documents the preflight admits, as a schema: which elements occur where, how often, with which
 attributes and texts. The checks of the preflight are exactly this schema, a list of values, and
 unique identifiers.
 */
module SamlSchema {
  import opened Prelude
  import opened SamlIds
  import opened SamlPreflight
  import opened SamlUniqueness
  import Spaces

  /** An element: its name, its allowed attributes if they are limited, whether it holds text, and its children. */
  datatype Schema = Schema(ns: string, tag: string, attrs: Option<seq<string>>, text: bool, parts: seq<Part>)

  /** Children of one kind; no upper bound stands for any number. */
  datatype Part = Part(schema: Schema, least: nat, most: Option<nat>)

  function Once(s: Schema): Part {
    Part(s, 1, Some(1))
  }

  const SAML := "urn:oasis:names:tc:SAML:2.0:assertion"
  const SAMLP := "urn:oasis:names:tc:SAML:2.0:protocol"
  const DS := "http://www.w3.org/2000/09/xmldsig#"

  function Empty(ns: string, tag: string, attrs: Option<seq<string>>): Schema {
    Schema(ns, tag, attrs, false, [])
  }

  function TextOnly(ns: string, tag: string, attrs: Option<seq<string>>): Schema {
    Schema(ns, tag, attrs, true, [])
  }

  function Node(ns: string, tag: string, attrs: Option<seq<string>>, parts: seq<Part>): Schema {
    Schema(ns, tag, attrs, false, parts)
  }

  const STATUS := Node(SAMLP, "Status", None, [Once(Empty(SAMLP, "StatusCode", None))])

  const CONFIRMATION := Node(SAML, "SubjectConfirmation", Some(["Method"]),
    [Once(Empty(SAML, "SubjectConfirmationData", Some(["InResponseTo", "Recipient", "NotOnOrAfter"])))])

  const SUBJECT := Node(SAML, "Subject", None,
    [Once(TextOnly(SAML, "NameID", Some(["Format", "NameQualifier", "SPNameQualifier"]))), Once(CONFIRMATION)])

  const RESTRICTION := Node(SAML, "AudienceRestriction", None, [Once(TextOnly(SAML, "Audience", None))])

  const CONDITIONS := Node(SAML, "Conditions", Some(["NotBefore", "NotOnOrAfter"]), [Once(RESTRICTION)])

  const CONTEXT := Node(SAML, "AuthnContext", None, [Once(TextOnly(SAML, "AuthnContextClassRef", None))])

  const STATEMENT := Node(SAML, "AuthnStatement", Some(["AuthnInstant", "SessionIndex", "SessionNotOnOrAfter"]),
    [Once(CONTEXT)])

  const ATTRIBUTE := Node(SAML, "Attribute", Some(["Name", "NameFormat", "FriendlyName"]),
    [Part(Empty(SAML, "AttributeValue", None), 0, None)])

  const ATTRIBUTES := Node(SAML, "AttributeStatement", None, [Part(ATTRIBUTE, 0, None)])

  const TRANSFORMS := Node(DS, "Transforms", None, [Part(Empty(DS, "Transform", None), 2, Some(2))])

  const REFERENCE := Node(DS, "Reference", None,
    [Once(TRANSFORMS), Once(Empty(DS, "DigestMethod", None)), Once(TextOnly(DS, "DigestValue", None))])

  const SIGNED_INFO := Node(DS, "SignedInfo", None,
    [Once(Empty(DS, "CanonicalizationMethod", None)), Once(Empty(DS, "SignatureMethod", None)), Once(REFERENCE)])

  const X509_DATA := Node(DS, "X509Data", None, [Once(TextOnly(DS, "X509Certificate", None))])

  const KEY_INFO := Node(DS, "KeyInfo", None, [Once(X509_DATA)])

  const SIGNATURE := Node(DS, "Signature", None,
    [Once(SIGNED_INFO), Once(TextOnly(DS, "SignatureValue", None)), Part(KEY_INFO, 0, Some(1))])

  const ISSUER := TextOnly(SAML, "Issuer", None)

  const ASSERTION := Node(SAML, "Assertion", Some(["ID", "Version", "IssueInstant"]),
    [Once(ISSUER), Once(SIGNATURE), Once(SUBJECT), Once(CONDITIONS), Once(STATEMENT), Part(ATTRIBUTES, 0, Some(1))])

  const RESPONSE := Node(SAMLP, "Response", Some(["ID", "Version", "IssueInstant", "Destination", "InResponseTo"]),
    [Once(ISSUER), Once(ASSERTION), Once(STATUS)])

  // ---------- conformance ----------

  predicate Listed(c: Element, parts: seq<Part>) {
    exists k | 0 <= k < |parts| :: Named(c, parts[k].schema.ns, parts[k].schema.tag)
  }

  /** The element has the schema's name, attributes and text, and its children are those listed, as often as allowed. */
  predicate Conforms(el: Element, s: Schema)
    decreases s
  {
    && Named(el, s.ns, s.tag)
    && (s.attrs.Some? ==> AttrsOnly(el, s.attrs.value))
    && (s.text ==> BoundedText(el.text, 4096))
    && (forall c | c in el.children :: Listed(c, s.parts))
    && forall k | 0 <= k < |s.parts| ::
         var part := s.parts[k];
         var found := |Matching(el.children, part.schema.ns, part.schema.tag)|;
         && part.least <= found && (part.most.Some? ==> found <= part.most.value)
         && forall c | c in el.children && Named(c, part.schema.ns, part.schema.tag) :: Conforms(c, part.schema)
  }

  /** The children of one part: how many there are, and that each conforms. */
  predicate PartOk(el: Element, part: Part) {
    var found := |Matching(el.children, part.schema.ns, part.schema.tag)|;
    && part.least <= found && (part.most.Some? ==> found <= part.most.value)
    && forall c | c in el.children && Named(c, part.schema.ns, part.schema.tag) :: Conforms(c, part.schema)
  }

  predicate OuterOk(el: Element, s: Schema) {
    && Named(el, s.ns, s.tag)
    && (s.attrs.Some? ==> AttrsOnly(el, s.attrs.value))
    && (s.text ==> BoundedText(el.text, 4096))
    && forall c | c in el.children :: Listed(c, s.parts)
  }

  lemma Unfold(el: Element, s: Schema)
    ensures Conforms(el, s) <==> OuterOk(el, s) && forall k | 0 <= k < |s.parts| :: PartOk(el, s.parts[k])
  {
    hide AttrsOnly, BoundedText, Listed, Matching;
  }

  lemma Unfold1(el: Element, s: Schema)
    requires |s.parts| == 1
    ensures Conforms(el, s) <==> OuterOk(el, s) && PartOk(el, s.parts[0])
  {
    hide Conforms, OuterOk, PartOk;
    Unfold(el, s);
  }

  lemma Unfold2(el: Element, s: Schema)
    requires |s.parts| == 2
    ensures Conforms(el, s) <==> OuterOk(el, s) && PartOk(el, s.parts[0]) && PartOk(el, s.parts[1])
  {
    hide Conforms, OuterOk, PartOk;
    Unfold(el, s);
  }

  lemma Unfold3(el: Element, s: Schema)
    requires |s.parts| == 3
    ensures Conforms(el, s) <==>
      OuterOk(el, s) && PartOk(el, s.parts[0]) && PartOk(el, s.parts[1]) && PartOk(el, s.parts[2])
  {
    hide Conforms, OuterOk, PartOk;
    Unfold(el, s);
  }

  lemma Unfold6(el: Element, s: Schema)
    requires |s.parts| == 6
    ensures Conforms(el, s) <==>
      && OuterOk(el, s) && PartOk(el, s.parts[0]) && PartOk(el, s.parts[1]) && PartOk(el, s.parts[2])
      && PartOk(el, s.parts[3]) && PartOk(el, s.parts[4]) && PartOk(el, s.parts[5])
  {
    hide Conforms, OuterOk, PartOk;
    Unfold(el, s);
  }

  /** A part that occurs once is the one child of its name. */
  lemma OncePart(el: Element, s: Schema)
    ensures PartOk(el, Once(s)) <==> One(el, s.ns, s.tag).Some? && Conforms(One(el, s.ns, s.tag).value, s)
  {
    hide Conforms, Matching;
    if One(el, s.ns, s.tag).Some? {
      OneIsChild(el, s.ns, s.tag);
      forall c | c in el.children && Named(c, s.ns, s.tag)
        ensures c == One(el, s.ns, s.tag).value
      {
        OnlyOne(el, s.ns, s.tag, c);
      }
    }
  }

  lemma LeafConforms(el: Element, s: Schema)
    requires s.parts == []
    ensures Conforms(el, s) <==>
      && Named(el, s.ns, s.tag) && el.children == []
      && (s.attrs.Some? ==> AttrsOnly(el, s.attrs.value)) && (s.text ==> BoundedText(el.text, 4096))
  {
    hide AttrsOnly, BoundedText;
    if el.children != [] {
      assert el.children[0] in el.children && !Listed(el.children[0], s.parts);
    }
  }

  lemma Listed1(el: Element, parts: seq<Part>, ns: string, a: string)
    requires |parts| == 1 && parts[0].schema.ns == ns && parts[0].schema.tag == a
    ensures (forall c | c in el.children :: Listed(c, parts)) <==> Shape(el, ns, [a])
  {
    forall c | c in el.children
      ensures Listed(c, parts) <==> c.ns == ns && c.tag in [a]
    {
      assert Named(c, parts[0].schema.ns, parts[0].schema.tag) <==> c.ns == ns && c.tag == a;
    }
  }

  lemma Listed2(el: Element, parts: seq<Part>, ns: string, a: string, b: string)
    requires |parts| == 2 && parts[0].schema.ns == ns && parts[0].schema.tag == a
    requires parts[1].schema.ns == ns && parts[1].schema.tag == b
    ensures (forall c | c in el.children :: Listed(c, parts)) <==> Shape(el, ns, [a, b])
  {
    forall c | c in el.children
      ensures Listed(c, parts) <==> c.ns == ns && c.tag in [a, b]
    {
      assert Named(c, parts[0].schema.ns, parts[0].schema.tag) <==> c.ns == ns && c.tag == a;
      assert Named(c, parts[1].schema.ns, parts[1].schema.tag) <==> c.ns == ns && c.tag == b;
    }
  }

  lemma Listed3(el: Element, parts: seq<Part>, ns: string, a: string, b: string, d: string)
    requires |parts| == 3 && parts[0].schema.ns == ns && parts[0].schema.tag == a
    requires parts[1].schema.ns == ns && parts[1].schema.tag == b
    requires parts[2].schema.ns == ns && parts[2].schema.tag == d
    ensures (forall c | c in el.children :: Listed(c, parts)) <==> Shape(el, ns, [a, b, d])
  {
    forall c | c in el.children
      ensures Listed(c, parts) <==> c.ns == ns && c.tag in [a, b, d]
    {
      assert Named(c, parts[0].schema.ns, parts[0].schema.tag) <==> c.ns == ns && c.tag == a;
      assert Named(c, parts[1].schema.ns, parts[1].schema.tag) <==> c.ns == ns && c.tag == b;
      assert Named(c, parts[2].schema.ns, parts[2].schema.tag) <==> c.ns == ns && c.tag == d;
    }
  }

  // ---------- the subtrees ----------

  /** A part that occurs once and is a leaf. */
  lemma OnceLeaf(el: Element, s: Schema)
    requires s.parts == []
    ensures PartOk(el, Once(s)) <==>
      One(el, s.ns, s.tag).Some? &&
      var c := One(el, s.ns, s.tag).value;
      && c.children == []
      && (s.attrs.Some? ==> AttrsOnly(c, s.attrs.value)) && (s.text ==> BoundedText(c.text, 4096))
  {
    hide PartOk, Conforms, One, AttrsOnly, BoundedText;
    OncePart(el, s);
    if One(el, s.ns, s.tag).Some? {
      OneIsChild(el, s.ns, s.tag);
      LeafConforms(One(el, s.ns, s.tag).value, s);
    }
  }

  lemma StatusFits(el: Element)
    ensures Conforms(el, STATUS) <==>
      && Named(el, SAMLP, "Status") && Shape(el, PROTOCOL_NS, ["StatusCode"]) && OneEmpty(el, PROTOCOL_NS, "StatusCode")
  {
    hide Conforms, PartOk, One, Listed, Shape;
    Unfold1(el, STATUS);
    OnceLeaf(el, Empty(SAMLP, "StatusCode", None));
    Listed1(el, STATUS.parts, SAMLP, "StatusCode");
  }

  lemma ConfirmationFits(el: Element)
    ensures Conforms(el, CONFIRMATION) <==>
      && Named(el, SAML, "SubjectConfirmation") && AttrsOnly(el, ["Method"])
      && Shape(el, ASSERTION_NS, ["SubjectConfirmationData"]) && OneEmpty(el, ASSERTION_NS, "SubjectConfirmationData")
      && AttrsOnly(One(el, ASSERTION_NS, "SubjectConfirmationData").value,
                   ["InResponseTo", "Recipient", "NotOnOrAfter"])
  {
    hide Conforms, PartOk, One, Listed, Shape, AttrsOnly;
    Unfold1(el, CONFIRMATION);
    OnceLeaf(el, Empty(SAML, "SubjectConfirmationData", Some(["InResponseTo", "Recipient", "NotOnOrAfter"])));
    Listed1(el, CONFIRMATION.parts, SAML, "SubjectConfirmationData");
  }

  lemma SubjectFits(el: Element)
    ensures Conforms(el, SUBJECT) <==> Named(el, SAML, "Subject") && SubjectOk(el)
  {
    hide Conforms, PartOk, One, Listed, Shape, AttrsOnly, BoundedText;
    Unfold2(el, SUBJECT);
    OnceLeaf(el, TextOnly(SAML, "NameID", Some(["Format", "NameQualifier", "SPNameQualifier"])));
    OncePart(el, CONFIRMATION);
    Listed2(el, SUBJECT.parts, SAML, "NameID", "SubjectConfirmation");
    if One(el, SAML, "SubjectConfirmation").Some? {
      OneIsChild(el, SAML, "SubjectConfirmation");
      ConfirmationFits(One(el, SAML, "SubjectConfirmation").value);
    }
  }

  lemma RestrictionFits(el: Element)
    ensures Conforms(el, RESTRICTION) <==>
      && Named(el, SAML, "AudienceRestriction") && Shape(el, ASSERTION_NS, ["Audience"])
      && OneTextLeaf(el, ASSERTION_NS, "Audience")
  {
    hide Conforms, PartOk, One, Listed, Shape, BoundedText;
    Unfold1(el, RESTRICTION);
    OnceLeaf(el, TextOnly(SAML, "Audience", None));
    Listed1(el, RESTRICTION.parts, SAML, "Audience");
  }

  lemma ConditionsFit(el: Element)
    ensures Conforms(el, CONDITIONS) <==> Named(el, SAML, "Conditions") && ConditionsOk(el)
  {
    hide Conforms, PartOk, One, Listed, Shape, AttrsOnly, OneTextLeaf;
    Unfold1(el, CONDITIONS);
    OncePart(el, RESTRICTION);
    Listed1(el, CONDITIONS.parts, SAML, "AudienceRestriction");
    if One(el, SAML, "AudienceRestriction").Some? {
      OneIsChild(el, SAML, "AudienceRestriction");
      RestrictionFits(One(el, SAML, "AudienceRestriction").value);
    }
  }

  lemma ContextFits(el: Element)
    ensures Conforms(el, CONTEXT) <==>
      && Named(el, SAML, "AuthnContext") && Shape(el, ASSERTION_NS, ["AuthnContextClassRef"])
      && OneTextLeaf(el, ASSERTION_NS, "AuthnContextClassRef")
  {
    hide Conforms, PartOk, One, Listed, Shape, BoundedText;
    Unfold1(el, CONTEXT);
    OnceLeaf(el, TextOnly(SAML, "AuthnContextClassRef", None));
    Listed1(el, CONTEXT.parts, SAML, "AuthnContextClassRef");
  }

  lemma StatementFits(el: Element)
    ensures Conforms(el, STATEMENT) <==> Named(el, SAML, "AuthnStatement") && AuthnStatementOk(el)
  {
    hide Conforms, PartOk, One, Listed, Shape, AttrsOnly, OneTextLeaf;
    Unfold1(el, STATEMENT);
    OncePart(el, CONTEXT);
    Listed1(el, STATEMENT.parts, SAML, "AuthnContext");
    if One(el, SAML, "AuthnContext").Some? {
      OneIsChild(el, SAML, "AuthnContext");
      ContextFits(One(el, SAML, "AuthnContext").value);
    }
  }

  /** A part that may occur any number of times: all children of its name conform. */
  lemma AnyPart(el: Element, s: Schema)
    ensures PartOk(el, Part(s, 0, None)) <==> forall c | c in el.children && Named(c, s.ns, s.tag) :: Conforms(c, s)
  {
    hide Conforms, Matching;
  }

  lemma AttributeFits(el: Element)
    ensures Conforms(el, ATTRIBUTE) <==> Named(el, SAML, "Attribute") && AttributeOk(el)
  {
    hide Conforms, PartOk, Listed, AttrsOnly;
    var value := Empty(SAML, "AttributeValue", None);
    Unfold1(el, ATTRIBUTE);
    AnyPart(el, value);
    Listed1(el, ATTRIBUTE.parts, SAML, "AttributeValue");
    forall c | c in el.children
      ensures Conforms(c, value) <==> Named(c, SAML, "AttributeValue") && c.children == []
    {
      LeafConforms(c, value);
    }
  }

  lemma AttributesFit(el: Element)
    ensures Conforms(el, ATTRIBUTES) <==> Named(el, SAML, "AttributeStatement") && AttributeStatementOk(el)
  {
    hide Conforms, PartOk, Listed, AttributeOk;
    Unfold1(el, ATTRIBUTES);
    AnyPart(el, ATTRIBUTE);
    Listed1(el, ATTRIBUTES.parts, SAML, "Attribute");
    forall c | c in el.children
      ensures Conforms(c, ATTRIBUTE) <==> Named(c, SAML, "Attribute") && AttributeOk(c)
    {
      AttributeFits(c);
    }
  }

  /** Children that all have one name are as many as the children of that name. */
  lemma {:induction false} AllMatching(els: seq<Element>, ns: string, tag: string)
    requires forall c | c in els :: Named(c, ns, tag)
    ensures |Matching(els, ns, tag)| == |els|
  {
    if els != [] {
      AllMatching(els[1..], ns, tag);
    }
  }

  lemma TransformsFit(el: Element)
    ensures Conforms(el, TRANSFORMS) <==>
      && Named(el, DS, "Transforms") && Shape(el, DSIG_NS, ["Transform"]) && |el.children| == 2
      && el.children[0].children == [] && el.children[1].children == []
  {
    hide Conforms, Listed, Matching;
    var one := Empty(DS, "Transform", None);
    Unfold1(el, TRANSFORMS);
    Listed1(el, TRANSFORMS.parts, DS, "Transform");
    forall c | c in el.children
      ensures Conforms(c, one) <==> Named(c, DS, "Transform") && c.children == []
    {
      LeafConforms(c, one);
    }
    if Shape(el, DSIG_NS, ["Transform"]) {
      AllMatching(el.children, DS, "Transform");
      assert |el.children| == 2 ==> el.children == [el.children[0], el.children[1]];
    }
  }

  /** The two transforms, in this order. */
  predicate TransformValues(r: Element) {
    One(r, DS, "Transforms").Some? && |One(r, DS, "Transforms").value.children| == 2 ==>
      var t := One(r, DS, "Transforms").value.children;
      && AttrOf(t[0], "Algorithm") == "http://www.w3.org/2000/09/xmldsig#enveloped-signature"
      && AttrOf(t[1], "Algorithm") == "http://www.w3.org/2001/10/xml-exc-c14n#"
  }

  /** What the checks of a reference compare, besides its structure. */
  predicate ReferenceValues(r: Element, id: string, digest: string) {
    && AttrOf(r, "URI") == "#" + id
    && TransformValues(r)
    && digest != ""
    && (One(r, DS, "DigestMethod").Some? ==> AttrOf(One(r, DS, "DigestMethod").value, "Algorithm") == digest)
  }

  lemma TransformsPart(r: Element)
    ensures TransformsOk(r) <==> PartOk(r, Once(TRANSFORMS)) && TransformValues(r)
  {
    hide Conforms, PartOk, One, Shape, AttrOf;
    assert DSIG_NS + "enveloped-signature" == "http://www.w3.org/2000/09/xmldsig#enveloped-signature";
    OncePart(r, TRANSFORMS);
    if One(r, DS, "Transforms").Some? {
      OneIsChild(r, DS, "Transforms");
      TransformsFit(One(r, DS, "Transforms").value);
    }
  }

  lemma ReferenceFits(r: Element, id: string, digest: string)
    ensures Named(r, DS, "Reference") && ReferenceOk(r, id, digest) <==>
      Conforms(r, REFERENCE) && ReferenceValues(r, id, digest)
  {
    hide Conforms, PartOk, One, Listed, Shape, BoundedText, AttrOf, TransformsOk, TransformValues;
    Unfold3(r, REFERENCE);
    TransformsPart(r);
    OnceLeaf(r, Empty(DS, "DigestMethod", None));
    OnceLeaf(r, TextOnly(DS, "DigestValue", None));
    Listed3(r, REFERENCE.parts, DS, "Transforms", "DigestMethod", "DigestValue");
  }

  /** The digest that belongs to each admitted signature algorithm. */
  const DIGESTS: map<string, string> := map[
    "http://www.w3.org/2001/04/xmldsig-more#rsa-sha256" := "http://www.w3.org/2001/04/xmlenc#sha256",
    "http://www.w3.org/2001/04/xmldsig-more#rsa-sha384" := "http://www.w3.org/2001/04/xmldsig-more#sha384",
    "http://www.w3.org/2001/04/xmldsig-more#rsa-sha512" := "http://www.w3.org/2001/04/xmlenc#sha512"]

  lemma AlgorithmNames()
    ensures MORE_NS + "rsa-sha256" == "http://www.w3.org/2001/04/xmldsig-more#rsa-sha256"
    ensures MORE_NS + "rsa-sha384" == "http://www.w3.org/2001/04/xmldsig-more#rsa-sha384"
    ensures MORE_NS + "rsa-sha512" == "http://www.w3.org/2001/04/xmldsig-more#rsa-sha512"
  {
  }

  lemma DigestNames()
    ensures ENC_NS + "sha256" == "http://www.w3.org/2001/04/xmlenc#sha256"
    ensures MORE_NS + "sha384" == "http://www.w3.org/2001/04/xmldsig-more#sha384"
    ensures ENC_NS + "sha512" == "http://www.w3.org/2001/04/xmlenc#sha512"
  {
  }

  lemma DigestsAreThese(algorithm: string)
    ensures DigestFor(algorithm) == if algorithm in DIGESTS then DIGESTS[algorithm] else ""
  {
    AlgorithmNames();
    DigestNames();
    hide MORE_NS, ENC_NS;
  }

  predicate SignedInfoValues(info: Element, id: string) {
    && (One(info, DS, "CanonicalizationMethod").Some? ==>
          AttrOf(One(info, DS, "CanonicalizationMethod").value, "Algorithm")
            == "http://www.w3.org/2001/10/xml-exc-c14n#")
    && (One(info, DS, "SignatureMethod").Some? && One(info, DS, "Reference").Some? ==>
          var algorithm := AttrOf(One(info, DS, "SignatureMethod").value, "Algorithm");
          && algorithm in DIGESTS
          && ReferenceValues(One(info, DS, "Reference").value, id, DIGESTS[algorithm]))
  }

  lemma SignedInfoFits(info: Element, id: string)
    ensures Named(info, DS, "SignedInfo") && SignedInfoOk(info, id) <==>
      Conforms(info, SIGNED_INFO) && SignedInfoValues(info, id)
  {
    hide Conforms, PartOk, One, Listed, Shape, AttrOf, ReferenceOk, DigestFor;
    Unfold3(info, SIGNED_INFO);
    OnceLeaf(info, Empty(DS, "CanonicalizationMethod", None));
    OnceLeaf(info, Empty(DS, "SignatureMethod", None));
    OncePart(info, REFERENCE);
    Listed3(info, SIGNED_INFO.parts, DS, "CanonicalizationMethod", "SignatureMethod", "Reference");
    if One(info, DS, "SignatureMethod").Some? && One(info, DS, "Reference").Some? {
      var algorithm := AttrOf(One(info, DS, "SignatureMethod").value, "Algorithm");
      OneIsChild(info, DS, "Reference");
      DigestsAreThese(algorithm);
      ReferenceFits(One(info, DS, "Reference").value, id, DigestFor(algorithm));
    }
  }

  lemma KeyInfoFits(p: Provider, key: Element)
    ensures Named(key, DS, "KeyInfo") && KeyInfoOk(p, key) <==> Conforms(key, KEY_INFO) && KeyValues(p, key)
  {
    hide Conforms, PartOk, One, Listed, Shape, BoundedText;
    Unfold1(key, KEY_INFO);
    OncePart(key, X509_DATA);
    Listed1(key, KEY_INFO.parts, DS, "X509Data");
    if One(key, DS, "X509Data").Some? {
      OneIsChild(key, DS, "X509Data");
      DataFits(One(key, DS, "X509Data").value);
    }
  }

  lemma DataFits(el: Element)
    ensures Conforms(el, X509_DATA) <==>
      && Named(el, DS, "X509Data")
      && Shape(el, DSIG_NS, ["X509Certificate"]) && OneTextLeaf(el, DSIG_NS, "X509Certificate")
  {
    hide Conforms, PartOk, One, Listed, Shape, BoundedText;
    Unfold1(el, X509_DATA);
    OnceLeaf(el, TextOnly(DS, "X509Certificate", None));
    Listed1(el, X509_DATA.parts, DS, "X509Certificate");
  }

  /** A certificate in the signature is the configured one. */
  predicate KeyValues(p: Provider, key: Element) {
    One(key, DS, "X509Data").Some? && One(One(key, DS, "X509Data").value, DS, "X509Certificate").Some? ==>
      p.decodeCertificate(One(One(key, DS, "X509Data").value, DS, "X509Certificate").value.text) == Some(p.certificate)
  }

  predicate SignatureValues(p: Provider, sig: Element, id: string) {
    && (One(sig, DS, "SignedInfo").Some? ==> SignedInfoValues(One(sig, DS, "SignedInfo").value, id))
    && forall k | k in sig.children && Named(k, DS, "KeyInfo") :: KeyValues(p, k)
  }

  /** A part that occurs at most once. */
  lemma OptionalPart(el: Element, s: Schema)
    ensures PartOk(el, Part(s, 0, Some(1))) <==>
      && |Matching(el.children, s.ns, s.tag)| <= 1
      && forall c | c in Matching(el.children, s.ns, s.tag) :: Conforms(c, s)
  {
    hide Conforms, Matching;
    forall c
      ensures c in Matching(el.children, s.ns, s.tag) <==> c in el.children && Named(c, s.ns, s.tag)
    {
      MatchingMembers(el.children, s.ns, s.tag, c);
    }
  }

  lemma KeysFit(p: Provider, sig: Element)
    ensures (forall k | k in Matching(sig.children, DS, "KeyInfo") :: KeyInfoOk(p, k)) <==>
      && (forall k | k in Matching(sig.children, DS, "KeyInfo") :: Conforms(k, KEY_INFO))
      && (forall k | k in sig.children && Named(k, DS, "KeyInfo") :: KeyValues(p, k))
  {
    hide Conforms, Matching, KeyInfoOk, KeyValues;
    forall k
      ensures k in Matching(sig.children, DS, "KeyInfo") <==> k in sig.children && Named(k, DS, "KeyInfo")
    {
      MatchingMembers(sig.children, DS, "KeyInfo", k);
    }
    forall k
      ensures Named(k, DS, "KeyInfo") && KeyInfoOk(p, k) <==> Conforms(k, KEY_INFO) && KeyValues(p, k)
    {
      KeyInfoFits(p, k);
    }
    forall k
      ensures Conforms(k, KEY_INFO) ==> Named(k, DS, "KeyInfo")
    {
      ConformsIsNamed(k, KEY_INFO);
    }
  }

  lemma ConformsIsNamed(el: Element, s: Schema)
    ensures Conforms(el, s) ==> Named(el, s.ns, s.tag)
  {
  }

  lemma SignatureFits(p: Provider, sig: Element, id: string)
    ensures Named(sig, DS, "Signature") && SignatureShape(p, sig, id) <==>
      Conforms(sig, SIGNATURE) && SignatureValues(p, sig, id)
  {
    hide Conforms, PartOk, One, Listed, Shape, BoundedText, Matching;
    hide SignedInfoOk, SignedInfoValues, KeyInfoOk, KeyValues;
    Unfold3(sig, SIGNATURE);
    OncePart(sig, SIGNED_INFO);
    OnceLeaf(sig, TextOnly(DS, "SignatureValue", None));
    OptionalPart(sig, KEY_INFO);
    Listed3(sig, SIGNATURE.parts, DS, "SignedInfo", "SignatureValue", "KeyInfo");
    KeysFit(p, sig);
    if One(sig, DS, "SignedInfo").Some? {
      OneIsChild(sig, DS, "SignedInfo");
      SignedInfoFits(One(sig, DS, "SignedInfo").value, id);
    }
  }

  // ---------- the assertion and the response ----------

  lemma ListedInAssertion(a: Element)
    ensures (forall c | c in a.children :: Listed(c, ASSERTION.parts)) <==>
      forall c | c in a.children :: Named(c, DSIG_NS, "Signature") || (c.ns == ASSERTION_NS && c.tag in ASSERTION_PARTS)
  {
    var parts := ASSERTION.parts;
    forall c | c in a.children
      ensures Listed(c, parts) <==> Named(c, DSIG_NS, "Signature") || (c.ns == ASSERTION_NS && c.tag in ASSERTION_PARTS)
    {
      assert Named(c, parts[0].schema.ns, parts[0].schema.tag) <==> Named(c, SAML, "Issuer");
      assert Named(c, parts[1].schema.ns, parts[1].schema.tag) <==> Named(c, DS, "Signature");
      assert Named(c, parts[2].schema.ns, parts[2].schema.tag) <==> Named(c, SAML, "Subject");
      assert Named(c, parts[3].schema.ns, parts[3].schema.tag) <==> Named(c, SAML, "Conditions");
      assert Named(c, parts[4].schema.ns, parts[4].schema.tag) <==> Named(c, SAML, "AuthnStatement");
      assert Named(c, parts[5].schema.ns, parts[5].schema.tag) <==> Named(c, SAML, "AttributeStatement");
    }
  }

  /** The four parts of an assertion that are checked by structure alone. */
  lemma PartsFit(a: Element)
    ensures AssertionPartsOk(a) <==>
      && (forall c | c in a.children :: Listed(c, ASSERTION.parts))
      && PartOk(a, ASSERTION.parts[0]) && PartOk(a, ASSERTION.parts[2]) && PartOk(a, ASSERTION.parts[3])
      && PartOk(a, ASSERTION.parts[4]) && PartOk(a, ASSERTION.parts[5])
  {
    hide Conforms, PartOk, One, Listed, BoundedText, SubjectOk, ConditionsOk, AuthnStatementOk, AttributeStatementOk,
         Matching;
    ListedInAssertion(a);
    OnceLeaf(a, ISSUER);
    OnceChild(a, SUBJECT);
    OnceChild(a, CONDITIONS);
    OnceChild(a, STATEMENT);
    OptionalPart(a, ATTRIBUTES);
    forall c
      ensures Conforms(c, SUBJECT) <==> Named(c, SAML, "Subject") && SubjectOk(c)
      ensures Conforms(c, CONDITIONS) <==> Named(c, SAML, "Conditions") && ConditionsOk(c)
      ensures Conforms(c, STATEMENT) <==> Named(c, SAML, "AuthnStatement") && AuthnStatementOk(c)
      ensures Conforms(c, ATTRIBUTES) <==> Named(c, SAML, "AttributeStatement") && AttributeStatementOk(c)
      ensures c in Matching(a.children, SAML, "AttributeStatement") ==> Named(c, SAML, "AttributeStatement")
    {
      SubjectFits(c);
      ConditionsFit(c);
      StatementFits(c);
      AttributesFit(c);
      MatchingMembers(a.children, SAML, "AttributeStatement", c);
    }
  }

  lemma OnceChild(el: Element, s: Schema)
    ensures PartOk(el, Once(s)) <==> One(el, s.ns, s.tag).Some? && Conforms(One(el, s.ns, s.tag).value, s)
    ensures One(el, s.ns, s.tag).Some? ==> Named(One(el, s.ns, s.tag).value, s.ns, s.tag)
  {
    hide PartOk, Conforms, One;
    OncePart(el, s);
    if One(el, s.ns, s.tag).Some? {
      OneIsChild(el, s.ns, s.tag);
    }
  }

  predicate AssertionValues(p: Provider, a: Element, responseID: string) {
    && AttrOf(a, "Version") == "2.0" && IdPattern(AttrOf(a, "ID")) && AttrOf(a, "ID") != responseID
    && (One(a, DS, "Signature").Some? ==> SignatureValues(p, One(a, DS, "Signature").value, AttrOf(a, "ID")))
  }

  lemma AssertionFits(p: Provider, a: Element, responseID: string)
    ensures
      && Named(a, SAML, "Assertion") && AssertionHeaderOk(a, responseID) && AssertionPartsOk(a)
      && One(a, DS, "Signature").Some? && SignatureShape(p, One(a, DS, "Signature").value, AttrOf(a, "ID"))
      <==> Conforms(a, ASSERTION) && AssertionValues(p, a, responseID)
  {
    hide Conforms, PartOk, One, Listed, AttrsOnly, AssertionPartsOk, SignatureShape, SignatureValues, AttrOf, IdPattern;
    Unfold6(a, ASSERTION);
    PartsFit(a);
    OnceChild(a, SIGNATURE);
    if One(a, DS, "Signature").Some? {
      SignatureFits(p, One(a, DS, "Signature").value, AttrOf(a, "ID"));
    }
  }

  /** What the checks of a response compare, besides its structure. */
  predicate ResponseValues(p: Provider, root: Element, requestID: string) {
    && AttrOf(root, "Version") == "2.0"
    && AttrOf(root, "Destination") == p.acsURL
    && AttrOf(root, "InResponseTo") == requestID
    && IdPattern(AttrOf(root, "ID"))
    && IssueTimeOk(p, AttrOf(root, "IssueInstant"))
    && (One(root, SAML, "Issuer").Some? ==> One(root, SAML, "Issuer").value.text == p.idpEntityID)
    && (One(root, SAMLP, "Status").Some? && One(One(root, SAMLP, "Status").value, SAMLP, "StatusCode").Some? ==>
          AttrOf(One(One(root, SAMLP, "Status").value, SAMLP, "StatusCode").value, "Value")
          == "urn:oasis:names:tc:SAML:2.0:status:Success")
    && (One(root, SAML, "Assertion").Some? ==>
          AssertionValues(p, One(root, SAML, "Assertion").value, AttrOf(root, "ID")))
  }

  lemma ListedInResponse(root: Element)
    ensures (forall c | c in root.children :: Listed(c, RESPONSE.parts)) <==>
      forall c | c in root.children ::
        || Named(c, ASSERTION_NS, "Issuer") || Named(c, ASSERTION_NS, "Assertion") || Named(c, PROTOCOL_NS, "Status")
  {
    var parts := RESPONSE.parts;
    forall c | c in root.children
      ensures Listed(c, parts) <==>
        Named(c, ASSERTION_NS, "Issuer") || Named(c, ASSERTION_NS, "Assertion") || Named(c, PROTOCOL_NS, "Status")
    {
      assert Named(c, parts[0].schema.ns, parts[0].schema.tag) <==> Named(c, SAML, "Issuer");
      assert Named(c, parts[1].schema.ns, parts[1].schema.tag) <==> Named(c, SAML, "Assertion");
      assert Named(c, parts[2].schema.ns, parts[2].schema.tag) <==> Named(c, SAMLP, "Status");
    }
  }

  lemma StatusPart(root: Element)
    ensures StatusOk(root) <==>
      && PartOk(root, Once(STATUS))
      && (One(root, SAMLP, "Status").Some? && One(One(root, SAMLP, "Status").value, SAMLP, "StatusCode").Some? ==>
            AttrOf(One(One(root, SAMLP, "Status").value, SAMLP, "StatusCode").value, "Value")
            == "urn:oasis:names:tc:SAML:2.0:status:Success")
  {
    hide Conforms, PartOk, One, Shape, AttrOf;
    OnceChild(root, STATUS);
    if One(root, SAMLP, "Status").Some? {
      StatusFits(One(root, SAMLP, "Status").value);
    }
  }

  /**
   The preflight admits exactly the documents of the schema that carry the expected values and whose
   identifiers are unique.
   */
  lemma AdmissionIsTheSchema(p: Provider, root: Element, requestID: string)
    ensures PreflightOk(p, root, requestID) <==>
      Conforms(root, RESPONSE) && ResponseValues(p, root, requestID) && IdsUnique(TreeIds(root))
  {
    hide Conforms, PartOk, One, Listed, AttrsOnly, AssertionPartsOk, SignatureShape, AssertionHeaderOk, AssertionValues,
         AttrOf, IdPattern, IssueTimeOk, StatusOk, IdsUnique, TreeIds, BoundedText;
    Unfold3(root, RESPONSE);
    ListedInResponse(root);
    OnceLeaf(root, ISSUER);
    OnceChild(root, ASSERTION);
    StatusPart(root);
    if One(root, SAML, "Assertion").Some? {
      AssertionFits(p, One(root, SAML, "Assertion").value, AttrOf(root, "ID"));
    }
  }

  // ---------- what one admission says about the provider, the request and the clock ----------

  /** The issue time lies at most 90 seconds before the clock and at most 30 seconds after it. */
  lemma IssueWindow(p: Provider, text: string)
    ensures IssueTimeOk(p, text) <==>
      && p.parseTime(text).Some? && p.parseTime(text).value != 0
      && p.parseTime(text).value <= p.now + 30_000_000_000
      && p.now <= p.parseTime(text).value + 90_000_000_000
  {
  }

  /** One document answers one request, for one service and from one identity provider. */
  lemma AdmissionFixesItsContext(p: Provider, q: Provider, root: Element, request: string, other: string)
    requires PreflightOk(p, root, request) && PreflightOk(q, root, other)
    ensures request == other && p.acsURL == q.acsURL && p.idpEntityID == q.idpEntityID
  {
    hide Conforms, PreflightOk, AttrOf, AssertionValues, IssueTimeOk, IdPattern, One, IdsUnique, TreeIds;
    AdmissionIsTheSchema(p, root, request);
    AdmissionIsTheSchema(q, root, other);
    Unfold3(root, RESPONSE);
    OnceChild(root, ISSUER);
  }

  /** The same parser at two clock readings admits one document only if they lie within two minutes. */
  lemma AdmissionIsShortLived(p: Provider, q: Provider, root: Element, request: string)
    requires PreflightOk(p, root, request) && PreflightOk(q, root, request) && p.parseTime == q.parseTime
    ensures -120_000_000_000 <= p.now - q.now <= 120_000_000_000
    ensures var issued := p.parseTime(AttrOf(root, "IssueInstant"));
      issued.Some? && issued.value - 30_000_000_000 <= p.now <= issued.value + 90_000_000_000
  {
    hide Conforms, PreflightOk, AttrOf, AssertionValues, IdPattern, One, IdsUnique, TreeIds;
    AdmissionIsTheSchema(p, root, request);
    AdmissionIsTheSchema(q, root, request);
  }

  /** A certificate that is sent along fixes the configured one. */
  lemma SentCertificateIsTheConfigured(p: Provider, root: Element, request: string,
                                       a: Element, sig: Element, key: Element)
    requires PreflightOk(p, root, request) && One(root, SAML, "Assertion") == Some(a)
    requires One(a, DS, "Signature") == Some(sig) && key in sig.children && Named(key, DS, "KeyInfo")
    ensures One(key, DS, "X509Data").Some? && One(One(key, DS, "X509Data").value, DS, "X509Certificate").Some?
    ensures p.decodeCertificate(One(One(key, DS, "X509Data").value, DS, "X509Certificate").value.text)
         == Some(p.certificate)
  {
    hide PreflightOk, AttrOf, IdPattern, IssueTimeOk, IdsUnique, TreeIds, Matching, KeyInfoOk, SignedInfoOk;
    hide BoundedText, Conforms, One;
    AdmissionIsTheSchema(p, root, request);
    Unfold3(root, RESPONSE);
    OnceChild(root, ASSERTION);
    Unfold6(a, ASSERTION);
    OnceChild(a, SIGNATURE);
    Unfold3(sig, SIGNATURE);
    KeyInfoFits(p, key);
    Unfold1(key, KEY_INFO);
    OnceChild(key, X509_DATA);
    Unfold1(One(key, DS, "X509Data").value, X509_DATA);
    OnceChild(One(key, DS, "X509Data").value, TextOnly(DS, "X509Certificate", None));
  }

  /** Texts have one to `max` bytes, no white space at the ends and no control character. */
  lemma TextsAreClean(s: string, max: nat)
    requires BoundedText(s, max)
    ensures 1 <= |s| <= max && s[0] > ' ' && s[|s| - 1] > ' '
    ensures forall c | c in s :: c as int >= 32 && c as int != 127
    ensures !Spaces.StartsInSpace(s) && !Spaces.EndsInSpace(s)
  {
    assert s[0] in s && s[|s| - 1] in s;
  }

  /** Attributes are judged one by one: a namespace declaration, or an allowed name without a prefix. */
  lemma AttributesOneByOne(el: Element, x: Attr, allowed: seq<string>)
    ensures AttrsOnly(el.(attrs := []), allowed)
    ensures AttrsOnly(el.(attrs := [x] + el.attrs), allowed) <==>
      && AttrsOnly(el, allowed)
      && (x.space == "xmlns" || (x.space == "" && x.key == "xmlns") || (x.space == "" && x.key in allowed))
  {
    forall a
      ensures a in [x] + el.attrs <==> a == x || a in el.attrs
    {
    }
  }
}
