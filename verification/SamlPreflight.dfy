/**
 The structural checks a SAML response passes before its signature is looked at. Together
 they fix the whole document: wherever it is admitted, the signature's reference names
 exactly one element, the one assertion (section 5.4.2 of SAML 2.0 Core).
 */
module SamlPreflight {
  import opened Prelude
  import opened SamlIds
  import Spaces

  const ASSERTION_NS := "urn:oasis:names:tc:SAML:2.0:assertion"
  const PROTOCOL_NS := "urn:oasis:names:tc:SAML:2.0:protocol"
  const DSIG_NS := "http://www.w3.org/2000/09/xmldsig#"
  const EXCLUSIVE_C14N := "http://www.w3.org/2001/10/xml-exc-c14n#"
  const STATUS_SUCCESS := "urn:oasis:names:tc:SAML:2.0:status:Success"

  const SECOND := 1_000_000_000
  const CLOCK_SKEW := 30 * SECOND
  const MAX_ISSUE_AGE := 90 * SECOND

  /**
   The service provider's settings and its clock, in nanoseconds from the zero time on. Two library
   calls are taken as given: reading a timestamp, and decoding a certificate's text.
   */
  datatype Provider = Provider(
    acsURL: string,
    idpEntityID: string,
    certificate: string,
    now: int,
    parseTime: string -> Option<int>,
    decodeCertificate: string -> Option<string>)

  /** Issued at most 90 seconds ago and at most 30 seconds ahead. */
  predicate IssueTimeOk(p: Provider, text: string) {
    var t := p.parseTime(text);
    t.Some? && t.value != 0 && p.now - MAX_ISSUE_AGE <= t.value <= p.now + CLOCK_SKEW
  }

  /** Not empty, bounded, trimmed and without control characters. */
  predicate BoundedText(s: string, max: nat) {
    && s != "" && |s| <= max
    && !Spaces.StartsInSpace(s) && !Spaces.EndsInSpace(s)
    && forall c | c in s :: c >= ' ' && c != '\U{7F}'
  }

  // ---------- small accessors ----------

  predicate Named(el: Element, ns: string, tag: string) {
    el.ns == ns && el.tag == tag
  }

  function Matching(els: seq<Element>, ns: string, tag: string): seq<Element> {
    if els == [] then []
    else (if Named(els[0], ns, tag) then [els[0]] else []) + Matching(els[1..], ns, tag)
  }

  /** The one child of that name, if there is exactly one. */
  function One(el: Element, ns: string, tag: string): Option<Element> {
    var found := Matching(el.children, ns, tag);
    if |found| == 1 then Some(found[0]) else None
  }

  predicate Shape(el: Element, ns: string, allowed: seq<string>) {
    forall c | c in el.children :: c.ns == ns && c.tag in allowed
  }

  predicate TextLeaf(el: Element) {
    el.children == [] && BoundedText(el.text, 4096)
  }

  predicate OneTextLeaf(el: Element, ns: string, tag: string) {
    One(el, ns, tag).Some? && TextLeaf(One(el, ns, tag).value)
  }

  predicate OneEmpty(el: Element, ns: string, tag: string) {
    One(el, ns, tag).Some? && One(el, ns, tag).value.children == []
  }

  predicate AttrsOnly(el: Element, allowed: seq<string>) {
    forall a | a in el.attrs ::
      a.space == "xmlns" || (a.space == "" && (a.key == "xmlns" || a.key in allowed))
  }

  /** The first attribute of that local name, whatever its prefix; "" when there is none. */
  function Select(attrs: seq<Attr>, key: string): string {
    if attrs == [] then "" else if attrs[0].key == key then attrs[0].value else Select(attrs[1..], key)
  }

  function AttrOf(el: Element, key: string): string {
    Select(el.attrs, key)
  }

  // ---------- the checks, subtree by subtree ----------

  predicate ResponseHeaderOk(p: Provider, root: Element, requestID: string) {
    && Named(root, PROTOCOL_NS, "Response")
    && AttrsOnly(root, ["ID", "Version", "IssueInstant", "Destination", "InResponseTo"])
    && AttrOf(root, "Version") == "2.0"
    && AttrOf(root, "Destination") == p.acsURL
    && AttrOf(root, "InResponseTo") == requestID
    && IdPattern(AttrOf(root, "ID"))
    && IssueTimeOk(p, AttrOf(root, "IssueInstant"))
  }

  predicate StatusOk(root: Element) {
    var status := One(root, PROTOCOL_NS, "Status");
    && status.Some? && Shape(status.value, PROTOCOL_NS, ["StatusCode"])
    && OneEmpty(status.value, PROTOCOL_NS, "StatusCode")
    && AttrOf(One(status.value, PROTOCOL_NS, "StatusCode").value, "Value") == STATUS_SUCCESS
  }

  predicate ResponseChildrenOk(p: Provider, root: Element) {
    && (forall c | c in root.children ::
          || Named(c, ASSERTION_NS, "Issuer") || Named(c, ASSERTION_NS, "Assertion") || Named(c, PROTOCOL_NS, "Status"))
    && OneTextLeaf(root, ASSERTION_NS, "Issuer")
    && One(root, ASSERTION_NS, "Issuer").value.text == p.idpEntityID
    && StatusOk(root)
  }

  predicate AssertionHeaderOk(a: Element, responseID: string) {
    && AttrsOnly(a, ["ID", "Version", "IssueInstant"])
    && AttrOf(a, "Version") == "2.0"
    && IdPattern(AttrOf(a, "ID"))
    && AttrOf(a, "ID") != responseID
  }

  const ASSERTION_PARTS: seq<string> := ["Issuer", "Subject", "Conditions", "AuthnStatement", "AttributeStatement"]

  predicate SubjectOk(subject: Element) {
    && Shape(subject, ASSERTION_NS, ["NameID", "SubjectConfirmation"])
    && OneTextLeaf(subject, ASSERTION_NS, "NameID")
    && AttrsOnly(One(subject, ASSERTION_NS, "NameID").value, ["Format", "NameQualifier", "SPNameQualifier"])
    && One(subject, ASSERTION_NS, "SubjectConfirmation").Some?
    && var confirmation := One(subject, ASSERTION_NS, "SubjectConfirmation").value;
    && AttrsOnly(confirmation, ["Method"])
    && Shape(confirmation, ASSERTION_NS, ["SubjectConfirmationData"])
    && OneEmpty(confirmation, ASSERTION_NS, "SubjectConfirmationData")
    && AttrsOnly(One(confirmation, ASSERTION_NS, "SubjectConfirmationData").value,
                 ["InResponseTo", "Recipient", "NotOnOrAfter"])
  }

  predicate ConditionsOk(conditions: Element) {
    && AttrsOnly(conditions, ["NotBefore", "NotOnOrAfter"])
    && Shape(conditions, ASSERTION_NS, ["AudienceRestriction"])
    && One(conditions, ASSERTION_NS, "AudienceRestriction").Some?
    && var restriction := One(conditions, ASSERTION_NS, "AudienceRestriction").value;
    && Shape(restriction, ASSERTION_NS, ["Audience"])
    && OneTextLeaf(restriction, ASSERTION_NS, "Audience")
  }

  predicate AuthnStatementOk(statement: Element) {
    && AttrsOnly(statement, ["AuthnInstant", "SessionIndex", "SessionNotOnOrAfter"])
    && Shape(statement, ASSERTION_NS, ["AuthnContext"])
    && One(statement, ASSERTION_NS, "AuthnContext").Some?
    && var context := One(statement, ASSERTION_NS, "AuthnContext").value;
    && Shape(context, ASSERTION_NS, ["AuthnContextClassRef"])
    && OneTextLeaf(context, ASSERTION_NS, "AuthnContextClassRef")
  }

  predicate AttributeStatementOk(attributes: Element) {
    && Shape(attributes, ASSERTION_NS, ["Attribute"])
    && forall a | a in attributes.children :: AttributeOk(a)
  }

  predicate AttributeOk(attribute: Element) {
    && AttrsOnly(attribute, ["Name", "NameFormat", "FriendlyName"])
    && Shape(attribute, ASSERTION_NS, ["AttributeValue"])
    && forall v | v in attribute.children :: v.children == []
  }

  predicate AssertionPartsOk(a: Element) {
    && (forall c | c in a.children ::
          Named(c, DSIG_NS, "Signature") || (c.ns == ASSERTION_NS && c.tag in ASSERTION_PARTS))
    && OneTextLeaf(a, ASSERTION_NS, "Issuer")
    && One(a, ASSERTION_NS, "Subject").Some? && SubjectOk(One(a, ASSERTION_NS, "Subject").value)
    && One(a, ASSERTION_NS, "Conditions").Some? && ConditionsOk(One(a, ASSERTION_NS, "Conditions").value)
    && One(a, ASSERTION_NS, "AuthnStatement").Some? && AuthnStatementOk(One(a, ASSERTION_NS, "AuthnStatement").value)
    && |Matching(a.children, ASSERTION_NS, "AttributeStatement")| <= 1
    && forall s | s in Matching(a.children, ASSERTION_NS, "AttributeStatement") :: AttributeStatementOk(s)
  }

  const MORE_NS := "http://www.w3.org/2001/04/xmldsig-more#"
  const ENC_NS := "http://www.w3.org/2001/04/xmlenc#"

  /** The digest that goes with a signature algorithm; "" for any other algorithm. */
  function DigestFor(algorithm: string): string {
    if algorithm == MORE_NS + "rsa-sha256" then ENC_NS + "sha256"
    else if algorithm == MORE_NS + "rsa-sha384" then MORE_NS + "sha384"
    else if algorithm == MORE_NS + "rsa-sha512" then ENC_NS + "sha512"
    else ""
  }

  predicate TransformsOk(reference: Element) {
    One(reference, DSIG_NS, "Transforms").Some? &&
    var transforms := One(reference, DSIG_NS, "Transforms").value;
    && Shape(transforms, DSIG_NS, ["Transform"])
    && |transforms.children| == 2
    && AttrOf(transforms.children[0], "Algorithm") == DSIG_NS + "enveloped-signature"
    && AttrOf(transforms.children[1], "Algorithm") == EXCLUSIVE_C14N
    && transforms.children[0].children == [] && transforms.children[1].children == []
  }

  predicate ReferenceOk(reference: Element, id: string, digest: string) {
    && AttrOf(reference, "URI") == "#" + id
    && Shape(reference, DSIG_NS, ["Transforms", "DigestMethod", "DigestValue"])
    && TransformsOk(reference)
    && OneEmpty(reference, DSIG_NS, "DigestMethod")
    && digest != "" && AttrOf(One(reference, DSIG_NS, "DigestMethod").value, "Algorithm") == digest
    && OneTextLeaf(reference, DSIG_NS, "DigestValue")
  }

  predicate SignedInfoOk(info: Element, id: string) {
    && Shape(info, DSIG_NS, ["CanonicalizationMethod", "SignatureMethod", "Reference"])
    && OneEmpty(info, DSIG_NS, "CanonicalizationMethod")
    && AttrOf(One(info, DSIG_NS, "CanonicalizationMethod").value, "Algorithm") == EXCLUSIVE_C14N
    && OneEmpty(info, DSIG_NS, "SignatureMethod")
    && One(info, DSIG_NS, "Reference").Some?
    && ReferenceOk(One(info, DSIG_NS, "Reference").value, id,
                   DigestFor(AttrOf(One(info, DSIG_NS, "SignatureMethod").value, "Algorithm")))
  }

  predicate KeyInfoOk(p: Provider, key: Element) {
    && Shape(key, DSIG_NS, ["X509Data"])
    && One(key, DSIG_NS, "X509Data").Some?
    && var data := One(key, DSIG_NS, "X509Data").value;
    && Shape(data, DSIG_NS, ["X509Certificate"])
    && OneTextLeaf(data, DSIG_NS, "X509Certificate")
    && p.decodeCertificate(One(data, DSIG_NS, "X509Certificate").value.text) == Some(p.certificate)
  }

  predicate SignatureShape(p: Provider, sig: Element, id: string) {
    && Shape(sig, DSIG_NS, ["SignedInfo", "SignatureValue", "KeyInfo"])
    && One(sig, DSIG_NS, "SignedInfo").Some? && SignedInfoOk(One(sig, DSIG_NS, "SignedInfo").value, id)
    && OneTextLeaf(sig, DSIG_NS, "SignatureValue")
    && |Matching(sig.children, DSIG_NS, "KeyInfo")| <= 1
    && forall k | k in Matching(sig.children, DSIG_NS, "KeyInfo") :: KeyInfoOk(p, k)
  }

  /** Everything the preflight demands of a document. */
  predicate PreflightOk(p: Provider, root: Element, requestID: string) {
    && ResponseHeaderOk(p, root, requestID)
    && ResponseChildrenOk(p, root)
    && One(root, ASSERTION_NS, "Assertion").Some?
    && var a := One(root, ASSERTION_NS, "Assertion").value;
    && AssertionHeaderOk(a, AttrOf(root, "ID"))
    && IdsUnique(TreeIds(root))
    && AssertionPartsOk(a)
    && One(a, DSIG_NS, "Signature").Some?
    && SignatureShape(p, One(a, DSIG_NS, "Signature").value, AttrOf(a, "ID"))
  }

  /** Runs the checks in order; the answer is the response's own ID. */
  method Preflight(p: Provider, root: Element, requestID: string) returns (r: Option<string>)
    ensures r == if PreflightOk(p, root, requestID) then Some(AttrOf(root, "ID")) else None
  {
    if !ResponseHeaderOk(p, root, requestID) || !ResponseChildrenOk(p, root) {
      return None;
    }
    var a := One(root, ASSERTION_NS, "Assertion");
    if a.None? || !AssertionHeaderOk(a.value, AttrOf(root, "ID")) {
      return None;
    }
    var unique := WalkDocument(root);
    if !unique || !AssertionPartsOk(a.value) {
      return None;
    }
    var sig := One(a.value, DSIG_NS, "Signature");
    if sig.None? || !SignatureShape(p, sig.value, AttrOf(a.value, "ID")) {
      return None;
    }
    return Some(AttrOf(root, "ID"));
  }
}
