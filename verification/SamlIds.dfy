/**
 XML elements as trees, and the walk that admits a document only if every identifier-like
 attribute in it is spelled ID, is well formed, and occurs once.
 */
module SamlIds {

  datatype Attr = Attr(space: string, key: string, value: string)

  /** `ns` is the resolved namespace; `text` the character data before the first child. */
  datatype Element = Element(ns: string, tag: string, attrs: seq<Attr>, text: string, children: seq<Element>)

  /** The attribute's local name is "id" under case folding, and it is no namespace declaration. */
  predicate IdLike(a: Attr) {
    (a.key == "id" || a.key == "Id" || a.key == "iD" || a.key == "ID") && a.space != "xmlns"
  }

  predicate IdStart(c: char) {
    'A' <= c <= 'Z' || 'a' <= c <= 'z' || c == '_'
  }

  predicate IdPart(c: char) {
    IdStart(c) || '0' <= c <= '9' || c == '.' || c == '-'
  }

  /** The identifier pattern: a letter or underscore, then up to 127 name characters. */
  predicate IdPattern(s: string) {
    1 <= |s| <= 128 && IdStart(s[0]) && forall i | 1 <= i < |s| :: IdPart(s[i])
  }

  function Lower(c: char): char {
    if 'A' <= c <= 'Z' then (c as int - 'A' as int + 'a' as int) as char else c
  }

  /** Identifier-like means: folds to "id" letter by letter, whatever the prefix, short of a namespace declaration. */
  lemma IdLikeFolds(a: Attr)
    ensures IdLike(a) <==> a.space != "xmlns" && |a.key| == 2 && Lower(a.key[0]) == 'i' && Lower(a.key[1]) == 'd'
  {
    if |a.key| == 2 && Lower(a.key[0]) == 'i' && Lower(a.key[1]) == 'd' {
      assert a.key == [a.key[0], a.key[1]];
      assert a.key[0] == 'i' || a.key[0] == 'I';
      assert a.key[1] == 'd' || a.key[1] == 'D';
    }
  }

  /** Identifiers grow letter by letter up to 128: first a letter or "_", then also digits, "." and "-". */
  lemma IdsGrow(s: string, c: char)
    ensures !IdPattern("")
    ensures IdPattern([c]) <==> 'A' <= c <= 'Z' || 'a' <= c <= 'z' || c == '_'
    ensures s != "" ==>
      (IdPattern(s + [c]) <==>
        && IdPattern(s) && |s| < 128
        && ('A' <= c <= 'Z' || 'a' <= c <= 'z' || c == '_' || '0' <= c <= '9' || c == '.' || c == '-'))
  {
    if s != "" {
      var t := s + [c];
      assert t[|s|] == c && forall i | 0 <= i < |s| :: t[i] == s[i];
    }
  }

  predicate ProperId(a: Attr) {
    a.key == "ID" && a.space == "" && IdPattern(a.value)
  }

  // ---------- identifier attributes in document order ----------

  function OwnIds(attrs: seq<Attr>): seq<Attr> {
    if attrs == [] then []
    else (if IdLike(attrs[0]) then [attrs[0]] else []) + OwnIds(attrs[1..])
  }

  function TreeIds(el: Element): seq<Attr>
    decreases el, 1
  {
    OwnIds(el.attrs) + ForestIds(el.children)
  }

  function ForestIds(els: seq<Element>): seq<Attr>
    decreases els, 0
  {
    if els == [] then [] else TreeIds(els[0]) + ForestIds(els[1..])
  }

  function Values(attrs: seq<Attr>): set<string> {
    set a | a in attrs :: a.value
  }

  /** All proper, none in `seen`, none repeated. */
  predicate Admissible(attrs: seq<Attr>, seen: set<string>) {
    attrs == [] || (ProperId(attrs[0]) && attrs[0].value !in seen && Admissible(attrs[1..], seen + {attrs[0].value}))
  }

  lemma {:induction false} AdmissibleSplit(a: seq<Attr>, b: seq<Attr>, seen: set<string>)
    ensures Admissible(a + b, seen) <==> Admissible(a, seen) && Admissible(b, seen + Values(a))
    ensures Values(a + b) == Values(a) + Values(b)
  {
    if a == [] {
      assert a + b == b;
      assert seen + Values(a) == seen;
    } else {
      AdmissibleSplit(a[1..], b, seen + {a[0].value});
      assert (a + b)[1..] == a[1..] + b;
      assert seen + {a[0].value} + Values(a[1..]) == seen + Values(a);
    }
  }

  /** The shared set of identifiers met so far. */
  class IdWalker {
    var ids: set<string>

    constructor ()
      ensures ids == {}
    {
      ids := {};
    }

    method Walk(el: Element) returns (ok: bool)
      modifies this
      ensures ok == Admissible(TreeIds(el), old(ids))
      ensures ok ==> ids == old(ids) + Values(TreeIds(el))
      decreases el
    {
      hide OwnIds, ForestIds, Admissible, Values, IdLike, ProperId;
      ghost var start := ids;
      NothingYet(start);
      assert el.attrs[..0] == [] && el.children[..0] == [];
      for i := 0 to |el.attrs|
        invariant Admissible(OwnIds(el.attrs[..i]), start) && ids == start + Values(OwnIds(el.attrs[..i]))
      {
        var attr := el.attrs[i];
        AttrStep(el.attrs, i, start);
        if IdLike(attr) {
          if !ProperId(attr) || attr.value in ids {
            AttrRejects(el, i, start);
            return false;
          }
          ids := ids + {attr.value};
        }
      }
      assert el.attrs[..|el.attrs|] == el.attrs;
      AdmissibleSplit(OwnIds(el.attrs), ForestIds(el.children), start);
      ghost var mid := ids;
      NothingYet(mid);
      for i := 0 to |el.children|
        invariant Admissible(ForestIds(el.children[..i]), mid) && ids == mid + Values(ForestIds(el.children[..i]))
      {
        ChildStep(el.children, i, mid);
        var valid := Walk(el.children[i]);
        if !valid {
          ChildRejects(el.children, i, mid);
          return false;
        }
      }
      assert el.children[..|el.children|] == el.children;
      return true;
    }
  }

  lemma NothingYet(seen: set<string>)
    ensures OwnIds([]) == [] && ForestIds([]) == [] && Admissible([], seen) && Values([]) == {}
  {
  }

  lemma {:induction false} OwnIdsSplit(a: seq<Attr>, b: seq<Attr>)
    ensures OwnIds(a + b) == OwnIds(a) + OwnIds(b)
  {
    hide IdLike;
    if a == [] {
      assert a + b == b;
    } else {
      OwnIdsSplit(a[1..], b);
      assert (a + b)[1..] == a[1..] + b;
      Associative(if IdLike(a[0]) then [a[0]] else [], OwnIds(a[1..]), OwnIds(b));
    }
  }

  lemma Associative<T>(a: seq<T>, b: seq<T>, c: seq<T>)
    ensures (a + b) + c == a + (b + c)
  {
  }

  lemma {:induction false} ForestIdsSplit(a: seq<Element>, b: seq<Element>)
    ensures ForestIds(a + b) == ForestIds(a) + ForestIds(b)
  {
    hide TreeIds;
    if a == [] {
      assert a + b == b;
    } else {
      ForestIdsSplit(a[1..], b);
      assert (a + b)[1..] == a[1..] + b;
      Associative(TreeIds(a[0]), ForestIds(a[1..]), ForestIds(b));
    }
  }

  lemma AttrStep(attrs: seq<Attr>, i: nat, seen: set<string>)
    requires i < |attrs|
    ensures var a := attrs[i]; var done := OwnIds(attrs[..i]); var next := OwnIds(attrs[..i + 1]);
      && (!IdLike(a) ==> next == done)
      && (IdLike(a) ==> Values(next) == Values(done) + {a.value})
      && (Admissible(done, seen) && IdLike(a) ==>
          (Admissible(next, seen) <==> ProperId(a) && a.value !in seen + Values(done)))
  {
    var one := [attrs[i]];
    assert attrs[..i + 1] == attrs[..i] + one;
    OwnIdsSplit(attrs[..i], one);
    assert one[1..] == [];
    assert OwnIds(one) == if IdLike(attrs[i]) then one else [];
    AdmissibleSplit(OwnIds(attrs[..i]), OwnIds(one), seen);
    assert Admissible([], seen + Values(OwnIds(attrs[..i])) + {attrs[i].value});
  }

  /** A rejected attribute rejects the whole element. */
  lemma AttrRejects(el: Element, i: nat, seen: set<string>)
    requires i < |el.attrs| && !Admissible(OwnIds(el.attrs[..i + 1]), seen)
    ensures !Admissible(TreeIds(el), seen)
  {
    assert el.attrs == el.attrs[..i + 1] + el.attrs[i + 1..];
    OwnIdsSplit(el.attrs[..i + 1], el.attrs[i + 1..]);
    AdmissibleSplit(OwnIds(el.attrs[..i + 1]), OwnIds(el.attrs[i + 1..]), seen);
    AdmissibleSplit(OwnIds(el.attrs), ForestIds(el.children), seen);
  }

  lemma ChildStep(els: seq<Element>, i: nat, seen: set<string>)
    requires i < |els|
    ensures var done := ForestIds(els[..i]); var next := ForestIds(els[..i + 1]);
      && (Admissible(next, seen) <==> Admissible(done, seen) && Admissible(TreeIds(els[i]), seen + Values(done)))
      && Values(next) == Values(done) + Values(TreeIds(els[i]))
  {
    var one := [els[i]];
    assert els[..i + 1] == els[..i] + one;
    ForestIdsSplit(els[..i], one);
    assert one[1..] == [];
    assert ForestIds(one) == TreeIds(els[i]);
    AdmissibleSplit(ForestIds(els[..i]), TreeIds(els[i]), seen);
  }

  lemma ChildRejects(els: seq<Element>, i: nat, seen: set<string>)
    requires i < |els| && !Admissible(ForestIds(els[..i + 1]), seen)
    ensures !Admissible(ForestIds(els), seen)
  {
    assert els == els[..i + 1] + els[i + 1..];
    ForestIdsSplit(els[..i + 1], els[i + 1..]);
    AdmissibleSplit(ForestIds(els[..i + 1]), ForestIds(els[i + 1..]), seen);
  }

  // ---------- what admission means for the whole document ----------

  /** Every identifier-like attribute of the tree is proper, and no two carry one value. */
  predicate IdsUnique(attrs: seq<Attr>) {
    && (forall i | 0 <= i < |attrs| :: ProperId(attrs[i]))
    && (forall i, j | 0 <= i < j < |attrs| :: attrs[i].value != attrs[j].value)
  }

  /** The first attribute against the rest. */
  lemma UniqueStep(attrs: seq<Attr>)
    requires attrs != []
    ensures IdsUnique(attrs) <==> ProperId(attrs[0]) && IdsUnique(attrs[1..]) && attrs[0].value !in Values(attrs[1..])
  {
    var rest := attrs[1..];
    assert forall i | 0 <= i < |rest| :: rest[i] == attrs[i + 1] && rest[i].value in Values(rest);
    assert forall i | 1 <= i < |attrs| :: attrs[i] == rest[i - 1];
  }

  lemma {:induction false} AdmissibleIsUnique(attrs: seq<Attr>, seen: set<string>)
    ensures Admissible(attrs, seen) <==> IdsUnique(attrs) && Values(attrs) !! seen
  {
    if attrs != [] {
      AdmissibleIsUnique(attrs[1..], seen + {attrs[0].value});
      UniqueStep(attrs);
      hide IdsUnique, ProperId;
      assert attrs == [attrs[0]] + attrs[1..];
      assert Values(attrs) == {attrs[0].value} + Values(attrs[1..]);
    }
  }

  /** The walk's verdict on a document: exactly the documents with unique proper identifiers. */
  method WalkDocument(root: Element) returns (ok: bool)
    ensures ok <==> IdsUnique(TreeIds(root))
  {
    var walker := new IdWalker();
    ok := walker.Walk(root);
    AdmissibleIsUnique(TreeIds(root), {});
  }
}
