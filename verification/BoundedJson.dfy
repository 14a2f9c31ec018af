/**
 The budgeted validator of provider responses: over the token stream of one JSON document it
 accepts exactly one value of bounded depth and size whose objects have distinct keys.
 Commas and colons are checked by the tokenizer; `Bad` is its first error.
 */
module BoundedJson {
  import opened Prelude

  const MAX_DEPTH := 32
  const MAX_TOKENS := 100000

  datatype Token = ObjectStart | ObjectEnd | ArrayStart | ArrayEnd | Text(text: string) | Atom(literal: string) | Bad

  /** A JSON value (RFC 8259); numbers, booleans and null are atoms. */
  datatype Json =
    | String(text: string)
    | Literal(literal: string)
    | Array(items: seq<Json>)
    | Object(members: seq<Member>)

  datatype Member = Member(key: string, value: Json)

  function Print(j: Json): (ts: seq<Token>)
    ensures |ts| > 0 && ts[0] != ObjectEnd && ts[0] != ArrayEnd
    decreases j, 1
  {
    match j
    case String(s) => [Text(s)]
    case Literal(s) => [Atom(s)]
    case Array(items) => [ArrayStart] + PrintItems(items)
    case Object(members) => [ObjectStart] + PrintMembers(members)
  }

  /** The items and the bracket that closes them. */
  function PrintItems(items: seq<Json>): (ts: seq<Token>)
    ensures |ts| > 0
    decreases items, 0
  {
    if items == [] then [ArrayEnd] else Print(items[0]) + PrintItems(items[1..])
  }

  function PrintMembers(members: seq<Member>): (ts: seq<Token>)
    ensures |ts| > 0
    decreases members, 0
  {
    if members == [] then [ObjectEnd]
    else [Text(members[0].key)] + Print(members[0].value) + PrintMembers(members[1..])
  }

  /** Values plus keys. */
  function Count(j: Json): nat
    decreases j, 1
  {
    match j
    case String(_) => 1
    case Literal(_) => 1
    case Array(items) => 1 + CountItems(items)
    case Object(members) => 1 + CountMembers(members)
  }

  function CountItems(items: seq<Json>): nat
    decreases items, 0
  {
    if items == [] then 0 else Count(items[0]) + CountItems(items[1..])
  }

  function CountMembers(members: seq<Member>): nat
    decreases members, 0
  {
    if members == [] then 0 else 1 + Count(members[0].value) + CountMembers(members[1..])
  }

  /** Every value lies at most `depth` levels below the root, and no object repeats a key. */
  predicate Fits(j: Json, depth: int)
    decreases j, 1
  {
    depth >= 0 &&
    match j
    case String(_) => true
    case Literal(_) => true
    case Array(items) => FitItems(items, depth - 1)
    case Object(members) => FitMembers(members, depth - 1, {})
  }

  predicate FitItems(items: seq<Json>, depth: int)
    decreases items, 0
  {
    items == [] || (Fits(items[0], depth) && FitItems(items[1..], depth))
  }

  /** Also: no key lies in `seen` or occurs twice. */
  predicate FitMembers(members: seq<Member>, depth: int, seen: set<string>)
    decreases members, 0
  {
    members == [] || (
      && members[0].key !in seen
      && Fits(members[0].value, depth)
      && FitMembers(members[1..], depth, seen + {members[0].key}))
  }

  // ---------- parsing ----------

  datatype Parsed<+T> = Failed | Parsed(value: T, pos: nat, tokens: nat)

  predicate More(ts: seq<Token>, pos: nat) {
    pos < |ts| && ts[pos] != ObjectEnd && ts[pos] != ArrayEnd
  }

  function ParseValue(ts: seq<Token>, pos: nat, depth: nat, tokens: nat): (r: Parsed<Json>)
    requires pos <= |ts|
    ensures r.Parsed? ==> pos < r.pos <= |ts|
    decreases |ts| - pos, 1
  {
    if depth > MAX_DEPTH || tokens >= MAX_TOKENS || pos == |ts| then Failed
    else match ts[pos]
      case Text(s) => Parsed(String(s), pos + 1, tokens + 1)
      case Atom(s) => Parsed(Literal(s), pos + 1, tokens + 1)
      case ArrayStart =>
        (match ParseItems(ts, pos + 1, depth, tokens + 1)
         case Failed => Failed
         case Parsed(items, p, n) => Parsed(Array(items), p, n))
      case ObjectStart =>
        (match ParseMembers(ts, pos + 1, depth, tokens + 1, {})
         case Failed => Failed
         case Parsed(members, p, n) => Parsed(Object(members), p, n))
      case _ => Failed
  }

  function ParseItems(ts: seq<Token>, pos: nat, depth: nat, tokens: nat): (r: Parsed<seq<Json>>)
    requires pos <= |ts|
    ensures r.Parsed? ==> pos < r.pos <= |ts|
    decreases |ts| - pos, 2
  {
    if More(ts, pos) then
      match ParseValue(ts, pos, depth + 1, tokens)
      case Failed => Failed
      case Parsed(v, p, n) =>
        (match ParseItems(ts, p, depth, n)
         case Failed => Failed
         case Parsed(rest, q, m) => Parsed([v] + rest, q, m))
    else if pos < |ts| && ts[pos] == ArrayEnd then Parsed([], pos + 1, tokens)
    else Failed
  }

  function ParseMembers(ts: seq<Token>, pos: nat, depth: nat, tokens: nat, seen: set<string>): (r: Parsed<seq<Member>>)
    requires pos <= |ts|
    ensures r.Parsed? ==> pos < r.pos <= |ts|
    decreases |ts| - pos, 2
  {
    if More(ts, pos) then
      if tokens >= MAX_TOKENS || !ts[pos].Text? || ts[pos].text in seen then Failed
      else
        var key := ts[pos].text;
        match ParseValue(ts, pos + 1, depth + 1, tokens + 1)
        case Failed => Failed
        case Parsed(v, p, n) =>
          (match ParseMembers(ts, p, depth, n, seen + {key})
           case Failed => Failed
           case Parsed(rest, q, m) => Parsed([Member(key, v)] + rest, q, m))
    else if pos < |ts| && ts[pos] == ObjectEnd then Parsed([], pos + 1, tokens)
    else Failed
  }

  /** One value, then the end of the input. */
  predicate Accepts(ts: seq<Token>) {
    var r := ParseValue(ts, 0, 0, 0);
    r.Parsed? && r.pos == |ts|
  }

  // ---------- the validator ----------

  function Rest<T>(r: Parsed<T>): Option<(nat, nat)> {
    if r.Parsed? then Some((r.pos, r.tokens)) else None
  }

  /** The decoder's position and the token counter, shared by all levels of the recursion. */
  class Validator {
    const ts: seq<Token>
    var pos: nat
    var tokens: nat

    constructor (ts: seq<Token>)
      ensures this.ts == ts && pos == 0 && tokens == 0
    {
      this.ts, pos, tokens := ts, 0, 0;
    }

    method Value(depth: nat) returns (ok: bool)
      requires pos <= |ts|
      modifies this
      ensures pos <= |ts|
      ensures var r := ParseValue(ts, old(pos), depth, old(tokens));
        ok == r.Parsed? && (ok ==> pos == r.pos && tokens == r.tokens)
      decreases |ts| - pos, 1
    {
      if depth > MAX_DEPTH || tokens >= MAX_TOKENS {
        return false;
      }
      tokens := tokens + 1;
      if pos == |ts| {
        return false;
      }
      var token := ts[pos];
      pos := pos + 1;
      match token {
        case Text(_) => return true;
        case Atom(_) => return true;
        case ObjectStart => ok := Members(depth);
        case ArrayStart => ok := Items(depth);
        case _ => return false;
      }
    }

    method Members(depth: nat) returns (ok: bool)
      requires pos <= |ts|
      modifies this
      ensures pos <= |ts|
      ensures var r := ParseMembers(ts, old(pos), depth, old(tokens), {});
        ok == r.Parsed? && (ok ==> pos == r.pos && tokens == r.tokens)
      decreases |ts| - pos, 3
    {
      var seen: set<string> := {};
      ghost var answer := Rest(ParseMembers(ts, pos, depth, tokens, {}));
      while More(ts, pos)
        invariant old(pos) <= pos <= |ts|
        invariant Rest(ParseMembers(ts, pos, depth, tokens, seen)) == answer
        decreases |ts| - pos
      {
        if tokens >= MAX_TOKENS {
          return false;
        }
        tokens := tokens + 1;
        var key := ts[pos];
        pos := pos + 1;
        if !key.Text? || key.text in seen {
          return false;
        }
        seen := seen + {key.text};
        var valid := Value(depth + 1);
        if !valid {
          return false;
        }
      }
      if pos == |ts| || ts[pos] != ObjectEnd {
        return false;
      }
      pos := pos + 1;
      return true;
    }

    method Items(depth: nat) returns (ok: bool)
      requires pos <= |ts|
      modifies this
      ensures pos <= |ts|
      ensures var r := ParseItems(ts, old(pos), depth, old(tokens));
        ok == r.Parsed? && (ok ==> pos == r.pos && tokens == r.tokens)
      decreases |ts| - pos, 3
    {
      ghost var answer := Rest(ParseItems(ts, pos, depth, tokens));
      while More(ts, pos)
        invariant old(pos) <= pos <= |ts|
        invariant Rest(ParseItems(ts, pos, depth, tokens)) == answer
        decreases |ts| - pos
      {
        var valid := Value(depth + 1);
        if !valid {
          return false;
        }
      }
      if pos == |ts| || ts[pos] != ArrayEnd {
        return false;
      }
      pos := pos + 1;
      return true;
    }
  }

  method ValidJSON(ts: seq<Token>) returns (ok: bool)
    ensures ok == Accepts(ts)
  {
    var v := new Validator(ts);
    ok := v.Value(0);
    if !ok {
      return;
    }
    return v.pos == |ts|;
  }

  // ---------- what is accepted is a bounded value ----------

  lemma Slices<T>(s: seq<T>, a: nat, b: nat, c: nat)
    requires a <= b <= c <= |s|
    ensures s[a..c] == s[a..b] + s[b..c]
  {
  }

  lemma {:induction false} ValueSound(ts: seq<Token>, pos: nat, depth: nat, tokens: nat)
    requires pos <= |ts| && ParseValue(ts, pos, depth, tokens).Parsed?
    ensures var r := ParseValue(ts, pos, depth, tokens);
      && ts[pos..r.pos] == Print(r.value) && r.tokens == tokens + Count(r.value) <= MAX_TOKENS
      && Fits(r.value, MAX_DEPTH - depth)
    decreases |ts| - pos, 1
  {
    var r := ParseValue(ts, pos, depth, tokens);
    Slices(ts, pos, pos + 1, r.pos);
    match ts[pos]
    case ArrayStart => ItemsSound(ts, pos + 1, depth, tokens + 1);
    case ObjectStart => MembersSound(ts, pos + 1, depth, tokens + 1, {});
    case _ =>
  }

  lemma {:induction false} ItemsSound(ts: seq<Token>, pos: nat, depth: nat, tokens: nat)
    requires pos <= |ts| && tokens <= MAX_TOKENS && ParseItems(ts, pos, depth, tokens).Parsed?
    ensures var r := ParseItems(ts, pos, depth, tokens);
      && ts[pos..r.pos] == PrintItems(r.value) && r.tokens == tokens + CountItems(r.value) <= MAX_TOKENS
      && FitItems(r.value, MAX_DEPTH - depth - 1)
    decreases |ts| - pos, 2
  {
    if More(ts, pos) {
      var v := ParseValue(ts, pos, depth + 1, tokens);
      ValueSound(ts, pos, depth + 1, tokens);
      ItemsSound(ts, v.pos, depth, v.tokens);
      Slices(ts, pos, v.pos, ParseItems(ts, v.pos, depth, v.tokens).pos);
    }
  }

  lemma {:induction false} MembersSound(ts: seq<Token>, pos: nat, depth: nat, tokens: nat, seen: set<string>)
    requires pos <= |ts| && tokens <= MAX_TOKENS && ParseMembers(ts, pos, depth, tokens, seen).Parsed?
    ensures var r := ParseMembers(ts, pos, depth, tokens, seen);
      && ts[pos..r.pos] == PrintMembers(r.value) && r.tokens == tokens + CountMembers(r.value) <= MAX_TOKENS
      && FitMembers(r.value, MAX_DEPTH - depth - 1, seen)
    decreases |ts| - pos, 2
  {
    hide ParseValue, Print, Fits, Count;
    if More(ts, pos) {
      var key := ts[pos].text;
      var v := ParseValue(ts, pos + 1, depth + 1, tokens + 1);
      var rest := ParseMembers(ts, v.pos, depth, v.tokens, seen + {key});
      ValueSound(ts, pos + 1, depth + 1, tokens + 1);
      MembersSound(ts, v.pos, depth, v.tokens, seen + {key});
      Slices(ts, pos, v.pos, rest.pos);
      Slices(ts, pos, pos + 1, v.pos);
      var r := ParseMembers(ts, pos, depth, tokens, seen);
      assert r.value == [Member(key, v.value)] + rest.value;
      assert r.value[1..] == rest.value;
    }
  }

  // ---------- every bounded value is accepted ----------

  /** `part` is printed at pos. */
  predicate At(ts: seq<Token>, pos: nat, part: seq<Token>) {
    pos + |part| <= |ts| && ts[pos..pos + |part|] == part
  }

  lemma AtHead(ts: seq<Token>, pos: nat, part: seq<Token>)
    requires At(ts, pos, part) && |part| > 0
    ensures pos + |part| <= |ts| && ts[pos] == part[0]
  {
    assert ts[pos..pos + |part|][0] == ts[pos];
  }

  lemma AtSplit(ts: seq<Token>, pos: nat, a: seq<Token>, b: seq<Token>)
    requires At(ts, pos, a + b)
    ensures At(ts, pos, a) && At(ts, pos + |a|, b)
  {
    var n := |a| + |b|;
    assert ts[pos..pos + |a|] == ts[pos..pos + n][..|a|];
    assert ts[pos + |a|..pos + n] == ts[pos..pos + n][|a|..];
  }

  lemma {:induction false} ValueComplete(ts: seq<Token>, pos: nat, depth: nat, tokens: nat, j: Json)
    requires At(ts, pos, Print(j)) && Fits(j, MAX_DEPTH - depth) && tokens + Count(j) <= MAX_TOKENS
    ensures ParseValue(ts, pos, depth, tokens) == Parsed(j, pos + |Print(j)|, tokens + Count(j))
    decreases j, 1
  {
    hide At;
    AtHead(ts, pos, Print(j));
    match j
    case String(_) =>
    case Literal(_) =>
    case Array(items) =>
      AtSplit(ts, pos, [ArrayStart], PrintItems(items));
      ItemsComplete(ts, pos + 1, depth, tokens + 1, items);
    case Object(members) =>
      AtSplit(ts, pos, [ObjectStart], PrintMembers(members));
      MembersComplete(ts, pos + 1, depth, tokens + 1, {}, members);
  }

  lemma {:induction false} ItemsComplete(ts: seq<Token>, pos: nat, depth: nat, tokens: nat, items: seq<Json>)
    requires At(ts, pos, PrintItems(items)) && FitItems(items, MAX_DEPTH - depth - 1)
    requires tokens + CountItems(items) <= MAX_TOKENS
    ensures ParseItems(ts, pos, depth, tokens)
         == Parsed(items, pos + |PrintItems(items)|, tokens + CountItems(items))
    decreases items, 0
  {
    hide At, ParseValue, Print, Fits, Count;
    if items == [] {
      AtHead(ts, pos, PrintItems(items));
    } else {
      var n := pos + |Print(items[0])|;
      AtSplit(ts, pos, Print(items[0]), PrintItems(items[1..]));
      AtHead(ts, pos, Print(items[0]));
      ValueComplete(ts, pos, depth + 1, tokens, items[0]);
      ItemsComplete(ts, n, depth, tokens + Count(items[0]), items[1..]);
      assert [items[0]] + items[1..] == items;
    }
  }

  /** One member, then the rest. */
  lemma MembersStep(ts: seq<Token>, pos: nat, depth: nat, tokens: nat, seen: set<string>, m: Member, p: nat, n: nat,
                    rest: Parsed<seq<Member>>)
    requires pos < |ts| && ts[pos] == Text(m.key) && m.key !in seen && tokens < MAX_TOKENS
    requires ParseValue(ts, pos + 1, depth + 1, tokens + 1) == Parsed(m.value, p, n)
    requires ParseMembers(ts, p, depth, n, seen + {m.key}) == rest && rest.Parsed?
    ensures ParseMembers(ts, pos, depth, tokens, seen) == Parsed([m] + rest.value, rest.pos, rest.tokens)
  {
    hide ParseValue;
  }

  lemma {:induction false} MembersComplete(ts: seq<Token>, pos: nat, depth: nat, tokens: nat, seen: set<string>,
                                           members: seq<Member>)
    requires At(ts, pos, PrintMembers(members)) && FitMembers(members, MAX_DEPTH - depth - 1, seen)
    requires tokens + CountMembers(members) <= MAX_TOKENS
    ensures ParseMembers(ts, pos, depth, tokens, seen)
         == Parsed(members, pos + |PrintMembers(members)|, tokens + CountMembers(members))
    decreases members, 0
  {
    hide At, ParseValue, Print, Fits, Count;
    if members == [] {
      AtHead(ts, pos, PrintMembers(members));
    } else {
      hide ParseMembers;
      var m := members[0];
      var p, n := pos + 1 + |Print(m.value)|, tokens + 1 + Count(m.value);
      AtSplit(ts, pos, [Text(m.key)] + Print(m.value), PrintMembers(members[1..]));
      AtSplit(ts, pos, [Text(m.key)], Print(m.value));
      AtHead(ts, pos, [Text(m.key)]);
      ValueComplete(ts, pos + 1, depth + 1, tokens + 1, m.value);
      MembersComplete(ts, p, depth, n, seen + {m.key}, members[1..]);
      MembersStep(ts, pos, depth, tokens, seen, m, p, n, ParseMembers(ts, p, depth, n, seen + {m.key}));
      assert [m] + members[1..] == members;
    }
  }

  /** The validator accepts exactly the printings of the bounded values with distinct keys. */
  lemma AcceptsExactlyBoundedValues(ts: seq<Token>)
    ensures Accepts(ts) <==> exists j :: Print(j) == ts && Fits(j, 32) && Count(j) <= 100000
  {
    if Accepts(ts) {
      var r := ParseValue(ts, 0, 0, 0);
      ValueSound(ts, 0, 0, 0);
      assert ts[0..|ts|] == ts;
      assert Print(r.value) == ts;
    }
    forall j | Print(j) == ts && Fits(j, 32) && Count(j) <= 100000
      ensures Accepts(ts)
    {
      assert ts[0..|ts|] == ts;
      ValueComplete(ts, 0, 0, 0, j);
    }
  }

  // ---------- the tree is determined, and decoding it to maps loses nothing ----------

  /** No printing is a proper beginning of another, so the tree can be read off the stream. */
  lemma {:induction false} PrintUnique(a: Json, b: Json, r: seq<Token>, t: seq<Token>)
    requires Print(a) + r == Print(b) + t
    ensures a == b && r == t
    decreases a, 1
  {
    assert (Print(a) + r)[0] == Print(a)[0] && (Print(b) + t)[0] == Print(b)[0];
    DropHead(Print(a), r);
    DropHead(Print(b), t);
    match a
    case Array(items) => ItemsUnique(items, b.items, r, t);
    case Object(members) => MembersUnique(members, b.members, r, t);
    case _ =>
  }

  lemma DropHead(p: seq<Token>, r: seq<Token>)
    requires |p| > 0
    ensures (p + r)[1..] == p[1..] + r
  {
  }

  lemma {:induction false} ItemsUnique(a: seq<Json>, b: seq<Json>, r: seq<Token>, t: seq<Token>)
    requires PrintItems(a) + r == PrintItems(b) + t
    ensures a == b && r == t
    decreases a, 0
  {
    assert (PrintItems(a) + r)[0] == PrintItems(a)[0] && (PrintItems(b) + t)[0] == PrintItems(b)[0];
    if a == [] || b == [] {
      DropHead(PrintItems(a), r);
      DropHead(PrintItems(b), t);
    } else {
      var x, y := PrintItems(a[1..]), PrintItems(b[1..]);
      assert (Print(a[0]) + x) + r == Print(a[0]) + (x + r);
      assert (Print(b[0]) + y) + t == Print(b[0]) + (y + t);
      PrintUnique(a[0], b[0], x + r, y + t);
      ItemsUnique(a[1..], b[1..], r, t);
      assert a == [a[0]] + a[1..] && b == [b[0]] + b[1..];
    }
  }

  lemma {:induction false} MembersUnique(a: seq<Member>, b: seq<Member>, r: seq<Token>, t: seq<Token>)
    requires PrintMembers(a) + r == PrintMembers(b) + t
    ensures a == b && r == t
    decreases a, 0
  {
    assert (PrintMembers(a) + r)[0] == PrintMembers(a)[0] && (PrintMembers(b) + t)[0] == PrintMembers(b)[0];
    if a == [] || b == [] {
      DropHead(PrintMembers(a), r);
      DropHead(PrintMembers(b), t);
    } else {
      var p, q, x, y := Print(a[0].value), Print(b[0].value), PrintMembers(a[1..]), PrintMembers(b[1..]);
      assert ([Text(a[0].key)] + p + x + r)[1..] == p + (x + r);
      assert ([Text(b[0].key)] + q + y + t)[1..] == q + (y + t);
      PrintUnique(a[0].value, b[0].value, x + r, y + t);
      MembersUnique(a[1..], b[1..], r, t);
      assert a == [a[0]] + a[1..] && b == [b[0]] + b[1..];
    }
  }

  /** An accepted stream is the printing of one tree only, of whatever depth, size or keys. */
  lemma AcceptedTreeIsUnique(ts: seq<Token>, a: Json, b: Json)
    requires Accepts(ts) && Print(a) == ts && Print(b) == ts
    ensures a == b && Fits(a, 32) && Count(a) <= 100000
  {
    AcceptsExactlyBoundedValues(ts);
    var j :| Print(j) == ts && Fits(j, 32) && Count(j) <= 100000;
    PrintUnique(a, j, [], []);
    PrintUnique(b, j, [], []);
  }

  /** Decoding an object into a map, where a later member would overwrite an earlier one. */
  function Decode(members: seq<Member>): map<string, Json> {
    if members == [] then map[]
    else Decode(members[..|members| - 1])[members[|members| - 1].key := members[|members| - 1].value]
  }

  lemma {:induction false} KeyNotSeen(members: seq<Member>, depth: int, seen: set<string>, i: nat)
    requires FitMembers(members, depth, seen) && i < |members|
    ensures members[i].key !in seen
    decreases i
  {
    if i > 0 {
      KeyNotSeen(members[1..], depth, seen + {members[0].key}, i - 1);
    }
  }

  predicate AllDistinct(members: seq<Member>) {
    forall i, k | 0 <= k < i < |members| :: members[k].key != members[i].key
  }

  lemma {:induction false} FitMeansDistinct(members: seq<Member>, depth: int, seen: set<string>)
    requires FitMembers(members, depth, seen)
    ensures AllDistinct(members)
  {
    if members != [] {
      FitMeansDistinct(members[1..], depth, seen + {members[0].key});
      forall i | 1 <= i < |members|
        ensures members[i].key != members[0].key
      {
        KeyNotSeen(members[1..], depth, seen + {members[0].key}, i - 1);
      }
      forall i, k | 1 <= k < i < |members|
        ensures members[k].key != members[i].key
      {
        assert members[1..][k - 1].key != members[1..][i - 1].key;
      }
    }
  }

  /** The keys of the decoded map are those of the members. */
  lemma {:induction false} DecodedKeys(members: seq<Member>, key: string)
    ensures key in Decode(members) <==> exists i :: 0 <= i < |members| && members[i].key == key
  {
    if members != [] {
      var n := |members| - 1;
      DecodedKeys(members[..n], key);
      assert forall i | 0 <= i < n :: members[..n][i] == members[i];
    }
  }

  lemma {:induction false} DecodeKeepsAll(members: seq<Member>)
    requires AllDistinct(members)
    ensures |Decode(members)| == |members|
    ensures forall i | 0 <= i < |members| ::
      members[i].key in Decode(members) && Decode(members)[members[i].key] == members[i].value
  {
    if members != [] {
      var n := |members| - 1;
      assert forall i | 0 <= i < n :: members[..n][i] == members[i];
      DecodeKeepsAll(members[..n]);
      DecodedKeys(members[..n], members[n].key);
    }
  }

  /** In an accepted object no member overwrites another: the map holds every member. */
  lemma DecodingLosesNothing(members: seq<Member>, depth: int)
    requires Fits(Object(members), depth)
    ensures |Decode(members)| == |members|
    ensures forall i | 0 <= i < |members| ::
      members[i].key in Decode(members) && Decode(members)[members[i].key] == members[i].value
  {
    FitMeansDistinct(members, depth - 1, {});
    DecodeKeepsAll(members);
  }
}
