/** The budget of the validator read off the token stream alone: how many tokens it holds and how deep they lie. */
module BoundedJsonBudget {
  import opened BoundedJson

  predicate Closes(t: Token) {
    t == ObjectEnd || t == ArrayEnd
  }

  predicate Opens(t: Token) {
    t == ObjectStart || t == ArrayStart
  }

  /** The tokens that do not close anything. */
  function Weight(ts: seq<Token>): nat {
    if ts == [] then 0 else (if Closes(ts[0]) then 0 else 1) + Weight(ts[1..])
  }

  /** No token but a closing one stands inside more than `limit` open brackets; `level` are open before. */
  predicate Shallow(ts: seq<Token>, level: int, limit: int) {
    ts == [] ||
    if Closes(ts[0]) then Shallow(ts[1..], level - 1, limit)
    else level <= limit && Shallow(ts[1..], if Opens(ts[0]) then level + 1 else level, limit)
  }

  /** No object in the value repeats a key. */
  predicate KeysDistinct(j: Json) {
    match j
    case Array(items) => forall x | x in items :: KeysDistinct(x)
    case Object(members) =>
      && AllDistinct(members)
      && forall m | m in members :: KeysDistinct(m.value)
    case _ => true
  }

  // ---------- the count is the weight ----------

  lemma {:induction false} WeightConcat(a: seq<Token>, b: seq<Token>)
    ensures Weight(a + b) == Weight(a) + Weight(b)
  {
    if a == [] {
      assert a + b == b;
    } else {
      assert (a + b)[1..] == a[1..] + b;
      WeightConcat(a[1..], b);
    }
  }

  lemma {:induction false} CountIsWeight(j: Json)
    ensures Count(j) == Weight(Print(j))
    decreases j, 1
  {
    match j
    case Array(items) =>
      WeightConcat([ArrayStart], PrintItems(items));
      ItemsWeight(items);
    case Object(members) =>
      WeightConcat([ObjectStart], PrintMembers(members));
      MembersWeight(members);
    case _ =>
  }

  lemma {:induction false} ItemsWeight(items: seq<Json>)
    ensures CountItems(items) == Weight(PrintItems(items))
    decreases items, 0
  {
    if items != [] {
      WeightConcat(Print(items[0]), PrintItems(items[1..]));
      CountIsWeight(items[0]);
      ItemsWeight(items[1..]);
    }
  }

  lemma {:induction false} MembersWeight(members: seq<Member>)
    ensures CountMembers(members) == Weight(PrintMembers(members))
    decreases members, 0
  {
    if members != [] {
      var key, value, rest := [Text(members[0].key)], Print(members[0].value), PrintMembers(members[1..]);
      WeightConcat(key + value, rest);
      WeightConcat(key, value);
      CountIsWeight(members[0].value);
      MembersWeight(members[1..]);
    }
  }

  // ---------- fitting is having distinct keys and staying shallow ----------

  /** How many levels of brackets the values inside the value lie below it. */
  function Depth(j: Json): nat
    decreases j, 1
  {
    match j
    case Array(items) => ItemsDepth(items)
    case Object(members) => MembersDepth(members)
    case _ => 0
  }

  function ItemsDepth(items: seq<Json>): nat
    decreases items, 0
  {
    if items == [] then 0 else Max(1 + Depth(items[0]), ItemsDepth(items[1..]))
  }

  function MembersDepth(members: seq<Member>): nat
    decreases members, 0
  {
    if members == [] then 0 else Max(1 + Depth(members[0].value), MembersDepth(members[1..]))
  }

  function Max(a: nat, b: nat): nat {
    if a < b then b else a
  }

  lemma {:induction false} FitsByDepth(j: Json, depth: int)
    ensures Fits(j, depth) <==> KeysDistinct(j) && Depth(j) <= depth
    decreases j, 1
  {
    if depth >= 0 {
      match j
      case Array(items) => ItemsFitByDepth(items, depth - 1);
      case Object(members) => MembersFitByDepth(members, depth - 1, {});
      case _ =>
    }
  }

  lemma {:induction false} ItemsFitByDepth(items: seq<Json>, depth: int)
    requires depth >= -1
    ensures FitItems(items, depth) <==> (forall x | x in items :: KeysDistinct(x)) && ItemsDepth(items) <= depth + 1
    decreases items, 0
  {
    if items != [] {
      FitsByDepth(items[0], depth);
      ItemsFitByDepth(items[1..], depth);
      assert items == [items[0]] + items[1..];
    }
  }

  predicate NoneSeen(members: seq<Member>, seen: set<string>) {
    forall m | m in members :: m.key !in seen
  }

  predicate ValuesDistinct(members: seq<Member>) {
    forall m | m in members :: KeysDistinct(m.value)
  }

  lemma {:induction false} MembersFitByDepth(members: seq<Member>, depth: int, seen: set<string>)
    requires depth >= -1
    ensures FitMembers(members, depth, seen) <==>
      && AllDistinct(members) && NoneSeen(members, seen) && ValuesDistinct(members)
      && MembersDepth(members) <= depth + 1
    decreases members, 0
  {
    if members != [] {
      FitsByDepth(members[0].value, depth);
      MembersFitByDepth(members[1..], depth, seen + {members[0].key});
      assert members == [members[0]] + members[1..];
      HeadAndTail(members, seen);
    }
  }

  lemma HeadAndTail(members: seq<Member>, seen: set<string>)
    requires members != []
    ensures AllDistinct(members) && NoneSeen(members, seen) <==>
      && members[0].key !in seen && AllDistinct(members[1..]) && NoneSeen(members[1..], seen + {members[0].key})
  {
    var rest := members[1..];
    assert members == [members[0]] + rest;
    if AllDistinct(members) && NoneSeen(members, seen) {
      forall m | m in rest
        ensures m.key !in seen + {members[0].key}
      {
        var i :| 0 <= i < |rest| && rest[i] == m;
        assert members[i + 1] == m;
      }
    }
    if AllDistinct(rest) && NoneSeen(rest, seen + {members[0].key}) {
      forall i, k | 0 <= k < i < |members|
        ensures members[k].key != members[i].key
      {
        assert members[i] == rest[i - 1];
      }
    }
  }

  /** In front of anything else, a value keeps to the limit if and only if its depth does. */
  lemma {:induction false} ShallowByDepth(j: Json, level: int, limit: int, rest: seq<Token>)
    ensures Shallow(Print(j) + rest, level, limit) <==> level + Depth(j) <= limit && Shallow(rest, level, limit)
    decreases j, 1
  {
    DropHead(Print(j), rest);
    assert (Print(j) + rest)[0] == Print(j)[0];
    if level <= limit {
      match j
      case Array(items) => ItemsShallowByDepth(items, level + 1, limit, rest);
      case Object(members) => MembersShallowByDepth(members, level + 1, limit, rest);
      case _ =>
    }
  }

  lemma {:induction false} ItemsShallowByDepth(items: seq<Json>, level: int, limit: int, rest: seq<Token>)
    requires level <= limit + 1
    ensures Shallow(PrintItems(items) + rest, level, limit) <==>
      level + ItemsDepth(items) <= limit + 1 && Shallow(rest, level - 1, limit)
    decreases items, 0
  {
    hide Print, Depth;
    if items == [] {
      DropHead(PrintItems(items), rest);
    } else {
      var tail := PrintItems(items[1..]);
      assert PrintItems(items) + rest == Print(items[0]) + (tail + rest);
      ShallowByDepth(items[0], level, limit, tail + rest);
      ItemsShallowByDepth(items[1..], level, limit, rest);
    }
  }

  lemma {:induction false} MembersShallowByDepth(members: seq<Member>, level: int, limit: int, rest: seq<Token>)
    requires level <= limit + 1
    ensures Shallow(PrintMembers(members) + rest, level, limit) <==>
      level + MembersDepth(members) <= limit + 1 && Shallow(rest, level - 1, limit)
    decreases members, 0
  {
    hide Print, Depth;
    if members == [] {
      DropHead(PrintMembers(members), rest);
    } else {
      var value, tail := Print(members[0].value), PrintMembers(members[1..]);
      assert PrintMembers(members) + rest == [Text(members[0].key)] + (value + (tail + rest));
      DropHead([Text(members[0].key)], value + (tail + rest));
      ShallowByDepth(members[0].value, level, limit, tail + rest);
      MembersShallowByDepth(members[1..], level, limit, rest);
    }
  }

  /**
   A stream is accepted if and only if it prints some value with distinct keys, holds at most 100000 tokens
   that close nothing, and puts none of those inside more than 32 open brackets.
   */
  lemma AcceptanceIsTheBudget(ts: seq<Token>)
    ensures Accepts(ts) <==>
      && Weight(ts) <= 100000 && Shallow(ts, 0, 32)
      && exists j :: Print(j) == ts && KeysDistinct(j)
  {
    AcceptsExactlyBoundedValues(ts);
    forall j | Print(j) == ts
      ensures Count(j) == Weight(ts)
      ensures Fits(j, 32) <==> KeysDistinct(j) && Shallow(ts, 0, 32)
    {
      CountIsWeight(j);
      FitsByDepth(j, 32);
      assert Print(j) + [] == ts;
      ShallowByDepth(j, 0, 32, []);
    }
  }
}
