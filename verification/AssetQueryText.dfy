/**
 The compiled text read back: parsing it and binding its parameters from left to right gives the
 intended query, every rule with its own operands.
 */
module AssetQueryText {
  import opened Wrappers
  import opened AssetQueryTree
  import opened Sql
  import opened AssetQueryCompiler

  // ---- Reading concatenated text ----

  lemma {:induction false} PutCat<T>(a: seq<T>, b: seq<T>, rest: Stream<T>)
    ensures Put(a + b, rest) == Put(a, Put(b, rest))
  {
    if a == [] {
      assert a + b == b;
    } else {
      PutCat(a[1..], b, rest);
      assert (a + b)[1..] == a[1..] + b;
    }
  }

  lemma Put1<T>(a: T, rest: Stream<T>)
    ensures Put([a], rest) == More(a, rest)
  {
  }

  lemma Put2<T>(a: T, b: T, rest: Stream<T>)
    ensures Put([a, b], rest) == More(a, More(b, rest))
  {
    Put1(b, rest);
    assert [a, b][1..] == [b];
  }

  lemma Put3<T>(a: T, b: T, c: T, rest: Stream<T>)
    ensures Put([a, b, c], rest) == More(a, More(b, More(c, rest)))
  {
    Put2(b, c, rest);
    assert [a, b, c][1..] == [b, c];
  }

  lemma PutCons<T>(a: T, s: seq<T>, rest: Stream<T>)
    ensures Put([a] + s, rest) == More(a, Put(s, rest))
  {
  }

  // ---- Rules ----

  /** The next condition does not belong to this rule. */
  predicate RuleEnds(ts: Tokens) {
    !At(And, ts)
  }

  lemma OneCondition(ts: Tokens, ps: Params, c: Condition, ts1: Tokens, ps1: Params)
    requires ParseCondition(ts, ps) == Done(c, ts1, ps1) && RuleEnds(ts1)
    ensures ParseConditions(More(And, ts), ps) == Done([c], ts1, ps1)
  {
    assert ParseConditions(ts1, ps1) == Done([], ts1, ps1);
    assert [c] + [] == [c];
  }

  lemma TwoConditions(
    ts: Tokens, ps: Params, c: Condition, ts1: Tokens, ps1: Params, d: Condition, ts2: Tokens, ps2: Params)
    requires ParseCondition(ts, ps) == Done(c, More(And, ts1), ps1)
    requires ParseCondition(ts1, ps1) == Done(d, ts2, ps2) && RuleEnds(ts2)
    ensures ParseConditions(More(And, ts), ps) == Done([c, d], ts2, ps2)
  {
    OneCondition(ts1, ps1, d, ts2, ps2);
    assert [c] + [d] == [c, d];
  }

  lemma {:induction false} OperandsParse(hashed: bool, values: seq<Param>, ts: Tokens, ps: Params)
    requires values != []
    ensures ParseOperands(hashed, Put(OperandTokens(hashed, |values|), ts), Put(values, ps)) == Done(values, ts, ps)
    decreases |values|
  {
    hide Put;
    hide OperandTokens;
    hide OperandToken;
    hide ParseOperand;
    hide ParseOperands;
    var later := OperandTokensRest(hashed, |values|, ts);
    OperandTokensRead(hashed, |values|, ts);
    OperandParses(hashed, values[0], later, Put(values[1..], ps));
    assert values == [values[0]] + values[1..];
    PutCons(values[0], values[1..], ps);
    var all := Put(OperandToken(hashed), later);
    if |values| == 1 {
      assert values == [values[0]] && values[1..] == [];
      PutNothing(ps);
      LastOperand(hashed, values[0], all, Put(values, ps), ts, ps);
    } else {
      OperandsParse(hashed, values[1..], ts, ps);
      FirstOperand(
        hashed, values[0], values[1..], all, Put(values, ps), later.tail, Put(values[1..], ps), ts, ps);
    }
  }

  /** What follows the first of `count` operands. */
  function OperandTokensRest(hashed: bool, count: nat, ts: Tokens): Tokens
    requires count > 0
  {
    if count == 1 then More(Close, ts) else More(Comma, Put(OperandTokens(hashed, count - 1), ts))
  }

  lemma OperandTokensRead(hashed: bool, count: nat, ts: Tokens)
    requires count > 0
    ensures Put(OperandTokens(hashed, count), ts) == Put(OperandToken(hashed), OperandTokensRest(hashed, count, ts))
  {
    hide Put;
    var next := if count == 1 then [Close] else [Comma] + OperandTokens(hashed, count - 1);
    assert OperandTokens(hashed, count) == OperandToken(hashed) + next;
    PutCat(OperandToken(hashed), next, ts);
    if count == 1 {
      Put1(Close, ts);
    } else {
      PutCons(Comma, OperandTokens(hashed, count - 1), ts);
    }
  }

  function ParseOperand(hashed: bool, ts: Tokens, ps: Params): Parsed<Param> {
    if hashed then ParseHashedParam(ts, ps) else ParseParam(ts, ps)
  }

  lemma LastOperand(hashed: bool, p: Param, ts: Tokens, ps: Params, ts1: Tokens, ps1: Params)
    requires ParseOperand(hashed, ts, ps) == Done(p, More(Close, ts1), ps1)
    ensures ParseOperands(hashed, ts, ps) == Done([p], ts1, ps1)
  {
  }

  lemma FirstOperand(
    hashed: bool, p: Param, rest: seq<Param>, ts: Tokens, ps: Params, ts1: Tokens, ps1: Params,
    ts2: Tokens, ps2: Params)
    requires ParseOperand(hashed, ts, ps) == Done(p, More(Comma, ts1), ps1)
    requires ParseOperands(hashed, ts1, ps1) == Done(rest, ts2, ps2)
    ensures ParseOperands(hashed, ts, ps) == Done([p] + rest, ts2, ps2)
  {
  }

  lemma PutNothing<T>(rest: Stream<T>)
    ensures Put([], rest) == rest
  {
  }

  function OperandToken(hashed: bool): seq<Token> {
    if hashed then [Md5, Placeholder, Close] else [Placeholder]
  }

  lemma OperandParses(hashed: bool, value: Param, ts: Tokens, ps: Params)
    ensures ParseOperand(hashed, Put(OperandToken(hashed), ts), More(value, ps)) == Done(value, ts, ps)
  {
    hide Put;
    if hashed {
      Put3(Md5, Placeholder, Close, ts);
    } else {
      Put1(Placeholder, ts);
    }
  }

  /** The text of `in` in reading order. */
  lemma InReads(digests: seq<Token>, texts: seq<Token>, ts: Tokens)
    ensures Put([And, DigestIn] + digests + [And, TextIn] + texts, ts)
         == More(And, More(DigestIn, Put(digests, More(And, More(TextIn, Put(texts, ts))))))
  {
    var second := Put(texts, ts);
    PutCat([And, DigestIn] + digests + [And, TextIn], texts, ts);
    PutCat([And, DigestIn] + digests, [And, TextIn], second);
    Put2(And, TextIn, second);
    PutCat([And, DigestIn], digests, More(And, More(TextIn, second)));
    Put2(And, DigestIn, Put(digests, More(And, More(TextIn, second))));
  }

  lemma InParses(values: seq<Param>, ts: Tokens, ps: Params)
    requires values != [] && RuleEnds(ts)
    ensures var k := |values|;
      ParseConditions(
        Put([And, DigestIn] + OperandTokens(true, k) + [And, TextIn] + OperandTokens(false, k), ts),
        Put(values + values, ps))
      == Done([DigestAmong(values), In(values)], ts, ps)
  {
    var digests, texts := OperandTokens(true, |values|), OperandTokens(false, |values|);
    var second := More(TextIn, Put(texts, ts));
    var first := More(DigestIn, Put(digests, More(And, second)));
    hide Put;
    hide ParseConditions;
    hide OperandTokens;
    InReads(digests, texts, ts);
    PutCat(values, values, ps);
    InCondition(false, values, ts, ps);
    InCondition(true, values, More(And, second), Put(values, ps));
    TwoConditions(
      first, Put(values, Put(values, ps)), DigestAmong(values), second, Put(values, ps), In(values), ts, ps);
  }

  lemma InCondition(hashed: bool, values: seq<Param>, ts: Tokens, ps: Params)
    requires values != []
    ensures ParseCondition(
              More(if hashed then DigestIn else TextIn, Put(OperandTokens(hashed, |values|), ts)), Put(values, ps))
         == Done(if hashed then DigestAmong(values) else In(values), ts, ps)
  {
    OperandsParse(hashed, values, ts, ps);
    hide Put;
  }

  lemma EqualsParses(p: Param, ts: Tokens, ps: Params)
    requires RuleEnds(ts)
    ensures ParseConditions(
              Put([And, DigestEquals] + [Md5, Placeholder, Close] + [And, TextEquals, Placeholder], ts),
              Put([p, p], ps))
         == Done([SameDigest(p), Equals(p)], ts, ps)
  {
    var second := More(TextEquals, More(Placeholder, ts));
    var first := More(Md5, More(Placeholder, More(Close, More(And, second))));
    PutCat([And, DigestEquals] + [Md5, Placeholder, Close], [And, TextEquals, Placeholder], ts);
    Put3(And, TextEquals, Placeholder, ts);
    PutCat([And, DigestEquals], [Md5, Placeholder, Close], More(And, second));
    Put3(Md5, Placeholder, Close, More(And, second));
    Put2(And, DigestEquals, first);
    Put2(p, p, ps);
    EqualsReads(p, ts, ps);
  }

  lemma EqualsReads(p: Param, ts: Tokens, ps: Params)
    requires RuleEnds(ts)
    ensures var second := More(TextEquals, More(Placeholder, ts));
      ParseConditions(
        More(And, More(DigestEquals, More(Md5, More(Placeholder, More(Close, More(And, second)))))),
        More(p, More(p, ps)))
      == Done([SameDigest(p), Equals(p)], ts, ps)
  {
    hide ParseCondition;
    hide ParseConditions;
    var second := More(TextEquals, More(Placeholder, ts));
    var first := More(Md5, More(Placeholder, More(Close, More(And, second))));
    SameDigestReads(p, More(And, second), More(p, ps));
    SameTextReads(p, ts, ps);
    TwoConditions(
      More(DigestEquals, first), More(p, More(p, ps)), SameDigest(p), second, More(p, ps), Equals(p), ts, ps);
  }

  lemma SameDigestReads(p: Param, ts: Tokens, ps: Params)
    ensures ParseCondition(More(DigestEquals, More(Md5, More(Placeholder, More(Close, ts)))), More(p, ps))
         == Done(SameDigest(p), ts, ps)
  {
  }

  lemma SameTextReads(p: Param, ts: Tokens, ps: Params)
    ensures ParseCondition(More(TextEquals, More(Placeholder, ts)), More(p, ps)) == Done(Equals(p), ts, ps)
  {
  }

  lemma SimpleParses(t: Token, p: Param, c: Condition, ts: Tokens, ps: Params)
    requires RuleEnds(ts)
    requires match t
             case TextDiffers => c == Differs(p)
             case TextLike => c == Like(p)
             case NumberIs(op) => c == NumberCompares(op, p)
             case BooleanEquals => c == BooleanIs(p)
             case _ => false
    ensures ParseConditions(Put([And, t, Placeholder], ts), Put([p], ps)) == Done([c], ts, ps)
  {
    Put3(And, t, Placeholder, ts);
    Put1(p, ps);
    OneCondition(More(t, More(Placeholder, ts)), More(p, ps), c, ts, ps);
  }

  lemma CidrParses(p: Param, ts: Tokens, ps: Params)
    requires RuleEnds(ts)
    ensures ParseConditions(Put([And, TextWithin, Placeholder, AsCidr], ts), Put([p], ps)) == Done([Within(p)], ts, ps)
  {
    assert [And, TextWithin, Placeholder, AsCidr] == [And] + [TextWithin, Placeholder, AsCidr];
    PutCons(And, [TextWithin, Placeholder, AsCidr], ts);
    Put3(TextWithin, Placeholder, AsCidr, ts);
    Put1(p, ps);
    OneCondition(More(TextWithin, More(Placeholder, More(AsCidr, ts))), More(p, ps), Within(p), ts, ps);
  }

  lemma ConditionsParse(inp: Inputs, rule: Node, ts: Tokens, ps: Params)
    requires rule.IsRule() && CompileCondition(inp, rule).Ok? && RuleEnds(ts)
    ensures var added := CompileCondition(inp, rule).value;
      ParseConditions(Put(added.tokens, ts), Put(added.params, ps)) == Done(IntendedConditions(inp, rule), ts, ps)
  {
    hide OperandTokens;
    hide ParseConditions;
    hide Put;
    hide LowerTexts;
    hide ListOperands;
    var added := CompileCondition(inp, rule).value;
    var operator := OperatorOf(rule);
    if operator == "exists" {
      NoConditionsParse(ts, ps);
    } else if operator == "in_cidr" {
      CidrParses(added.params[0], ts, ps);
    } else if operator == "in" {
      InParses(LowerTexts(ListOperands(rule.value)), ts, ps);
    } else if operator == "equals" {
      EqualsParses(added.params[0], ts, ps);
    } else {
      SimpleParses(added.tokens[1], added.params[0], IntendedConditions(inp, rule)[0], ts, ps);
    }
  }

  lemma NoConditionsParse(ts: Tokens, ps: Params)
    requires RuleEnds(ts)
    ensures ParseConditions(Put([], ts), Put([], ps)) == Done([], ts, ps)
  {
  }

  lemma RuleParses(inp: Inputs, rule: Node, ts: Tokens, ps: Params)
    requires rule.IsRule() && CompileRule(inp, rule).Ok? && RuleEnds(ts)
    ensures var sql := CompileRule(inp, rule).value;
      ParsePrimary(Put(sql.tokens, ts), Put(sql.params, ps)) == Done(IntendedRule(inp, rule), ts, ps)
  {
    hide CompileCondition;
    hide IntendedConditions;
    hide ParseConditions;
    hide Put;
    var path := Text(FieldPathOf(rule));
    if OperatorOf(rule) == "not_exists" {
      Put3(SelectCardsWithout, Placeholder, Close, ts);
      Put1(path, ps);
    } else {
      var added := CompileCondition(inp, rule).value;
      ConditionsParse(inp, rule, ts, ps);
      PutCat(BASE, added.tokens, ts);
      Put2(SelectFieldRows, Placeholder, Put(added.tokens, ts));
      PutCons(path, added.params, ps);
      assert CompileRule(inp, rule).value.params == [path] + added.params;
    }
  }

  // ---- Groups ----

  /** What may follow a query: the end of the text, or a closing parenthesis of the enclosing SELECT. */
  predicate Stops(ts: Tokens) {
    ts.End? || ts.head in {CloseGroupedChild, CloseChild}
  }

  /** A primary followed by the end of its query is that query. */
  lemma PrimaryIsQuery(all: Tokens, params: Params, q: Query, ts: Tokens, ps: Params)
    requires Stops(ts) && ParsePrimary(all, params) == Done(q, ts, ps)
    ensures ParseQuery(all, params) == Done(q, ts, ps)
  {
    assert ParseIntersections(q, ts, ps) == Done(q, ts, ps);
    assert ParseTerm(all, params) == Done(q, ts, ps);
    assert ParseUnions(q, ts, ps) == Done(q, ts, ps);
  }

  lemma {:induction false} NodeParses(inp: Inputs, n: Node, ts: Tokens, ps: Params)
    requires Compile(inp, n).Ok? && Proper(n) && Stops(ts)
    ensures var sql := Compile(inp, n).value;
      ParseQuery(Put(sql.tokens, ts), Put(sql.params, ps)) == Done(Intended(inp, n), ts, ps)
    decreases n, 2
  {
    hide CompileRule;
    hide IntendedRule;
    hide Put;
    hide JoinRest;
    hide Part;
    if n.IsRule() {
      var sql := Compile(inp, n).value;
      RuleParses(inp, n, ts, ps);
      PrimaryIsQuery(Put(sql.tokens, ts), Put(sql.params, ps), Intended(inp, n), ts, ps);
    } else {
      var child, rest, q, qs := GroupSplits(inp, n);
      var ns, scope := n.rules.nodes, n.Scope();
      if n.Combinator() == "and" {
        var tail, tailParams := Put(JoinRest(Intersect, rest.parts), ts), Put(rest.params, ps);
        PutCat(Part(scope, child.tokens), JoinRest(Intersect, rest.parts), ts);
        PutCat(child.params, rest.params, ps);
        PartParses(inp, ns[0], scope, tail, tailParams);
        IntersectionsParse(inp, ns[1..], scope, q, ts, ps);
      } else {
        var tail, tailParams := Put(JoinRest(Union, rest.parts), ts), Put(rest.params, ps);
        PutCat(Part(scope, child.tokens), JoinRest(Union, rest.parts), ts);
        PutCat(child.params, rest.params, ps);
        PartParses(inp, ns[0], scope, tail, tailParams);
        UnionTail(rest.parts, ts);
        assert ParseIntersections(q, tail, tailParams) == Done(q, tail, tailParams);
        UnionsParse(inp, ns[1..], scope, q, ts, ps);
      }
    }
  }

  /** The pieces of a compiled group: its first child, and its other children. */
  lemma GroupSplits(inp: Inputs, n: Node) returns (child: SqlText, rest: GroupText, q: Query, qs: seq<Query>)
    requires n.IsGroup() && Compile(inp, n).Ok? && Proper(n)
    ensures var ns, scope := n.rules.nodes, n.Scope();
      && Compile(inp, ns[0]) == Ok(child) && CompileAll(inp, ns[1..], scope) == Ok(rest)
      && var separator := if n.Combinator() == "and" then Intersect else Union;
      && Compile(inp, n).value.tokens == Part(scope, child.tokens) + JoinRest(separator, rest.parts)
      && Compile(inp, n).value.params == child.params + rest.params
      && Proper(ns[0]) && ProperAll(ns[1..])
      && q == Pairs(if scope == "host" then Hosts(Intended(inp, ns[0])) else Intended(inp, ns[0]))
      && qs == IntendedAll(inp, ns[1..], scope)
      && Intended(inp, n) == Fold(n.Combinator() == "and", q, qs)
  {
    hide CompileRule;
    var ns, scope := n.rules.nodes, n.Scope();
    child := Compile(inp, ns[0]).value;
    rest := CompileAll(inp, ns[1..], scope).value;
    var group := CompileAll(inp, ns, scope).value;
    assert group.parts[0] == Part(scope, child.tokens) && group.parts[1..] == rest.parts;
    var all := IntendedAll(inp, ns, scope);
    q, qs := all[0], all[1..];
  }

  lemma UnionTail(parts: seq<seq<Token>>, ts: Tokens)
    requires Stops(ts)
    ensures !At(Intersect, Put(JoinRest(Union, parts), ts))
  {
  }

  /** One child of a group, whatever follows it. */
  lemma {:induction false} PartParses(inp: Inputs, n: Node, scope: string, ts: Tokens, ps: Params)
    requires Compile(inp, n).Ok? && Proper(n)
    ensures var sql := Compile(inp, n).value;
      ParsePrimary(Put(Part(scope, sql.tokens), ts), Put(sql.params, ps))
        == Done(Pairs(if scope == "host" then Hosts(Intended(inp, n)) else Intended(inp, n)), ts, ps)
    decreases n, 3
  {
    hide CompileRule;
    hide Put;
    var sql := Compile(inp, n).value;
    var params := Put(sql.params, ps);
    var closing := More(CloseGroupedChild, ts);
    var middle := if scope == "host" then [SelectHostsFrom] + sql.tokens + [CloseChild] else sql.tokens;
    PutCat([SelectPairsFrom] + middle, [CloseGroupedChild], ts);
    Put1(CloseGroupedChild, ts);
    PutCons(SelectPairsFrom, middle, closing);
    if scope == "host" {
      var inner := More(CloseChild, closing);
      NodeParses(inp, n, inner, ps);
      PutCat([SelectHostsFrom] + sql.tokens, [CloseChild], closing);
      Put1(CloseChild, closing);
      PutCons(SelectHostsFrom, sql.tokens, inner);
      PrimaryIsQuery(Put(middle, closing), params, Hosts(Intended(inp, n)), closing, ps);
    } else {
      NodeParses(inp, n, closing, ps);
    }
  }

  lemma {:induction false} IntersectionsParse(
    inp: Inputs, ns: seq<Node>, scope: string, left: Query, ts: Tokens, ps: Params)
    requires CompileAll(inp, ns, scope).Ok? && ProperAll(ns) && Stops(ts)
    ensures var group := CompileAll(inp, ns, scope).value;
      ParseIntersections(left, Put(JoinRest(Intersect, group.parts), ts), Put(group.params, ps))
        == Done(Fold(true, left, IntendedAll(inp, ns, scope)), ts, ps)
    decreases ns, 0
  {
    hide CompileRule;
    if ns != [] {
      var child, rest, q, qs := ChildrenSplit(inp, ns, scope);
      var tail, tailParams := Put(JoinRest(Intersect, rest.parts), ts), Put(rest.params, ps);
      PutCat([Intersect] + Part(scope, child.tokens), JoinRest(Intersect, rest.parts), ts);
      PutCons(Intersect, Part(scope, child.tokens), tail);
      PutCat(child.params, rest.params, ps);
      PartParses(inp, ns[0], scope, tail, tailParams);
      IntersectionsParse(inp, ns[1..], scope, Both(left, q), ts, ps);
    }
  }

  lemma {:induction false} UnionsParse(
    inp: Inputs, ns: seq<Node>, scope: string, left: Query, ts: Tokens, ps: Params)
    requires CompileAll(inp, ns, scope).Ok? && ProperAll(ns) && Stops(ts)
    ensures var group := CompileAll(inp, ns, scope).value;
      ParseUnions(left, Put(JoinRest(Union, group.parts), ts), Put(group.params, ps))
        == Done(Fold(false, left, IntendedAll(inp, ns, scope)), ts, ps)
    decreases ns, 0
  {
    hide CompileRule;
    if ns != [] {
      var child, rest, q, qs := ChildrenSplit(inp, ns, scope);
      var tail, tailParams := Put(JoinRest(Union, rest.parts), ts), Put(rest.params, ps);
      PutCat([Union] + Part(scope, child.tokens), JoinRest(Union, rest.parts), ts);
      PutCons(Union, Part(scope, child.tokens), tail);
      PutCat(child.params, rest.params, ps);
      PartParses(inp, ns[0], scope, tail, tailParams);
      UnionTail(rest.parts, ts);
      assert ParseIntersections(q, tail, tailParams) == Done(q, tail, tailParams);
      UnionsParse(inp, ns[1..], scope, Either(left, q), ts, ps);
    }
  }

  lemma ChildrenSplit(inp: Inputs, ns: seq<Node>, scope: string)
      returns (child: SqlText, rest: GroupText, q: Query, qs: seq<Query>)
    requires ns != [] && CompileAll(inp, ns, scope).Ok? && ProperAll(ns)
    ensures Compile(inp, ns[0]) == Ok(child) && CompileAll(inp, ns[1..], scope) == Ok(rest)
    ensures Proper(ns[0]) && ProperAll(ns[1..])
    ensures var group := CompileAll(inp, ns, scope).value;
      && (forall separator :: JoinRest(separator, group.parts)
            == [separator] + Part(scope, child.tokens) + JoinRest(separator, rest.parts))
      && group.params == child.params + rest.params
    ensures q == Pairs(if scope == "host" then Hosts(Intended(inp, ns[0])) else Intended(inp, ns[0]))
    ensures qs == IntendedAll(inp, ns[1..], scope)
    ensures forall intersect, left :: Fold(intersect, left, IntendedAll(inp, ns, scope))
              == Fold(intersect, if intersect then Both(left, q) else Either(left, q), qs)
  {
    hide CompileRule;
    child := Compile(inp, ns[0]).value;
    rest := CompileAll(inp, ns[1..], scope).value;
    var group := CompileAll(inp, ns, scope).value;
    assert group.parts[0] == Part(scope, child.tokens) && group.parts[1..] == rest.parts;
    var all := IntendedAll(inp, ns, scope);
    q, qs := all[0], all[1..];
    assert all[1..] == IntendedAll(inp, ns[1..], scope);
  }

  /** The whole text of a compiled query, with the whole parameter list, denotes the intended query. */
  lemma TextDenotesIntended(inp: Inputs, n: Node)
    requires Compile(inp, n).Ok? && Proper(n)
    ensures var sql := Compile(inp, n).value;
      ParseStatement(sql.tokens, sql.params) == Some(Intended(inp, n))
  {
    NodeParses(inp, n, End, End);
  }
}
