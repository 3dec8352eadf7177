/**
 The recursive compiler from an asset query to SQL text with positional parameters, and the query the
 text is meant to denote.
 */
module AssetQueryCompiler {
  import opened Wrappers
  import T = Text
  import opened AssetQueryTree
  import opened Sql

  /** The conversions of operand values whose definition is left open. */
  datatype Inputs = Inputs(
    parseNumber: Value -> Option<real>,
    parseNetwork: string -> Option<string>,
    showList: seq<string> -> string)
  {
    /** The text of a value; an empty list counts as a missing one. */
    function TextOf(v: Value): string {
      match v
      case Scalar(text) => text
      case Items(texts) => if texts == [] then "" else showList(texts)
    }
  }

  // ---- Operands ----

  /** The text before the first comma, and the texts after it. */
  function Split(s: string, acc: string): (parts: seq<string>)
    ensures parts != []
    decreases |s|
  {
    if s == "" then [acc]
    else if s[0] == ',' then [acc] + Split(s[1..], "")
    else Split(s[1..], acc + [s[0]])
  }

  function TrimmedNonEmpty(parts: seq<string>): seq<string> {
    if parts == [] then []
    else if T.Trim(parts[0]) == "" then TrimmedNonEmpty(parts[1..])
    else [T.Trim(parts[0])] + TrimmedNonEmpty(parts[1..])
  }

  /** The operands of `in`: a list as it is, or a text split at its commas. */
  function ListOperands(v: Value): seq<string> {
    match v
    case Items(texts) => texts
    case Scalar(text) => TrimmedNonEmpty(Split(text, ""))
  }

  function LowerTexts(texts: seq<string>): (params: seq<Param>)
    ensures |params| == |texts|
    ensures forall i :: 0 <= i < |texts| ==> params[i] == Text(T.Lower(texts[i]))
  {
    seq(|texts|, i requires 0 <= i < |texts| => Text(T.Lower(texts[i])))
  }

  const TEXT_OPERATORS: set<string> := {"equals", "not_equals", "contains", "starts_with", "in"}
  const NUMBER_OPERATORS: set<string> := {"equals", "not_equals", "gt", "gte", "lt", "lte"}
  const BOOLEAN_OPERATORS: set<string> := {"is_true", "is_false"}

  function ComparisonOf(operator: string): Comparison
    requires operator in NUMBER_OPERATORS
  {
    if operator == "equals" then Equal
    else if operator == "not_equals" then NotEqual
    else if operator == "gt" then Greater
    else if operator == "gte" then GreaterOrEqual
    else if operator == "lt" then Less
    else LessOrEqual
  }

  // ---- Compilation ----

  datatype SqlText = SqlText(tokens: seq<Token>, params: seq<Param>, scope: string)

  function FieldPathOf(rule: Node): string
    requires rule.IsRule()
  {
    T.Trim(rule.fieldPath)
  }

  function OperatorOf(rule: Node): string
    requires rule.IsRule()
  {
    T.Lower(rule.operator)
  }

  const BASE: seq<Token> := [SelectFieldRows, Placeholder]

  /** `count` placeholders separated by commas and closed, each inside md5() when hashed. */
  function OperandTokens(hashed: bool, count: nat): seq<Token>
    requires count > 0
  {
    var one := if hashed then [Md5, Placeholder, Close] else [Placeholder];
    if count == 1 then one + [Close] else one + [Comma] + OperandTokens(hashed, count - 1)
  }

  /** The text and parameters a rule adds after its field path. */
  datatype Fragment = Fragment(tokens: seq<Token>, params: seq<Param>)

  /** The conditions of a rule on the value of its field; `not_exists` has none. */
  function CompileCondition(inp: Inputs, rule: Node): Result<Fragment, QueryError>
    requires rule.IsRule()
  {
    var operator := OperatorOf(rule);
    var normalized := T.Lower(inp.TextOf(rule.value));
    if operator == "exists" then Ok(Fragment([], []))
    else if operator == "in_cidr" then
      if FieldPathOf(rule) != "asset.ipAddress" then Err(CidrField)
      else match inp.parseNetwork(T.Trim(inp.TextOf(rule.value)))
        case None => Err(BadNetwork)
        case Some(network) => Ok(Fragment([And, TextWithin, Placeholder, AsCidr], [Text(network)]))
    else if operator in TEXT_OPERATORS then
      if operator == "in" then
        var values := LowerTexts(ListOperands(rule.value));
        if values == [] then Err(NoValues)
        else Ok(Fragment(
          [And, DigestIn] + OperandTokens(true, |values|) + [And, TextIn] + OperandTokens(false, |values|),
          values + values))
      else if operator == "equals" then
        Ok(Fragment(
          [And, DigestEquals] + [Md5, Placeholder, Close] + [And, TextEquals, Placeholder],
          [Text(normalized), Text(normalized)]))
      else if operator == "not_equals" then Ok(Fragment([And, TextDiffers, Placeholder], [Text(normalized)]))
      else if operator == "contains" then
        Ok(Fragment([And, TextLike, Placeholder], [Text("%" + normalized + "%")]))
      else Ok(Fragment([And, TextLike, Placeholder], [Text(normalized + "%")]))
    else if operator in NUMBER_OPERATORS then
      match inp.parseNumber(rule.value)
      case None => Err(NotNumeric)
      case Some(number) => Ok(Fragment([And, NumberIs(ComparisonOf(operator)), Placeholder], [Number(number)]))
    else if operator in BOOLEAN_OPERATORS then
      Ok(Fragment([And, BooleanEquals, Placeholder], [Boolean(operator == "is_true")]))
    else Err(UnsupportedOperator)
  }

  function CompileRule(inp: Inputs, rule: Node): Result<SqlText, QueryError>
    requires rule.IsRule()
  {
    var path := FieldPathOf(rule);
    if path == "" then Err(NoFieldPath)
    else if OperatorOf(rule) == "not_exists" then
      Ok(SqlText([SelectCardsWithout, Placeholder, Close], [Text(path)], "host"))
    else match CompileCondition(inp, rule)
      case Err(e) => Err(e)
      case Ok(added) => Ok(SqlText(BASE + added.tokens, [Text(path)] + added.params, "entity"))
  }

  /** The parts of a group's text, one for each child, and their parameters in the same order. */
  datatype GroupText = GroupText(parts: seq<seq<Token>>, params: seq<Param>)

  function Join(separator: Token, parts: seq<seq<Token>>): seq<Token> {
    if parts == [] then [] else parts[0] + JoinRest(separator, parts[1..])
  }

  function JoinRest(separator: Token, parts: seq<seq<Token>>): seq<Token> {
    if parts == [] then [] else [separator] + parts[0] + JoinRest(separator, parts[1..])
  }

  function Part(scope: string, child: seq<Token>): seq<Token> {
    [SelectPairsFrom] +
    (if scope == "host" then [SelectHostsFrom] + child + [CloseChild] else child) +
    [CloseGroupedChild]
  }

  function Compile(inp: Inputs, n: Node): Result<SqlText, QueryError>
    decreases n, 1
  {
    if n.NotAnObject? then Err(NodeNotAnObject)
    else if n.IsRule() then CompileRule(inp, n)
    else
      match CompileAll(inp, if n.rules.Missing? then [] else n.rules.nodes, n.Scope())
      case Err(e) => Err(e)
      case Ok(group) =>
        var separator := if n.Combinator() == "and" then Intersect else Union;
        Ok(SqlText(Join(separator, group.parts), group.params, n.Scope()))
  }

  function CompileAll(inp: Inputs, ns: seq<Node>, scope: string): Result<GroupText, QueryError>
    decreases ns, 0
  {
    if ns == [] then Ok(GroupText([], []))
    else match Compile(inp, ns[0])
      case Err(e) => Err(e)
      case Ok(child) =>
        if scope != "host" && child.scope == "host" then Err(CannotCorrelate)
        else match CompileAll(inp, ns[1..], scope)
          case Err(e) => Err(e)
          case Ok(rest) =>
            Ok(GroupText([Part(scope, child.tokens)] + rest.parts, child.params + rest.params))
  }

  // ---- The intended query ----

  function IntendedConditions(inp: Inputs, rule: Node): seq<Condition>
    requires rule.IsRule() && CompileCondition(inp, rule).Ok?
  {
    var operator := OperatorOf(rule);
    var normalized := T.Lower(inp.TextOf(rule.value));
    if operator == "exists" then []
    else if operator == "in_cidr" then [Within(Text(inp.parseNetwork(T.Trim(inp.TextOf(rule.value))).value))]
    else if operator == "in" then
      var values := LowerTexts(ListOperands(rule.value));
      [DigestAmong(values), In(values)]
    else if operator == "equals" then [SameDigest(Text(normalized)), Equals(Text(normalized))]
    else if operator == "not_equals" then [Differs(Text(normalized))]
    else if operator == "contains" then [Like(Text("%" + normalized + "%"))]
    else if operator == "starts_with" then [Like(Text(normalized + "%"))]
    else if operator in NUMBER_OPERATORS then
      [NumberCompares(ComparisonOf(operator), Number(inp.parseNumber(rule.value).value))]
    else [BooleanIs(Boolean(operator == "is_true"))]
  }

  function IntendedRule(inp: Inputs, rule: Node): Query
    requires rule.IsRule() && CompileRule(inp, rule).Ok?
  {
    if OperatorOf(rule) == "not_exists" then CardsWithout(Text(FieldPathOf(rule)))
    else FieldRows(Text(FieldPathOf(rule)), IntendedConditions(inp, rule))
  }

  /** Every group has children, as acceptance ensures. */
  predicate Proper(n: Node)
    decreases n, 1
  {
    n.Object? && (n.IsGroup() ==> n.rules.Nodes? && n.rules.nodes != [] && ProperAll(n.rules.nodes))
  }

  predicate ProperAll(ns: seq<Node>)
    decreases ns, 0
  {
    ns != [] ==> Proper(ns[0]) && ProperAll(ns[1..])
  }

  lemma {:induction false} ShapedIsProper(n: Node, parentScope: string)
    requires Shaped(n, parentScope)
    ensures Proper(n)
    decreases n, 1
  {
    if n.IsGroup() {
      ShapedAllIsProper(n.rules.nodes, n.Scope());
    }
  }

  lemma {:induction false} ShapedAllIsProper(ns: seq<Node>, scope: string)
    requires ShapedAll(ns, scope)
    ensures ProperAll(ns)
    decreases ns, 0
  {
    if ns != [] {
      ShapedIsProper(ns[0], scope);
      ShapedAllIsProper(ns[1..], scope);
    }
  }

  function Fold(intersect: bool, left: Query, qs: seq<Query>): Query
    decreases |qs|
  {
    if qs == [] then left
    else Fold(intersect, if intersect then Both(left, qs[0]) else Either(left, qs[0]), qs[1..])
  }

  /** A rule or a non-empty group as a query: a group's children combined from the left. */
  function Intended(inp: Inputs, n: Node): Query
    requires Compile(inp, n).Ok? && Proper(n)
    decreases n, 1
  {
    if n.IsRule() then IntendedRule(inp, n)
    else
      var qs := IntendedAll(inp, n.rules.nodes, n.Scope());
      Fold(n.Combinator() == "and", qs[0], qs[1..])
  }

  function IntendedAll(inp: Inputs, ns: seq<Node>, scope: string): (qs: seq<Query>)
    requires CompileAll(inp, ns, scope).Ok? && ProperAll(ns)
    ensures |qs| == |ns|
    decreases ns, 0
  {
    if ns == [] then []
    else
      hide CompileRule;
      var child := Intended(inp, ns[0]);
      [Pairs(if scope == "host" then Hosts(child) else child)] + IntendedAll(inp, ns[1..], scope)
  }
}
