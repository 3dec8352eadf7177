/**
 The asset query a client sends: a JSON tree of field rules and AND/OR groups, and the check that
 decides whether it is accepted at all.
 */
module AssetQueryTree {
  import opened Wrappers
  import opened Text

  /** A rule's operand: the text of a scalar (empty when missing or falsy), or a JSON list of texts. */
  datatype Value = Scalar(text: string) | Items(texts: seq<string>)

  /** `Missing` also stands for a "rules" entry that is not a list. */
  datatype Children = Missing | Nodes(nodes: seq<Node>)

  /**
   A JSON value used as a query node. An object with a non-empty "field_path" is a rule whatever else
   it holds; every other object is a group. An absent or falsy text field is the empty string.
   */
  datatype Node =
    | NotAnObject
    | Object(fieldPath: string, operator: string, value: Value,
             combinator: string, matchScope: string, rules: Children)
  {
    predicate IsRule() { Object? && fieldPath != "" }

    predicate IsGroup() { Object? && fieldPath == "" }

    function Scope(): string
      requires Object?
    {
      Lower(if matchScope == "" then "host" else matchScope)
    }

    function Combinator(): string
      requires Object?
    {
      Lower(if combinator == "" then "and" else combinator)
    }
  }

  datatype QueryError =
    | NodeNotAnObject | TooDeep | NoOperator | UnsupportedGroup | HostInsideEntity
    | EmptyGroup | TooManyRules | NotExistsInEntity
    | NoFieldPath | CidrField | BadNetwork | NoValues | NotNumeric | UnsupportedOperator
    | CannotCorrelate

  const MAX_DEPTH: nat := 3
  const MAX_RULES: nat := 20

  function Collect(n: Node): (rules: seq<Node>)
    ensures forall r :: r in rules ==> r.IsRule()
  {
    if n.NotAnObject? then []
    else if n.IsRule() then [n]
    else match n.rules
      case Missing => []
      case Nodes(ns) => CollectAll(ns)
  }

  function CollectAll(ns: seq<Node>): (rules: seq<Node>)
    ensures forall r :: r in rules ==> r.IsRule()
  {
    if ns == [] then [] else Collect(ns[0]) + CollectAll(ns[1..])
  }

  function Validate(n: Node, depth: nat, parentScope: string): Result<nat, QueryError>
    decreases n, 1
  {
    if n.NotAnObject? then Err(NodeNotAnObject)
    else if depth > MAX_DEPTH then Err(TooDeep)
    else if n.IsRule() then
      if n.operator == "" then Err(NoOperator) else Ok(1)
    else if n.Combinator() !in {"and", "or"} || n.Scope() !in {"host", "same_entity"} then
      Err(UnsupportedGroup)
    else if parentScope == "same_entity" && n.Scope() == "host" then Err(HostInsideEntity)
    else if n.rules.Missing? || n.rules.nodes == [] then Err(EmptyGroup)
    else match ValidateAll(n.rules.nodes, depth + 1, n.Scope())
      case Err(e) => Err(e)
      case Ok(count) =>
        if count > MAX_RULES then Err(TooManyRules)
        else if n.Scope() == "same_entity" && exists r :: r in Collect(n) && r.operator == "not_exists" then
          Err(NotExistsInEntity)
        else Ok(count)
  }

  /** The sum over a group's children; the first rejected child decides the error. */
  function ValidateAll(ns: seq<Node>, depth: nat, scope: string): Result<nat, QueryError>
    decreases ns, 0
  {
    if ns == [] then Ok(0)
    else match Validate(ns[0], depth, scope)
      case Err(e) => Err(e)
      case Ok(first) =>
        match ValidateAll(ns[1..], depth, scope)
        case Err(e) => Err(e)
        case Ok(rest) => Ok(first + rest)
  }

  function Accepted(n: Node): Result<nat, QueryError> {
    Validate(n, 0, "")
  }

  /** How many groups lie on the longest path down from a node. */
  function GroupLevels(n: Node): nat
    decreases n, 1
  {
    if !n.IsGroup() then 0
    else 1 + match n.rules
             case Missing => 0
             case Nodes(ns) => GroupLevelsAll(ns)
  }

  function GroupLevelsAll(ns: seq<Node>): nat
    decreases ns, 0
  {
    if ns == [] then 0
    else
      var first, rest := GroupLevels(ns[0]), GroupLevelsAll(ns[1..]);
      if first > rest then first else rest
  }

  /** The conditions on single nodes, without the limits on depth and number of rules. */
  predicate Shaped(n: Node, parentScope: string)
    decreases n, 1
  {
    && n.Object?
    && (n.IsRule() ==> n.operator != "")
    && (n.IsGroup() ==>
          && n.Combinator() in {"and", "or"}
          && n.Scope() in {"host", "same_entity"}
          && (parentScope == "same_entity" ==> n.Scope() == "same_entity")
          && n.rules.Nodes? && n.rules.nodes != []
          && (n.Scope() == "same_entity" ==> forall r :: r in Collect(n) ==> r.operator != "not_exists")
          && ShapedAll(n.rules.nodes, n.Scope()))
  }

  predicate ShapedAll(ns: seq<Node>, scope: string)
    decreases ns, 0
  {
    ns != [] ==> Shaped(ns[0], scope) && ShapedAll(ns[1..], scope)
  }

  /** Every rule of a query lies at depth `MAX_DEPTH` or above, so groups nest at most that deep. */
  lemma {:induction false} ValidateBoundsTree(n: Node, depth: nat, parentScope: string)
    requires Validate(n, depth, parentScope).Ok?
    ensures depth <= MAX_DEPTH && GroupLevels(n) + depth <= MAX_DEPTH
    ensures Validate(n, depth, parentScope).value == |Collect(n)|
    ensures forall r :: r in Collect(n) ==> r.operator != ""
    decreases n, 1
  {
    if n.IsGroup() {
      ValidateAllBoundsTree(n.rules.nodes, depth + 1, n.Scope());
    }
  }

  lemma {:induction false} ValidateAllBoundsTree(ns: seq<Node>, depth: nat, scope: string)
    requires ValidateAll(ns, depth, scope).Ok?
    ensures GroupLevelsAll(ns) + depth <= MAX_DEPTH || ns == []
    ensures ValidateAll(ns, depth, scope).value == |CollectAll(ns)|
    ensures forall r :: r in CollectAll(ns) ==> r.operator != ""
    decreases ns, 0
  {
    if ns != [] {
      ValidateBoundsTree(ns[0], depth, scope);
      ValidateAllBoundsTree(ns[1..], depth, scope);
    }
  }

  /** What acceptance promises about the size of a query. */
  lemma AcceptedIsBounded(n: Node)
    requires Accepted(n).Ok?
    ensures GroupLevels(n) <= 3
    ensures 1 <= |Collect(n)| <= 20 && Accepted(n).value == |Collect(n)|
  {
    ValidateBoundsTree(n, 0, "");
    if n.IsGroup() {
      ValidateAllPositive(n.rules.nodes, 1, n.Scope());
    }
  }

  lemma {:induction false} ValidatePositive(n: Node, depth: nat, parentScope: string)
    requires Validate(n, depth, parentScope).Ok?
    ensures Validate(n, depth, parentScope).value >= 1
    decreases n, 1
  {
    if n.IsGroup() {
      ValidateAllPositive(n.rules.nodes, depth + 1, n.Scope());
    }
  }

  lemma {:induction false} ValidateAllPositive(ns: seq<Node>, depth: nat, scope: string)
    requires ns != [] && ValidateAll(ns, depth, scope).Ok?
    ensures ValidateAll(ns, depth, scope).value >= 1
    decreases ns, 0
  {
    ValidatePositive(ns[0], depth, scope);
  }

  /** Acceptance passes from a list of children to each of them. */
  lemma {:induction false} ValidateAllEach(ns: seq<Node>, depth: nat, scope: string, i: nat)
    requires ValidateAll(ns, depth, scope).Ok? && i < |ns|
    ensures Validate(ns[i], depth, scope).Ok?
  {
    if i > 0 {
      ValidateAllEach(ns[1..], depth, scope, i - 1);
    }
  }

  /** The limits, checked group by group on the way up, come to one check of the whole query. */
  lemma {:induction false} ValidateExactly(n: Node, depth: nat, parentScope: string)
    ensures Validate(n, depth, parentScope).Ok?
       <==> Shaped(n, parentScope) && depth + GroupLevels(n) <= MAX_DEPTH && |Collect(n)| <= MAX_RULES
    decreases n, 1
  {
    if n.IsGroup() && n.rules.Nodes? && n.rules.nodes != [] && depth <= MAX_DEPTH {
      ValidateAllExactly(n.rules.nodes, depth + 1, n.Scope());
    }
    if Validate(n, depth, parentScope).Ok? {
      ValidateBoundsTree(n, depth, parentScope);
    }
  }

  lemma {:induction false} ValidateAllExactly(ns: seq<Node>, depth: nat, scope: string)
    requires ns != []
    ensures ValidateAll(ns, depth, scope).Ok? ==>
              && ShapedAll(ns, scope) && depth + GroupLevelsAll(ns) <= MAX_DEPTH
              && ValidateAll(ns, depth, scope).value == |CollectAll(ns)|
    ensures ShapedAll(ns, scope) && depth + GroupLevelsAll(ns) <= MAX_DEPTH && |CollectAll(ns)| <= MAX_RULES ==>
              ValidateAll(ns, depth, scope).Ok?
    decreases ns, 0
  {
    ValidateExactly(ns[0], depth, scope);
    if ns[1..] != [] {
      ValidateAllExactly(ns[1..], depth, scope);
    }
    if ValidateAll(ns, depth, scope).Ok? {
      ValidateAllBoundsTree(ns, depth, scope);
    }
  }

  /** Exactly which queries are accepted. */
  lemma AcceptedExactly(n: Node)
    ensures Accepted(n).Ok? <==> Shaped(n, "") && GroupLevels(n) <= 3 && |Collect(n)| <= 20
  {
    ValidateExactly(n, 0, "");
  }
}
