/**
 Which accepted queries the compiler still refuses. Acceptance looks for the operator `not_exists` as it is
 spelled; the compiler lowers the operator first. So "NOT_EXISTS" inside a same_entity group is accepted
 and then cannot be compiled.
 */
module AssetQueryCorrelation {
  import opened Wrappers
  import T = Text
  import opened AssetQueryTree
  import opened AssetQueryCompiler

  predicate IsMissingRule(r: Node) {
    r.IsRule() && OperatorOf(r) == "not_exists"
  }

  predicate AnyMissing(rules: seq<Node>) {
    exists r :: r in rules && IsMissingRule(r)
  }

  lemma AnyMissingCat(a: seq<Node>, b: seq<Node>)
    ensures AnyMissing(a + b) <==> AnyMissing(a) || AnyMissing(b)
  {
  }

  lemma NoneMissing()
    ensures !AnyMissing([])
  {
  }

  lemma OnlyMissing(rule: Node)
    ensures AnyMissing([rule]) <==> IsMissingRule(rule)
  {
    assert rule in [rule];
  }

  /** Some same_entity group has a rule that the compiler reads as `not_exists`. */
  predicate CorrelatesMissing(n: Node)
    decreases n, 1
  {
    n.IsGroup() && n.rules.Nodes? &&
    ((n.Scope() == "same_entity" && AnyMissing(Collect(n))) || CorrelatesMissingAll(n.rules.nodes))
  }

  predicate CorrelatesMissingAll(ns: seq<Node>)
    decreases ns, 0
  {
    ns != [] && (CorrelatesMissing(ns[0]) || CorrelatesMissingAll(ns[1..]))
  }

  ghost predicate RulesCompile(inp: Inputs, rules: seq<Node>) {
    forall r :: r in rules ==> r.IsRule() && CompileRule(inp, r).Ok?
  }

  predicate FailsToCorrelate<R>(r: Result<R, QueryError>) {
    r == Err(CannotCorrelate)
  }

  lemma {:induction false} CompilesExactly(inp: Inputs, n: Node, parentScope: string)
    requires Shaped(n, parentScope) && RulesCompile(inp, Collect(n))
    ensures Compile(inp, n).Ok? <==> !CorrelatesMissing(n)
    ensures Compile(inp, n).Ok? || FailsToCorrelate(Compile(inp, n))
    decreases n, 1
  {
    hide CompileCondition;
    if n.IsGroup() {
      ChildrenCompileExactly(inp, n.rules.nodes, n.Scope());
      if n.Scope() == "same_entity" {
        EntityMissing(n.rules.nodes);
      }
    } else {
      assert n in Collect(n);
    }
  }

  lemma {:induction false} ChildrenCompileExactly(inp: Inputs, ns: seq<Node>, scope: string)
    requires ShapedAll(ns, scope) && RulesCompile(inp, CollectAll(ns)) && scope in {"host", "same_entity"}
    ensures CompileAll(inp, ns, scope).Ok?
       <==> !CorrelatesMissingAll(ns) && (scope == "same_entity" ==> !AnyMissing(CollectAll(ns)))
    ensures CompileAll(inp, ns, scope).Ok? || FailsToCorrelate(CompileAll(inp, ns, scope))
    decreases ns, 0
  {
    hide CompileCondition;
    hide AnyMissing;
    if ns != [] {
      assert CollectAll(ns) == Collect(ns[0]) + CollectAll(ns[1..]);
      AnyMissingCat(Collect(ns[0]), CollectAll(ns[1..]));
      CompilesExactly(inp, ns[0], scope);
      ChildrenCompileExactly(inp, ns[1..], scope);
      if ns[0].IsRule() {
        assert Collect(ns[0]) == [ns[0]];
        OnlyMissing(ns[0]);
      } else if scope == "same_entity" {
        EntityMissing(ns[0].rules.nodes);
        assert Collect(ns[0]) == CollectAll(ns[0].rules.nodes);
        assert CorrelatesMissing(ns[0]) <==> AnyMissing(Collect(ns[0]));
      }
    } else {
      NoneMissing();
    }
  }

  /** Inside same_entity every nested group is same_entity too, so nested offences are offences of the outer group. */
  lemma {:induction false} EntityMissing(ns: seq<Node>)
    requires ShapedAll(ns, "same_entity")
    ensures CorrelatesMissingAll(ns) ==> AnyMissing(CollectAll(ns))
  {
    if ns != [] {
      assert CollectAll(ns) == Collect(ns[0]) + CollectAll(ns[1..]);
      AnyMissingCat(Collect(ns[0]), CollectAll(ns[1..]));
      EntityMissing(ns[1..]);
      if ns[0].IsGroup() {
        EntityMissing(ns[0].rules.nodes);
        assert Collect(ns[0]) == CollectAll(ns[0].rules.nodes);
        assert CorrelatesMissing(ns[0]) ==> AnyMissing(Collect(ns[0]));
      } else {
        assert !CorrelatesMissing(ns[0]);
      }
      assert CorrelatesMissingAll(ns) ==> CorrelatesMissing(ns[0]) || CorrelatesMissingAll(ns[1..]);
    }
  }

  /** An accepted query whose rules are each valid compiles exactly when no `not_exists` must be correlated. */
  lemma AcceptedCompilesExactly(inp: Inputs, n: Node)
    requires Accepted(n).Ok? && RulesCompile(inp, Collect(n))
    ensures Compile(inp, n).Ok? <==> !CorrelatesMissing(n)
    ensures !Compile(inp, n).Ok? ==> Compile(inp, n) == Err(CannotCorrelate)
  {
    AcceptedExactly(n);
    CompilesExactly(inp, n, "");
  }

  /** Operators written in lower case are judged alike by both. */
  lemma {:induction false} LowerCaseNeverCorrelatesMissing(n: Node, parentScope: string)
    requires Shaped(n, parentScope)
    requires forall r :: r in Collect(n) ==> T.Lower(r.operator) == r.operator
    ensures !CorrelatesMissing(n)
    decreases n, 1
  {
    if n.IsGroup() {
      LowerCaseNeverCorrelatesMissingAll(n.rules.nodes, n.Scope());
    }
  }

  lemma {:induction false} LowerCaseNeverCorrelatesMissingAll(ns: seq<Node>, scope: string)
    requires ShapedAll(ns, scope)
    requires forall r :: r in CollectAll(ns) ==> T.Lower(r.operator) == r.operator
    ensures !CorrelatesMissingAll(ns)
    decreases ns, 0
  {
    if ns != [] {
      LowerCaseNeverCorrelatesMissing(ns[0], scope);
      LowerCaseNeverCorrelatesMissingAll(ns[1..], scope);
    }
  }

  /** Whatever else is wrong with its rules, a query without the cause never meets the correlation error. */
  lemma {:induction false} NoCorrelationError(inp: Inputs, n: Node, parentScope: string)
    requires Shaped(n, parentScope) && !CorrelatesMissing(n)
    ensures !FailsToCorrelate(Compile(inp, n))
    decreases n, 1
  {
    if n.IsGroup() {
      hide CompileCondition;
      NoCorrelationErrorAll(inp, n.rules.nodes, n.Scope());
    }
  }

  lemma {:induction false} NoCorrelationErrorAll(inp: Inputs, ns: seq<Node>, scope: string)
    requires ShapedAll(ns, scope) && scope in {"host", "same_entity"} && !CorrelatesMissingAll(ns)
    requires scope == "same_entity" ==> !AnyMissing(CollectAll(ns))
    ensures !FailsToCorrelate(CompileAll(inp, ns, scope))
    decreases ns, 0
  {
    hide CompileCondition;
    if ns != [] {
      assert CollectAll(ns) == Collect(ns[0]) + CollectAll(ns[1..]);
      AnyMissingCat(Collect(ns[0]), CollectAll(ns[1..]));
      NoCorrelationError(inp, ns[0], scope);
      NoCorrelationErrorAll(inp, ns[1..], scope);
      if ns[0].IsRule() {
        assert ns[0] in CollectAll(ns);
      }
    }
  }

  /** With lower-case operators the correlation error is out of reach for accepted queries. */
  lemma LowerCaseNeverFailsToCorrelate(inp: Inputs, n: Node)
    requires Accepted(n).Ok? && forall r :: r in Collect(n) ==> T.Lower(r.operator) == r.operator
    ensures Compile(inp, n) != Err(CannotCorrelate)
  {
    AcceptedExactly(n);
    LowerCaseNeverCorrelatesMissing(n, "");
    NoCorrelationError(inp, n, "");
  }

  /** The gap itself: an accepted query that never compiles. */
  lemma UpperCaseNotExistsIsAcceptedButFails(inp: Inputs)
    ensures var rule := Object("asset.port", "NOT_EXISTS", Scalar(""), "", "", Missing);
            var query := Object("", "", Scalar(""), "and", "same_entity", Nodes([rule]));
      Accepted(query) == Ok(1) && Compile(inp, query) == Err(CannotCorrelate)
  {
    var rule := Object("asset.port", "NOT_EXISTS", Scalar(""), "", "", Missing);
    var query := Object("", "", Scalar(""), "and", "same_entity", Nodes([rule]));
    assert T.Lower("NOT_EXISTS") == "not_exists";
    assert T.Lower("same_entity") == "same_entity" && T.Lower("and") == "and";
    assert T.Trim("asset.port") == "asset.port";
    assert [rule][1..] == [];
    assert Collect(rule) == [rule] && CollectAll([rule]) == [rule];
    assert Validate(rule, 1, "same_entity") == Ok(1);
    assert ValidateAll([rule], 1, "same_entity") == Ok(1);
    assert CompileRule(inp, rule).Ok?;
  }
}
