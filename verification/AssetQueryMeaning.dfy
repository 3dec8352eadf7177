/**
 What an asset query asks for, read straight off its tree, and the theorem that the compiled SQL selects
 exactly those assets.
 */
module AssetQueryMeaning {
  import opened Wrappers
  import T = Text
  import opened AssetQueryTree
  import opened Sql
  import opened AssetQueryCompiler
  import AssetQueryText

  // ---- Direct meaning ----

  /** One indexed value satisfies a rule (other than `not_exists`, which is not about one value). */
  predicate ValueMatches(inp: Inputs, ops: Operators, rule: Node, row: FieldRow)
    requires rule.IsRule()
  {
    var operator := OperatorOf(rule);
    var wanted := T.Lower(inp.TextOf(rule.value));
    if operator == "exists" then true
    else if operator == "in_cidr" then
      var network := inp.parseNetwork(T.Trim(inp.TextOf(rule.value)));
      row.text.Some? && network.Some? && ops.within(row.text.value, network.value)
    else if operator == "in" then
      row.text.Some? && exists v :: v in ListOperands(rule.value) && row.text.value == T.Lower(v)
    else if operator == "equals" then row.text == Some(wanted)
    else if operator == "not_equals" then row.text.Some? && row.text.value != wanted
    else if operator == "contains" then row.text.Some? && ops.like(row.text.value, "%" + wanted + "%")
    else if operator == "starts_with" then row.text.Some? && ops.like(row.text.value, wanted + "%")
    else if operator in NUMBER_OPERATORS then
      var number := inp.parseNumber(rule.value);
      row.number.Some? && number.Some? && Compares(ComparisonOf(operator), row.number.value, number.value)
    else row.boolean == Some(operator == "is_true")
  }

  predicate RuleMatches(inp: Inputs, ops: Operators, db: Database, rule: Node, asset: string, entity: string)
    requires rule.IsRule()
  {
    && OperatorOf(rule) != "not_exists"
    && exists row :: row in db.fields && row.asset == asset && row.entity == entity
         && row.path == FieldPathOf(rule) && ValueMatches(inp, ops, rule, row)
  }

  /** The conditions hold together on one and the same entity of the asset. */
  predicate EntityMatches(inp: Inputs, ops: Operators, db: Database, n: Node, asset: string, entity: string) {
    if n.NotAnObject? || (n.IsGroup() && n.rules.Missing?) then false
    else if n.IsRule() then RuleMatches(inp, ops, db, n, asset, entity)
    else if n.Combinator() == "and" then
      forall c :: c in n.rules.nodes ==> EntityMatches(inp, ops, db, c, asset, entity)
    else
      exists c :: c in n.rules.nodes && EntityMatches(inp, ops, db, c, asset, entity)
  }

  /** The asset as a whole satisfies the query: only a host group may take its conditions from different entities. */
  ghost predicate HostMatches(inp: Inputs, ops: Operators, db: Database, n: Node, asset: string) {
    if n.NotAnObject? || (n.IsGroup() && n.rules.Missing?) then false
    else if n.IsRule() && OperatorOf(n) == "not_exists" then
      asset in db.cards && !exists row :: row in db.fields && row.asset == asset && row.path == FieldPathOf(n)
    else if n.IsGroup() && n.Scope() == "host" then
      if n.Combinator() == "and" then
        forall c :: c in n.rules.nodes ==> HostMatches(inp, ops, db, c, asset)
      else
        exists c :: c in n.rules.nodes && HostMatches(inp, ops, db, c, asset)
    else exists entity :: EntityMatches(inp, ops, db, n, asset, entity)
  }

  // ---- Rules ----

  lemma InMatches(values: seq<string>, ops: Operators, row: FieldRow)
    ensures Meets(ops, row, DigestAmong(LowerTexts(values))) && Meets(ops, row, In(LowerTexts(values)))
       <==> row.text.Some? && exists v :: v in values && row.text.value == T.Lower(v)
  {
  }

  lemma ConditionsMeanRule(inp: Inputs, ops: Operators, rule: Node, row: FieldRow)
    requires rule.IsRule() && CompileCondition(inp, rule).Ok?
    ensures (forall c :: c in IntendedConditions(inp, rule) ==> Meets(ops, row, c))
       <==> ValueMatches(inp, ops, rule, row)
  {
    var cs := IntendedConditions(inp, rule);
    if OperatorOf(rule) == "in" {
      InMatches(ListOperands(rule.value), ops, row);
      assert cs[0] in cs && cs[1] in cs;
    } else if OperatorOf(rule) == "equals" {
      assert cs[0] in cs && cs[1] in cs;
    } else if OperatorOf(rule) != "exists" {
      assert cs[0] in cs;
    }
  }

  /** Rows about the whole host carry NULL for their entity. */
  predicate HostScoped(n: Node)
    requires n.Object?
  {
    if n.IsRule() then OperatorOf(n) == "not_exists" else n.Scope() == "host"
  }

  ghost predicate Selected(inp: Inputs, ops: Operators, db: Database, n: Node, asset: string, entity: Option<string>)
    requires n.Object?
  {
    if HostScoped(n) then entity == None && HostMatches(inp, ops, db, n, asset)
    else entity.Some? && EntityMatches(inp, ops, db, n, asset, entity.value)
  }

  lemma RuleSelects(inp: Inputs, ops: Operators, db: Database, rule: Node, asset: string, entity: Option<string>)
    requires rule.IsRule() && CompileRule(inp, rule).Ok?
    ensures (asset, entity) in Eval(ops, db, IntendedRule(inp, rule)) <==> Selected(inp, ops, db, rule, asset, entity)
  {
    hide CompileCondition;
    hide IntendedConditions;
    hide ValueMatches;
    hide Meets;
    if OperatorOf(rule) != "not_exists" {
      forall row {
        ConditionsMeanRule(inp, ops, rule, row);
      }
    }
  }

  // ---- Groups ----

  lemma {:induction false} FoldSelects(
    ops: Operators, db: Database, intersect: bool, left: Query, qs: seq<Query>, x: Pair)
    ensures x in Eval(ops, db, Fold(intersect, left, qs))
       <==> if intersect then x in Eval(ops, db, left) && forall q :: q in qs ==> x in Eval(ops, db, q)
            else x in Eval(ops, db, left) || exists q :: q in qs && x in Eval(ops, db, q)
    decreases |qs|
  {
    if qs != [] {
      FoldSelects(ops, db, intersect, if intersect then Both(left, qs[0]) else Either(left, qs[0]), qs[1..], x);
      assert qs[0] in qs && forall q :: q in qs <==> q == qs[0] || q in qs[1..];
      assert (exists q :: q in qs && x in Eval(ops, db, q))
        <==> x in Eval(ops, db, qs[0]) || exists q :: q in qs[1..] && x in Eval(ops, db, q);
    }
  }

  /** A child of a compiled group: its query, and that it can be correlated where it must be. */
  lemma {:induction false} ChildCompiles(inp: Inputs, ns: seq<Node>, scope: string, i: nat)
    requires CompileAll(inp, ns, scope).Ok? && ProperAll(ns) && i < |ns|
    ensures Compile(inp, ns[i]).Ok? && Proper(ns[i])
    ensures scope != "host" ==> !HostScoped(ns[i])
    ensures IntendedAll(inp, ns, scope)[i]
         == Pairs(if scope == "host" then Hosts(Intended(inp, ns[i])) else Intended(inp, ns[i]))
  {
    hide CompileCondition;
    hide IntendedConditions;
    if i > 0 {
      ChildCompiles(inp, ns[1..], scope, i - 1);
    }
  }

  /** What one child contributes to its group's pairs. */
  ghost predicate ChildSelected(
    inp: Inputs, ops: Operators, db: Database, scope: string, c: Node, asset: string, entity: Option<string>)
    requires c.Object?
  {
    if scope == "host" then entity == None && HostMatches(inp, ops, db, c, asset)
    else entity.Some? && EntityMatches(inp, ops, db, c, asset, entity.value)
  }

  lemma ChildSelects(
    inp: Inputs, ops: Operators, db: Database, q: Query, scope: string, c: Node, asset: string, entity: Option<string>)
    requires c.Object? && (scope != "host" ==> !HostScoped(c))
    requires forall e :: (asset, e) in Eval(ops, db, q) <==> Selected(inp, ops, db, c, asset, e)
    ensures (asset, entity) in Eval(ops, db, Pairs(if scope == "host" then Hosts(q) else q))
       <==> ChildSelected(inp, ops, db, scope, c, asset, entity)
  {
    if scope == "host" && entity == None {
      if (asset, None) in Eval(ops, db, Hosts(q)) {
        var pair :| pair in Eval(ops, db, q) && pair.0 == asset;
        assert Selected(inp, ops, db, c, asset, pair.1);
      }
      if HostMatches(inp, ops, db, c, asset) {
        if HostScoped(c) {
          assert (asset, None) in Eval(ops, db, q);
        } else {
          var e :| EntityMatches(inp, ops, db, c, asset, e);
          assert (asset, Some(e)) in Eval(ops, db, q);
        }
      }
    }
  }

  lemma {:induction false} NodeSelects(
    inp: Inputs, ops: Operators, db: Database, n: Node, asset: string, entity: Option<string>)
    requires Compile(inp, n).Ok? && Proper(n)
    ensures (asset, entity) in Eval(ops, db, Intended(inp, n)) <==> Selected(inp, ops, db, n, asset, entity)
    decreases n
  {
    hide CompileCondition;
    hide IntendedConditions;
    hide ValueMatches;
    if n.IsRule() {
      RuleSelects(inp, ops, db, n, asset, entity);
    } else {
      var ns, scope := n.rules.nodes, n.Scope();
      var qs := IntendedAll(inp, ns, scope);
      forall i | 0 <= i < |ns|
        ensures ns[i].Object?
        ensures (asset, entity) in Eval(ops, db, qs[i]) <==> ChildSelected(inp, ops, db, scope, ns[i], asset, entity)
      {
        ChildCompiles(inp, ns, scope, i);
        forall e {
          NodeSelects(inp, ops, db, ns[i], asset, e);
        }
        ChildSelects(inp, ops, db, Intended(inp, ns[i]), scope, ns[i], asset, entity);
      }
      FoldSelects(ops, db, n.Combinator() == "and", qs[0], qs[1..], (asset, entity));
      GroupSelects(inp, ops, db, n, qs, asset, entity);
    }
  }

  /** From the children to the group. */
  lemma GroupSelects(
    inp: Inputs, ops: Operators, db: Database, n: Node, qs: seq<Query>, asset: string, entity: Option<string>)
    requires n.IsGroup() && n.rules.Nodes? && n.rules.nodes != [] && |qs| == |n.rules.nodes|
    requires forall i :: 0 <= i < |qs| ==> n.rules.nodes[i].Object?
    requires forall i :: 0 <= i < |qs| ==>
      (ChildSelected(inp, ops, db, n.Scope(), n.rules.nodes[i], asset, entity)
       <==> (asset, entity) in Eval(ops, db, qs[i]))
    ensures Selected(inp, ops, db, n, asset, entity) <==>
      var x := (asset, entity);
      if n.Combinator() == "and"
      then x in Eval(ops, db, qs[0]) && forall q :: q in qs[1..] ==> x in Eval(ops, db, q)
      else x in Eval(ops, db, qs[0]) || exists q :: q in qs[1..] && x in Eval(ops, db, q)
  {
    hide Eval;
    hide ChildSelected;
    hide Selected;
    SelectedByChildren(inp, ops, db, n, asset, entity);
    HeadAndTail(qs, q => (asset, entity) in Eval(ops, db, q));
  }

  /** A group selects a pair when all, or some, of its children contribute it. */
  lemma SelectedByChildren(inp: Inputs, ops: Operators, db: Database, n: Node, asset: string, entity: Option<string>)
    requires n.IsGroup() && n.rules.Nodes? && n.rules.nodes != []
    requires forall i :: 0 <= i < |n.rules.nodes| ==> n.rules.nodes[i].Object?
    ensures Selected(inp, ops, db, n, asset, entity)
       <==> var ns := n.rules.nodes;
            if n.Combinator() == "and"
            then forall i :: 0 <= i < |ns| ==> ChildSelected(inp, ops, db, n.Scope(), ns[i], asset, entity)
            else exists i :: 0 <= i < |ns| && ChildSelected(inp, ops, db, n.Scope(), ns[i], asset, entity)
  {
    var ns := n.rules.nodes;
    assert ns[0] in ns;
    if n.Scope() == "host" {
      ByIndex(ns, (c: Node) => c.Object? && HostMatches(inp, ops, db, c, asset));
    } else if entity.Some? {
      ByIndex(ns, (c: Node) => c.Object? && EntityMatches(inp, ops, db, c, asset, entity.value));
    }
  }

  lemma ByIndex<T>(s: seq<T>, holds: T -> bool)
    ensures (forall x :: x in s ==> holds(x)) <==> forall i :: 0 <= i < |s| ==> holds(s[i])
    ensures (exists x :: x in s && holds(x)) <==> exists i :: 0 <= i < |s| && holds(s[i])
  {
  }

  lemma HeadAndTail<T>(s: seq<T>, holds: T -> bool)
    requires s != []
    ensures (holds(s[0]) && forall x :: x in s[1..] ==> holds(x)) <==> forall i :: 0 <= i < |s| ==> holds(s[i])
    ensures (holds(s[0]) || exists x :: x in s[1..] && holds(x)) <==> exists i :: 0 <= i < |s| && holds(s[i])
  {
  }

  // ---- The compiler is correct ----

  /**
   For every accepted query, index and definition of the value operators: the emitted text is a statement
   that uses up the emitted parameters, and the assets it selects are exactly those the query describes.
   */
  lemma CompiledQuerySelectsMatches(inp: Inputs, ops: Operators, db: Database, n: Node)
    requires Accepted(n).Ok? && Compile(inp, n).Ok?
    ensures var statement := ParseStatement(Compile(inp, n).value.tokens, Compile(inp, n).value.params);
      && statement.Some?
      && forall asset :: asset in Assets(ops, db, statement.value) <==> HostMatches(inp, ops, db, n, asset)
  {
    AcceptedExactly(n);
    ShapedIsProper(n, "");
    AssetQueryText.TextDenotesIntended(inp, n);
    var q := Intended(inp, n);
    forall asset
      ensures asset in Assets(ops, db, q) <==> HostMatches(inp, ops, db, n, asset)
    {
      forall e {
        NodeSelects(inp, ops, db, n, asset, e);
      }
      ChildSelects(inp, ops, db, q, "host", n, asset, None);
      AssetOfHosts(ops, db, q, asset);
    }
  }

  lemma AssetOfHosts(ops: Operators, db: Database, q: Query, asset: string)
    ensures asset in Assets(ops, db, q) <==> (asset, None) in Eval(ops, db, Pairs(Hosts(q)))
  {
  }
}
