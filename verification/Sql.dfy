/**
 The fragment of SQL that asset queries are compiled to: its text as a token sequence with positional
 placeholders, a parser for it with the standard precedence (INTERSECT binds tighter than UNION, both
 left-associative; section 7.13 of ISO/IEC 9075-2:2003), and what a parsed query selects.
 */
module Sql {
  import opened Wrappers

  datatype Comparison = Equal | NotEqual | Greater | GreaterOrEqual | Less | LessOrEqual

  /** Each token is a fixed piece of query text. */
  datatype Token =
    | SelectPairsFrom          // SELECT asset_id, entity_path FROM (
    | SelectHostsFrom          // SELECT DISTINCT asset_id, NULL::text AS entity_path FROM (
    | CloseGroupedChild        // ) grouped_child
    | CloseChild               // ) child
    | Intersect                // INTERSECT
    | Union                    // UNION
    | SelectFieldRows          // SELECT asset_id, entity_path FROM asset_card_search_fields WHERE field_path =
    | SelectCardsWithout       // SELECT card.asset_id, NULL::text AS entity_path FROM asset_cards card WHERE
                               //   NOT EXISTS (SELECT 1 FROM ... field WHERE ... field.field_path =
    | Placeholder              // %s
    | Close                    // )
    | Comma                    // ,
    | And                      // AND
    | TextWithin               // value_text_normalized::inet <<=
    | AsCidr                   // ::cidr
    | TextEquals               // value_text_normalized =
    | TextDiffers              // value_text_normalized <>
    | TextLike                 // value_text_normalized LIKE
    | TextIn                   // value_text_normalized IN (
    | DigestEquals             // md5(value_text_normalized) =
    | DigestIn                 // md5(value_text_normalized) IN (
    | Md5                      // md5(
    | NumberIs(op: Comparison) // value_number <op>
    | BooleanEquals            // value_boolean =

  datatype Param = Text(text: string) | Number(number: real) | Boolean(boolean: bool)

  // ---- Parsed queries ----

  datatype Condition =
    | Within(network: Param)
    | Equals(operand: Param)
    | Differs(operand: Param)
    | Like(pattern: Param)
    | In(operands: seq<Param>)
    | SameDigest(operand: Param)
    | DigestAmong(operands: seq<Param>)
    | NumberCompares(op: Comparison, operand: Param)
    | BooleanIs(operand: Param)

  datatype Query =
    | FieldRows(path: Param, conditions: seq<Condition>)
    | CardsWithout(path: Param)
    | Pairs(source: Query)
    | Hosts(source: Query)
    | Both(left: Query, right: Query)
    | Either(left: Query, right: Query)

  // ---- Parsing; placeholders take the parameters from left to right ----

  /** What is left to read. */
  datatype Stream<T> = End | More(head: T, tail: Stream<T>)

  function Length<T>(s: Stream<T>): nat {
    match s
    case End => 0
    case More(_, tail) => 1 + Length(tail)
  }

  /** The items of a sequence, then the rest. */
  function Put<T>(items: seq<T>, rest: Stream<T>): Stream<T> {
    if items == [] then rest else More(items[0], Put(items[1..], rest))
  }

  type Tokens = Stream<Token>
  type Params = Stream<Param>

  datatype Parsed<+T> = Fail | Done(value: T, tokens: Tokens, params: Params)

  predicate At(t: Token, ts: Tokens) {
    ts.More? && ts.head == t
  }

  /** After a closing token, if it is there. */
  function Closed<T>(r: Parsed<T>, t: Token): (c: Parsed<T>)
    ensures c.Done? ==> r.Done? && Length(c.tokens) < Length(r.tokens)
  {
    if r.Done? && At(t, r.tokens) then Done(r.value, r.tokens.tail, r.params) else Fail
  }

  function ParseParam(ts: Tokens, ps: Params): (r: Parsed<Param>)
    ensures r.Done? ==> Length(r.tokens) < Length(ts)
  {
    if At(Placeholder, ts) && ps.More? then Done(ps.head, ts.tail, ps.tail) else Fail
  }

  function ParseHashedParam(ts: Tokens, ps: Params): (r: Parsed<Param>)
    ensures r.Done? ==> Length(r.tokens) < Length(ts)
  {
    if At(Md5, ts) then Closed(ParseParam(ts.tail, ps), Close) else Fail
  }

  /** The operands of IN: `%s, %s)`, or `md5(%s), md5(%s))` when hashed. */
  function ParseOperands(hashed: bool, ts: Tokens, ps: Params): (r: Parsed<seq<Param>>)
    ensures r.Done? ==> Length(r.tokens) < Length(ts)
    decreases Length(ts)
  {
    match if hashed then ParseHashedParam(ts, ps) else ParseParam(ts, ps)
    case Fail => Fail
    case Done(p, ts1, ps1) =>
      if At(Close, ts1) then Done([p], ts1.tail, ps1)
      else if At(Comma, ts1) then
        match ParseOperands(hashed, ts1.tail, ps1)
        case Fail => Fail
        case Done(rest, ts2, ps2) => Done([p] + rest, ts2, ps2)
      else Fail
  }

  function ParseSimple(ts: Tokens, ps: Params): (r: Parsed<Condition>)
    requires ts.More?
    ensures r.Done? ==> Length(r.tokens) < Length(ts)
  {
    match ParseParam(ts.tail, ps)
    case Fail => Fail
    case Done(p, ts1, ps1) =>
      match ts.head
      case TextEquals => Done(Equals(p), ts1, ps1)
      case TextDiffers => Done(Differs(p), ts1, ps1)
      case TextLike => Done(Like(p), ts1, ps1)
      case NumberIs(op) => Done(NumberCompares(op, p), ts1, ps1)
      case BooleanEquals => Done(BooleanIs(p), ts1, ps1)
      case _ => Fail
  }

  function ParseCondition(ts: Tokens, ps: Params): (r: Parsed<Condition>)
    ensures r.Done? ==> Length(r.tokens) < Length(ts)
  {
    if ts.End? then Fail
    else match ts.head
      case TextIn =>
        (match ParseOperands(false, ts.tail, ps)
         case Fail => Fail
         case Done(operands, ts1, ps1) => Done(In(operands), ts1, ps1))
      case DigestIn =>
        (match ParseOperands(true, ts.tail, ps)
         case Fail => Fail
         case Done(operands, ts1, ps1) => Done(DigestAmong(operands), ts1, ps1))
      case DigestEquals =>
        (match ParseHashedParam(ts.tail, ps)
         case Fail => Fail
         case Done(p, ts1, ps1) => Done(SameDigest(p), ts1, ps1))
      case TextWithin =>
        (match Closed(ParseParam(ts.tail, ps), AsCidr)
         case Fail => Fail
         case Done(p, ts1, ps1) => Done(Within(p), ts1, ps1))
      case _ => ParseSimple(ts, ps)
  }

  /** Zero or more `AND condition`. */
  function ParseConditions(ts: Tokens, ps: Params): (r: Parsed<seq<Condition>>)
    ensures r.Done? ==> Length(r.tokens) <= Length(ts)
    decreases Length(ts)
  {
    if !At(And, ts) then Done([], ts, ps)
    else match ParseCondition(ts.tail, ps)
      case Fail => Fail
      case Done(c, ts1, ps1) =>
        match ParseConditions(ts1, ps1)
        case Fail => Fail
        case Done(rest, ts2, ps2) => Done([c] + rest, ts2, ps2)
  }

  function ParsePrimary(ts: Tokens, ps: Params): (r: Parsed<Query>)
    ensures r.Done? ==> Length(r.tokens) < Length(ts)
    decreases Length(ts), 0
  {
    if ts.End? then Fail
    else match ts.head
      case SelectPairsFrom =>
        (match Closed(ParseQuery(ts.tail, ps), CloseGroupedChild)
         case Fail => Fail
         case Done(q, ts1, ps1) => Done(Pairs(q), ts1, ps1))
      case SelectHostsFrom =>
        (match Closed(ParseQuery(ts.tail, ps), CloseChild)
         case Fail => Fail
         case Done(q, ts1, ps1) => Done(Hosts(q), ts1, ps1))
      case SelectFieldRows =>
        (match ParseParam(ts.tail, ps)
         case Fail => Fail
         case Done(path, ts1, ps1) =>
           match ParseConditions(ts1, ps1)
           case Fail => Fail
           case Done(cs, ts2, ps2) => Done(FieldRows(path, cs), ts2, ps2))
      case SelectCardsWithout =>
        (match Closed(ParseParam(ts.tail, ps), Close)
         case Fail => Fail
         case Done(path, ts1, ps1) => Done(CardsWithout(path), ts1, ps1))
      case _ => Fail
  }

  /** `INTERSECT primary` repeated, folded to the left. */
  function ParseIntersections(left: Query, ts: Tokens, ps: Params): (r: Parsed<Query>)
    ensures r.Done? ==> Length(r.tokens) <= Length(ts)
    decreases Length(ts), 1
  {
    if !At(Intersect, ts) then Done(left, ts, ps)
    else match ParsePrimary(ts.tail, ps)
      case Fail => Fail
      case Done(q, ts1, ps1) => ParseIntersections(Both(left, q), ts1, ps1)
  }

  function ParseTerm(ts: Tokens, ps: Params): (r: Parsed<Query>)
    ensures r.Done? ==> Length(r.tokens) < Length(ts)
    decreases Length(ts), 2
  {
    match ParsePrimary(ts, ps)
    case Fail => Fail
    case Done(q, ts1, ps1) => ParseIntersections(q, ts1, ps1)
  }

  /** `UNION term` repeated, folded to the left. */
  function ParseUnions(left: Query, ts: Tokens, ps: Params): (r: Parsed<Query>)
    ensures r.Done? ==> Length(r.tokens) <= Length(ts)
    decreases Length(ts), 3
  {
    if !At(Union, ts) then Done(left, ts, ps)
    else match ParseTerm(ts.tail, ps)
      case Fail => Fail
      case Done(q, ts1, ps1) => ParseUnions(Either(left, q), ts1, ps1)
  }

  function ParseQuery(ts: Tokens, ps: Params): (r: Parsed<Query>)
    ensures r.Done? ==> Length(r.tokens) < Length(ts)
    decreases Length(ts), 4
  {
    match ParseTerm(ts, ps)
    case Fail => Fail
    case Done(q, ts1, ps1) => ParseUnions(q, ts1, ps1)
  }

  /** A statement is a query that uses up its text and its parameters. */
  function ParseStatement(tokens: seq<Token>, params: seq<Param>): Option<Query> {
    match ParseQuery(Put(tokens, End), Put(params, End))
    case Fail => None
    case Done(q, ts, ps) => if ts.End? && ps.End? then Some(q) else None
  }

  // ---- Meaning ----

  /** A row of asset_card_search_fields; `None` is NULL. */
  datatype FieldRow = FieldRow(asset: string, entity: string, path: string,
                               text: Option<string>, number: Option<real>, boolean: Option<bool>)

  datatype Database = Database(cards: set<string>, fields: set<FieldRow>)

  /** The SQL value operators whose definition is left open. */
  datatype Operators = Operators(
    md5: string -> string,
    like: (string, string) -> bool,
    within: (string, string) -> bool)

  predicate Compares(op: Comparison, left: real, right: real) {
    match op
    case Equal => left == right
    case NotEqual => left != right
    case Greater => left > right
    case GreaterOrEqual => left >= right
    case Less => left < right
    case LessOrEqual => left <= right
  }

  /** A condition on NULL is never true. */
  predicate Meets(ops: Operators, row: FieldRow, c: Condition) {
    match c
    case Within(n) => row.text.Some? && n.Text? && ops.within(row.text.value, n.text)
    case Equals(p) => row.text.Some? && p == Text(row.text.value)
    case Differs(p) => row.text.Some? && p.Text? && p != Text(row.text.value)
    case Like(p) => row.text.Some? && p.Text? && ops.like(row.text.value, p.text)
    case In(operands) => row.text.Some? && Text(row.text.value) in operands
    case SameDigest(p) => row.text.Some? && p.Text? && ops.md5(row.text.value) == ops.md5(p.text)
    case DigestAmong(operands) =>
      row.text.Some? && exists p :: p in operands && p.Text? && ops.md5(row.text.value) == ops.md5(p.text)
    case NumberCompares(op, p) => row.number.Some? && p.Number? && Compares(op, row.number.value, p.number)
    case BooleanIs(p) => row.boolean.Some? && p == Boolean(row.boolean.value)
  }

  /** An asset with an entity path, or with NULL for a row about the whole host. */
  type Pair = (string, Option<string>)

  function Eval(ops: Operators, db: Database, q: Query): set<Pair> {
    match q
    case FieldRows(path, conditions) =>
      set row | row in db.fields && path == Text(row.path) && (forall c :: c in conditions ==> Meets(ops, row, c))
        :: (row.asset, Some(row.entity))
    case CardsWithout(path) =>
      set card | card in db.cards && !(exists row :: row in db.fields && row.asset == card && path == Text(row.path))
        :: (card, None)
    case Pairs(source) => Eval(ops, db, source)
    case Hosts(source) => set pair | pair in Eval(ops, db, source) :: (pair.0, None)
    case Both(left, right) => Eval(ops, db, left) * Eval(ops, db, right)
    case Either(left, right) => Eval(ops, db, left) + Eval(ops, db, right)
  }

  /** SELECT DISTINCT asset_id over the query's pairs. */
  function Assets(ops: Operators, db: Database, q: Query): set<string> {
    set pair | pair in Eval(ops, db, q) :: pair.0
  }
}
