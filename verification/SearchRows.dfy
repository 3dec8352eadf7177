/**
 The rows that a card gives the search index, as far as the field catalog reads them: the leaves of its documents,
 each under the path of keys that leads to it.
 */
module SearchRows {
  import opened Wrappers
  import opened FieldCatalog
  import opened JsonValues
  import T = Text

  // ---- The leaves of one document ----

  const MAX_DEPTH: nat := 8

  const HIDDEN: set<string> := {"raw", "rawcard", "rawrecord", "rawdetail", "rawvalue", "objectid", "type"}

  function Joined(key: string): string {
    if key == "" then "" else (if key[0] == '_' || key[0] == '-' then "" else [key[0]]) + Joined(key[1..])
  }

  predicate IsHidden(key: string) {
    var k := T.Lower(Joined(key));
    k in HIDDEN || "raw" <= k
  }

  function NestedFields(fields: Fields): Fields {
    if Get(fields, "data").Object? then Get(fields, "data").fields else fields
  }

  /** The rows below a value; `show` gives the text of a number. */
  function LeafRows(show: int -> string, v: Json, path: string, name: string, depth: nat): seq<Row>
    decreases MAX_DEPTH + 1 - depth, 0
  {
    if depth > MAX_DEPTH then []
    else
      match v
      case Null => []
      case Object(fields) =>
        if Get(fields, "hasItems").Bool? then [BoolRow(Get(fields, "hasItems").flag, path, name)]
        else KeyRows(show, NestedFields(fields), path, depth + 1)
      case List(items) => ItemRows(show, items, path, name, depth + 1)
      case Bool(flag) => [BoolRow(flag, path, name)]
      case Number(value) => [Row(path, name, "number", Some(show(value)))]
      case Str(text) => if T.Trim(text) == "" then [] else [Row(path, name, "text", Some(T.Trim(text)))]
  }

  function BoolRow(flag: bool, path: string, name: string): Row {
    Row(path, name, "boolean", Some(if flag then "true" else "false"))
  }

  function KeyRows(show: int -> string, fields: Fields, path: string, depth: nat): seq<Row>
    decreases MAX_DEPTH + 1 - depth, |fields| + 1
  {
    if fields == [] || depth > MAX_DEPTH then []
    else
      var key := fields[0].0;
      (if IsHidden(key) then []
       else LeafRows(show, fields[0].1, if path == "" then key else path + "." + key, key, depth))
      + KeyRows(show, fields[1..], path, depth)
  }

  function ItemRows(show: int -> string, items: seq<Json>, path: string, name: string, depth: nat): seq<Row>
    decreases MAX_DEPTH + 1 - depth, |items| + 1
  {
    if items == [] || depth > MAX_DEPTH then []
    else LeafRows(show, items[0], path, name, depth) + ItemRows(show, items[1..], path, name, depth)
  }

  // ---- A whole card ----

  datatype Node = Node(path: string, data: Fields)

  datatype Collection = Collection(path: string, name: Option<string>, items: seq<Json>)

  datatype Card = Card(summary: Fields, root: Fields, nodes: seq<Node>, collections: seq<Collection>)

  /** The last piece of a path, or the whole path when that is empty. */
  function LeafName(path: string): string {
    var leaf := StripBrackets(LastPiece(path));
    if leaf == "" then path else leaf
  }

  function LastPiece(path: string): string {
    if path == "" || path[|path| - 1] in {'.', '['} then ""
    else LastPiece(path[..|path| - 1]) + [path[|path| - 1]]
  }

  function StripBrackets(s: string): string {
    if s != "" && s[|s| - 1] == ']' then StripBrackets(s[..|s| - 1]) else s
  }

  function NameOf(c: Collection): string {
    if c.name.Some? && T.Trim(c.name.value) != "" then T.Trim(c.name.value) else LeafName(T.Trim(c.path))
  }

  function Without(fields: Fields, keys: set<string>): Fields {
    if fields == [] then []
    else (if fields[0].0 in keys then [] else [fields[0]]) + Without(fields[1..], keys)
  }

  function HasKey(fields: Fields, key: string): bool {
    exists i :: 0 <= i < |fields| && fields[i].0 == key
  }

  /** What an item contributes: its data, else its value, else its own fields; an item that is no object is a value. */
  function ItemValue(item: Json): Json {
    if !item.Object? then item
    else if Get(item.fields, "data").Object? then Get(item.fields, "data")
    else if HasKey(item.fields, "value") then Get(item.fields, "value")
    else Object(Without(item.fields, {"path", "node"}))
  }

  function NodesRows(show: int -> string, nodes: seq<Node>): seq<Row> {
    if nodes == [] then []
    else
      var path := T.Trim(nodes[0].path);
      (if path == "" then [] else LeafRows(show, Object(nodes[0].data), path, LeafName(path), 0))
      + NodesRows(show, nodes[1..])
  }

  function CollectionRows(show: int -> string, c: Collection, items: seq<Json>): seq<Row> {
    if items == [] then []
    else LeafRows(show, ItemValue(items[0]), T.Trim(c.path), NameOf(c), 0) + CollectionRows(show, c, items[1..])
  }

  function CollectionsRows(show: int -> string, cs: seq<Collection>): seq<Row> {
    if cs == [] then []
    else
      (if T.Trim(cs[0].path) == "" then [] else CollectionRows(show, cs[0], cs[0].items))
      + CollectionsRows(show, cs[1..])
  }

  function CardRows(show: int -> string, card: Card): seq<Row> {
    LeafRows(show, Object(card.summary), "asset", "asset", 0) + LeafRows(show, Object(card.root), "asset", "asset", 0)
    + NodesRows(show, card.nodes) + CollectionsRows(show, card.collections)
  }

  // ---- How rows are named ----

  /** The name is part of the path. */
  predicate NamedByPath(r: Row) {
    T.Contains(r.path, r.name)
  }

  lemma ChildNamed(path: string, key: string)
    ensures T.Contains(if path == "" then key else path + "." + key, key)
  {
    var child := if path == "" then key else path + "." + key;
    assert key <= child[|child| - |key|..];
  }

  /** A leaf is named by its key, which its path ends with, or by the name given to its document. */
  lemma {:induction false} LeavesNamed(show: int -> string, v: Json, path: string, name: string, depth: nat, r: Row)
    requires r in LeafRows(show, v, path, name, depth)
    ensures NamedByPath(r) || (r.path == path && r.name == name)
    decreases MAX_DEPTH + 1 - depth, 0
  {
    match v
    case Object(fields) =>
      if !Get(fields, "hasItems").Bool? {
        KeysNamed(show, NestedFields(fields), path, depth + 1, r);
      }
    case List(items) => ItemsNamed(show, items, path, name, depth + 1, r);
    case _ =>
  }

  lemma {:induction false} KeysNamed(show: int -> string, fields: Fields, path: string, depth: nat, r: Row)
    requires r in KeyRows(show, fields, path, depth)
    ensures NamedByPath(r)
    decreases MAX_DEPTH + 1 - depth, |fields| + 1
  {
    var key := fields[0].0;
    var child := if path == "" then key else path + "." + key;
    if r in KeyRows(show, fields[1..], path, depth) {
      KeysNamed(show, fields[1..], path, depth, r);
    } else {
      LeavesNamed(show, fields[0].1, child, key, depth, r);
      ChildNamed(path, key);
    }
  }

  lemma {:induction false} ItemsNamed(
    show: int -> string, items: seq<Json>, path: string, name: string, depth: nat, r: Row)
    requires r in ItemRows(show, items, path, name, depth)
    ensures NamedByPath(r) || (r.path == path && r.name == name)
    decreases MAX_DEPTH + 1 - depth, |items| + 1
  {
    if r in ItemRows(show, items[1..], path, name, depth) {
      ItemsNamed(show, items[1..], path, name, depth, r);
    } else {
      LeavesNamed(show, items[0], path, name, depth, r);
    }
  }

  lemma {:induction false} LastPieceIsSuffix(path: string)
    ensures |LastPiece(path)| <= |path| && LastPiece(path) == path[|path| - |LastPiece(path)|..]
  {
    if path != "" && path[|path| - 1] !in {'.', '['} {
      LastPieceIsSuffix(path[..|path| - 1]);
    }
  }

  lemma {:induction false} StripBracketsIsPrefix(s: string)
    ensures StripBrackets(s) <= s
  {
    if s != "" && s[|s| - 1] == ']' {
      StripBracketsIsPrefix(s[..|s| - 1]);
    }
  }

  lemma LeafNameInPath(path: string)
    ensures T.Contains(path, LeafName(path))
  {
    LastPieceIsSuffix(path);
    StripBracketsIsPrefix(LastPiece(path));
    assert path <= path[0..];
    assert StripBrackets(LastPiece(path)) <= path[|path| - |LastPiece(path)|..];
  }

  /** The collection names rows of its path itself, and its own name is not part of the path. */
  predicate NamesRow(c: Collection, r: Row) {
    r.path == T.Trim(c.path) && c.name.Some? && r.name == T.Trim(c.name.value)
  }

  /** Only the name of a collection can be no part of the path it names. */
  lemma CardRowsNamed(show: int -> string, card: Card, r: Row)
    requires r in CardRows(show, card)
    ensures NamedByPath(r) || exists c :: c in card.collections && NamesRow(c, r)
  {
    assert "asset" <= "asset"[0..];
    assert T.Contains("asset", "asset");
    if r in LeafRows(show, Object(card.summary), "asset", "asset", 0) {
      LeavesNamed(show, Object(card.summary), "asset", "asset", 0, r);
    } else if r in LeafRows(show, Object(card.root), "asset", "asset", 0) {
      LeavesNamed(show, Object(card.root), "asset", "asset", 0, r);
    } else if r in NodesRows(show, card.nodes) {
      NodesNamed(show, card.nodes, r);
    } else {
      CollectionsNamed(show, card.collections, r);
    }
  }

  lemma {:induction false} NodesNamed(show: int -> string, nodes: seq<Node>, r: Row)
    requires r in NodesRows(show, nodes)
    ensures NamedByPath(r)
  {
    var path := T.Trim(nodes[0].path);
    if r in NodesRows(show, nodes[1..]) {
      NodesNamed(show, nodes[1..], r);
    } else {
      LeavesNamed(show, Object(nodes[0].data), path, LeafName(path), 0, r);
      LeafNameInPath(path);
    }
  }

  lemma {:induction false} CollectionsNamed(show: int -> string, cs: seq<Collection>, r: Row)
    requires r in CollectionsRows(show, cs)
    ensures NamedByPath(r) || exists c :: c in cs && NamesRow(c, r)
  {
    if r in CollectionsRows(show, cs[1..]) {
      CollectionsNamed(show, cs[1..], r);
    } else {
      ItemsOfCollectionNamed(show, cs[0], cs[0].items, r);
      assert cs[0] in cs;
    }
  }

  lemma {:induction false} ItemsOfCollectionNamed(show: int -> string, c: Collection, items: seq<Json>, r: Row)
    requires r in CollectionRows(show, c, items)
    ensures NamedByPath(r) || NamesRow(c, r)
  {
    if r in CollectionRows(show, c, items[1..]) {
      ItemsOfCollectionNamed(show, c, items[1..], r);
    } else {
      LeavesNamed(show, ItemValue(items[0]), T.Trim(c.path), NameOf(c), 0, r);
      LeafNameInPath(T.Trim(c.path));
    }
  }

  // ---- Searching the fields of cards ----

  type Cards = map<string, Card>

  function TableOf(show: int -> string, cards: Cards): RawTable {
    map a | a in cards :: CardRows(show, cards[a])
  }

  /** Collections that have a name have it in their path, whatever the case and the blanks around. */
  predicate CollectionsNamedByPath(cards: Cards) {
    forall a, c :: a in cards && c in cards[a].collections && c.name.Some? ==>
      T.Contains(T.Lower(T.Trim(c.path)), Whole(T.Trim(c.name.value)))
  }

  /** For such cards every search lists every field from the catalog as from the raw rows. */
  lemma CardsListAlike(show: int -> string, cards: Cards, catalog: CatalogTable, key: Key, q: string)
    requires InStep(TableOf(show, cards), catalog) && CollectionsNamedByPath(cards)
    ensures CatalogSummary(catalog, key, Search(q)) == RawSummary(TableOf(show, cards), key, Search(q))
  {
    hide CardRows;
    hide T.Contains;
    hide InStep;
    hide Search;
    var raw := TableOf(show, cards);
    forall a, n | a in raw && n in Names(raw[a], key)
      ensures T.Contains(T.Lower(key.path), Whole(n))
    {
      var r :| r in raw[a] && KeyOf(r) == key && r.name == n;
      CardRowsNamed(show, cards[a], r);
      if NamedByPath(r) {
        T.LowerContains(r.path, r.name);
        WholeIsNeedle(r.name);
        T.ContainsTransitive(T.Lower(r.path), T.Lower(r.name), Whole(r.name));
      }
    }
    NamesInPathsAgree(raw, catalog, key, q);
  }

  /** Two collections of texts at one path under two names. */
  function TwoNames(): Card {
    Card([], [], [],
      [Collection("asset.tags", Some("alpha"), [Str("x")]), Collection("asset.tags", Some("beta"), [Str("y")])])
  }

  lemma TwoNamesRows(show: int -> string)
    ensures CardRows(show, TwoNames()) == [
      Row("asset.tags", "alpha", "text", Some("x")), Row("asset.tags", "beta", "text", Some("y"))]
  {
    hide LeafRows;
    hide CollectionRows;
    hide T.Trim;
    var cs := TwoNames().collections;
    T.TrimmedStays("asset.tags");
    OneTextRow(show, cs[0], "alpha", "x");
    OneTextRow(show, cs[1], "beta", "y");
    assert cs[1..] == [cs[1]] && cs[1..][1..] == [];
    NoKeysNoRows(show);
  }

  lemma NoKeysNoRows(show: int -> string)
    ensures LeafRows(show, Object([]), "asset", "asset", 0) == []
  {
  }

  lemma OneTextRow(show: int -> string, c: Collection, name: string, text: string)
    requires c.name == Some(name) && T.Trimmed(name) && T.Trimmed(text) && name != "" && text != ""
    ensures CollectionRows(show, c, [Str(text)]) == [Row(T.Trim(c.path), name, "text", Some(text))]
  {
    T.TrimmedStays(name);
    T.TrimmedStays(text);
    hide T.Trim;
    assert [Str(text)][1..] == [];
  }

  const TAGS: Key := Key("asset.tags", "text")

  lemma FirstNameIsKept(d: Digest, rows: seq<Row>)
    requires Digests(d, rows)
    requires rows == [Row("asset.tags", "alpha", "text", Some("x")), Row("asset.tags", "beta", "text", Some("y"))]
    ensures "beta" in Names(rows, TAGS) && TAGS in d && d[TAGS].name == "alpha"
  {
    assert rows[0] in rows && rows[1] in rows;
    assert "alpha" in Names(rows, TAGS) && "beta" in Names(rows, TAGS);
    assert Names(rows, TAGS) == {"alpha", "beta"};
    T.LeqTotal("alpha", "alpha");
    MinIs({"alpha", "beta"}, "alpha");
  }

  lemma SecondNameIsNotFound()
    ensures !Finds(Whole("beta"), "asset.tags", "alpha")
  {
    T.TrimmedStays("beta");
    assert T.Lower("beta") == "beta" && T.Lower("alpha") == "alpha" && T.Lower("asset.tags") == "asset.tags";
    NoPart("asset.tags", "beta", 'b');
    NoPart("alpha", "beta", 'b');
  }

  lemma NoPart(text: string, part: string, c: char)
    requires c in part && c !in text
    ensures !T.Contains(text, part)
  {
  }

  /** The second name is found in the rows only. */
  lemma SecondNameIsMissed(show: int -> string, cards: Cards, catalog: CatalogTable)
    requires cards == map["host" := TwoNames()] && InStep(TableOf(show, cards), catalog)
    ensures !NamesCovered(TableOf(show, cards), catalog, TAGS)
  {
    hide Finds;
    hide Digests;
    hide Names;
    TwoNamesRows(show);
    var raw := TableOf(show, cards);
    FirstNameIsKept(catalog["host"], raw["host"]);
    SecondNameIsNotFound();
  }
}
