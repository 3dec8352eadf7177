/**
 The search index of asset cards and its digest: one catalog row for each asset, field path and value type,
 from which the list of fields is read instead of from the raw rows.
 */
module FieldCatalog {
  import opened Wrappers
  import Sets
  import T = Text

  datatype Key = Key(path: string, valueType: string)

  /** A raw search row of one asset, as far as the digest reads it. */
  datatype Row = Row(path: string, name: string, valueType: string, text: Option<string>)

  datatype Entry = Entry(name: string, sample: Option<string>)

  type Digest = map<Key, Entry>

  function KeyOf(r: Row): Key {
    Key(r.path, r.valueType)
  }

  /** A condition on a field's path and name. */
  type Filter = (string, string) -> bool

  // ---- Aggregates ----

  ghost function Min(texts: set<string>): Option<string> {
    if texts == {} then None else Some(T.Least(texts))
  }

  function Names(rows: seq<Row>, key: Key): set<string> {
    set r | r in rows && KeyOf(r) == key :: r.name
  }

  function Samples(rows: seq<Row>, key: Key): set<string> {
    set r | r in rows && KeyOf(r) == key && r.text.Some? :: r.text.value
  }

  /** The digest of one asset's rows: the least name and the least non-null text of each key. */
  ghost predicate Digests(digest: Digest, rows: seq<Row>) {
    && (forall key :: key in digest <==> Names(rows, key) != {})
    && (forall key :: key in digest ==>
          Min(Names(rows, key)) == Some(digest[key].name) && Min(Samples(rows, key)) == digest[key].sample)
  }

  lemma MinIs(texts: set<string>, x: string)
    requires x in texts && forall t :: t in texts ==> T.Leq(x, t)
    ensures Min(texts) == Some(x)
  {
    T.LeastIs(texts, x);
  }

  predicate Less(a: string, b: string) {
    a != b && T.Leq(a, b)
  }

  lemma MinAdd(texts: set<string>, x: string)
    ensures Min(texts + {x}) == if texts == {} || Less(x, T.Least(texts)) then Some(x) else Some(T.Least(texts))
  {
    T.LeqTotal(x, x);
    if texts == {} {
      MinIs(texts + {x}, x);
    } else {
      var least := T.Least(texts);
      T.LeqTotal(x, least);
      if Less(x, least) {
        forall t | t in texts + {x}
          ensures T.Leq(x, t)
        {
          if t in texts {
            T.LeqTransitive(x, least, t);
          }
        }
        MinIs(texts + {x}, x);
      } else {
        MinIs(texts + {x}, least);
      }
    }
  }

  /** Every text of the second set has one in the first that is not above it. */
  ghost predicate Undercuts(xs: set<string>, ys: set<string>) {
    forall y :: y in ys ==> exists x :: x in xs && T.Leq(x, y)
  }

  lemma LeastUndercuts(xs: set<string>, ys: set<string>)
    requires Undercuts(xs, ys) && ys != {}
    ensures xs != {} && T.Leq(T.Least(xs), T.Least(ys))
  {
    var x :| x in xs && T.Leq(x, T.Least(ys));
    T.LeqTransitive(T.Least(xs), x, T.Least(ys));
  }

  lemma MinEqual(xs: set<string>, ys: set<string>)
    requires Undercuts(xs, ys) && Undercuts(ys, xs)
    ensures Min(xs) == Min(ys)
  {
    hide Undercuts;
    if ys != {} {
      LeastUndercuts(xs, ys);
    }
    if xs != {} {
      LeastUndercuts(ys, xs);
      T.LeqAntisymmetric(T.Least(xs), T.Least(ys));
    }
  }

  // ---- Listing fields ----

  /** One line of the field list. */
  datatype Summary = Summary(name: Option<string>, sample: Option<string>, assets: nat)

  type RawTable = map<string, seq<Row>>
  type CatalogTable = map<string, Digest>

  predicate RowPasses(r: Row, key: Key, filter: Filter) {
    KeyOf(r) == key && filter(key.path, r.name)
  }

  function RawAssets(raw: RawTable, key: Key, filter: Filter): set<string> {
    set a | a in raw && exists r :: r in raw[a] && RowPasses(r, key, filter)
  }

  function RawNames(raw: RawTable, key: Key, filter: Filter): set<string> {
    set a, r | a in raw && r in raw[a] && RowPasses(r, key, filter) :: r.name
  }

  function RawTexts(raw: RawTable, key: Key, filter: Filter): set<string> {
    set a, r | a in raw && r in raw[a] && RowPasses(r, key, filter) && r.text.Some? :: r.text.value
  }

  /** Aggregating the raw rows: MIN, MIN and COUNT(DISTINCT asset_id) of the rows that pass the filter. */
  ghost function RawSummary(raw: RawTable, key: Key, filter: Filter): Summary {
    Summary(Min(RawNames(raw, key, filter)), Min(RawTexts(raw, key, filter)), |RawAssets(raw, key, filter)|)
  }

  predicate EntryPasses(d: Digest, key: Key, filter: Filter) {
    key in d && filter(key.path, d[key].name)
  }

  function CatalogAssets(catalog: CatalogTable, key: Key, filter: Filter): set<string> {
    set a | a in catalog && EntryPasses(catalog[a], key, filter)
  }

  function KeptNames(catalog: CatalogTable, key: Key, filter: Filter): set<string> {
    set a | a in catalog && EntryPasses(catalog[a], key, filter) :: catalog[a][key].name
  }

  function KeptSamples(catalog: CatalogTable, key: Key, filter: Filter): set<string> {
    set a | a in catalog && EntryPasses(catalog[a], key, filter) && catalog[a][key].sample.Some?
      :: catalog[a][key].sample.value
  }

  /** Aggregating the catalog: MIN, MIN and COUNT(*). */
  ghost function CatalogSummary(catalog: CatalogTable, key: Key, filter: Filter): Summary {
    Summary(
      Min(KeptNames(catalog, key, filter)), Min(KeptSamples(catalog, key, filter)),
      |CatalogAssets(catalog, key, filter)|)
  }

  /** The filter treats all of an asset's names for a key alike. */
  ghost predicate Uniform(rows: seq<Row>, key: Key, filter: Filter) {
    forall n, n' :: n in Names(rows, key) && n' in Names(rows, key) ==> filter(key.path, n) == filter(key.path, n')
  }

  ghost predicate InStep(raw: RawTable, catalog: CatalogTable) {
    raw.Keys == catalog.Keys && forall a :: a in raw ==> Digests(catalog[a], raw[a])
  }

  lemma NamesHold(rows: seq<Row>, key: Key, r: Row)
    requires r in rows && KeyOf(r) == key
    ensures r.name in Names(rows, key) && (r.text.Some? ==> r.text.value in Samples(rows, key))
  {
  }

  /** With a uniform filter the digest passes exactly when some row does. */
  lemma PassTogether(d: Digest, rows: seq<Row>, key: Key, filter: Filter)
    requires Digests(d, rows) && Uniform(rows, key, filter)
    ensures EntryPasses(d, key, filter) <==> exists r :: r in rows && RowPasses(r, key, filter)
    ensures EntryPasses(d, key, filter) ==> forall r :: r in rows && KeyOf(r) == key ==> RowPasses(r, key, filter)
  {
    if key in d {
      assert d[key].name in Names(rows, key);
      forall r | r in rows && KeyOf(r) == key {
        NamesHold(rows, key, r);
      }
    } else {
      forall r | r in rows && KeyOf(r) == key
        ensures false
      {
        NamesHold(rows, key, r);
      }
    }
  }

  /** Every asset found by a row is found by its digest entry. */
  ghost predicate FoundByEntry(raw: RawTable, catalog: CatalogTable, key: Key, filter: Filter)
    requires InStep(raw, catalog)
  {
    forall a, r :: a in raw && r in raw[a] && RowPasses(r, key, filter) ==> EntryPasses(catalog[a], key, filter)
  }

  /** Every sample listed has a row that passes and is not above it. */
  ghost predicate SampleHasRow(raw: RawTable, catalog: CatalogTable, key: Key, filter: Filter)
    requires InStep(raw, catalog)
  {
    forall a :: a in raw && EntryPasses(catalog[a], key, filter) && catalog[a][key].sample.Some? ==>
      RowBelow(raw, key, filter, catalog[a][key].sample.value)
  }

  ghost predicate RowBelow(raw: RawTable, key: Key, filter: Filter, sample: string) {
    exists b, r :: b in raw && r in raw[b] && RowPasses(r, key, filter) && r.text.Some? && T.Leq(r.text.value, sample)
  }

  lemma EntryHasRow(d: Digest, rows: seq<Row>, key: Key, filter: Filter)
    requires Digests(d, rows) && EntryPasses(d, key, filter)
    ensures exists r :: r in rows && RowPasses(r, key, filter) && r.name == d[key].name
  {
    assert d[key].name in Names(rows, key);
  }

  /** The assets, the least name and the least sample agree when entries stand for the rows that pass. */
  lemma ListsAgree(raw: RawTable, catalog: CatalogTable, key: Key, filter: Filter)
    requires InStep(raw, catalog)
    requires FoundByEntry(raw, catalog, key, filter) && SampleHasRow(raw, catalog, key, filter)
    ensures CatalogSummary(catalog, key, filter) == RawSummary(raw, key, filter)
  {
    AssetsAgree(raw, catalog, key, filter);
    NamesAgree(raw, catalog, key, filter);
    SamplesAgree(raw, catalog, key, filter);
  }

  lemma AssetsAgree(raw: RawTable, catalog: CatalogTable, key: Key, filter: Filter)
    requires InStep(raw, catalog) && FoundByEntry(raw, catalog, key, filter)
    ensures CatalogAssets(catalog, key, filter) == RawAssets(raw, key, filter)
  {
    forall a | a in raw && EntryPasses(catalog[a], key, filter)
      ensures a in RawAssets(raw, key, filter)
    {
      EntryHasRow(catalog[a], raw[a], key, filter);
    }
  }

  lemma EntryIsLeast(d: Digest, rows: seq<Row>, r: Row)
    requires Digests(d, rows) && r in rows
    ensures var key := KeyOf(r);
      && key in d && T.Leq(d[key].name, r.name)
      && (r.text.Some? ==> d[key].sample.Some? && T.Leq(d[key].sample.value, r.text.value))
  {
    NamesHold(rows, KeyOf(r), r);
  }

  lemma NamesAgree(raw: RawTable, catalog: CatalogTable, key: Key, filter: Filter)
    requires InStep(raw, catalog) && FoundByEntry(raw, catalog, key, filter)
    ensures Min(KeptNames(catalog, key, filter)) == Min(RawNames(raw, key, filter))
  {
    hide Min;
    hide T.Leq;
    var names, kept := RawNames(raw, key, filter), KeptNames(catalog, key, filter);
    NamesUndercut(raw, catalog, key, filter);
    forall k | k in kept
      ensures exists n :: n in names && T.Leq(n, k)
    {
      var a :| a in catalog && EntryPasses(catalog[a], key, filter) && catalog[a][key].name == k;
      EntryHasRow(catalog[a], raw[a], key, filter);
      T.LeqTotal(k, k);
      assert k in names;
    }
    MinEqual(kept, names);
  }

  lemma NamesUndercut(raw: RawTable, catalog: CatalogTable, key: Key, filter: Filter)
    requires InStep(raw, catalog) && FoundByEntry(raw, catalog, key, filter)
    ensures Undercuts(KeptNames(catalog, key, filter), RawNames(raw, key, filter))
  {
    hide T.Leq;
    hide Digests;
    forall n | n in RawNames(raw, key, filter)
      ensures exists k :: k in KeptNames(catalog, key, filter) && T.Leq(k, n)
    {
      var a, r :| a in raw && r in raw[a] && RowPasses(r, key, filter) && r.name == n;
      EntryIsLeast(catalog[a], raw[a], r);
      assert catalog[a][key].name in KeptNames(catalog, key, filter);
    }
  }

  lemma SamplesAgree(raw: RawTable, catalog: CatalogTable, key: Key, filter: Filter)
    requires InStep(raw, catalog)
    requires FoundByEntry(raw, catalog, key, filter) && SampleHasRow(raw, catalog, key, filter)
    ensures Min(KeptSamples(catalog, key, filter)) == Min(RawTexts(raw, key, filter))
  {
    SamplesUndercutTexts(raw, catalog, key, filter);
    TextsUndercutSamples(raw, catalog, key, filter);
    MinEqual(KeptSamples(catalog, key, filter), RawTexts(raw, key, filter));
  }

  lemma SamplesUndercutTexts(raw: RawTable, catalog: CatalogTable, key: Key, filter: Filter)
    requires InStep(raw, catalog) && FoundByEntry(raw, catalog, key, filter)
    ensures Undercuts(KeptSamples(catalog, key, filter), RawTexts(raw, key, filter))
  {
    hide T.Leq;
    hide Digests;
    forall t | t in RawTexts(raw, key, filter)
      ensures exists k :: k in KeptSamples(catalog, key, filter) && T.Leq(k, t)
    {
      var a, r :| a in raw && r in raw[a] && RowPasses(r, key, filter) && r.text == Some(t);
      EntryIsLeast(catalog[a], raw[a], r);
      assert catalog[a][key].sample.value in KeptSamples(catalog, key, filter);
    }
  }

  lemma TextsUndercutSamples(raw: RawTable, catalog: CatalogTable, key: Key, filter: Filter)
    requires InStep(raw, catalog) && SampleHasRow(raw, catalog, key, filter)
    ensures Undercuts(RawTexts(raw, key, filter), KeptSamples(catalog, key, filter))
  {
    hide T.Leq;
    hide Digests;
    forall k | k in KeptSamples(catalog, key, filter)
      ensures exists t :: t in RawTexts(raw, key, filter) && T.Leq(t, k)
    {
      assert RowBelow(raw, key, filter, k);
      var b, r :| b in raw && r in raw[b] && RowPasses(r, key, filter) && r.text.Some? && T.Leq(r.text.value, k);
      assert r.text.value in RawTexts(raw, key, filter);
    }
  }

  /** With a filter that treats all names alike, the list read from the catalog is the one the raw rows would give. */
  lemma CatalogListsLikeRaw(raw: RawTable, catalog: CatalogTable, key: Key, filter: Filter)
    requires InStep(raw, catalog) && forall a :: a in raw ==> Uniform(raw[a], key, filter)
    ensures CatalogSummary(catalog, key, filter) == RawSummary(raw, key, filter)
  {
    forall a | a in raw {
      PassTogether(catalog[a], raw[a], key, filter);
    }
    forall a | a in raw && EntryPasses(catalog[a], key, filter) && catalog[a][key].sample.Some?
      ensures RowBelow(raw, key, filter, catalog[a][key].sample.value)
    {
      var sample := catalog[a][key].sample.value;
      T.LeqTotal(sample, sample);
      assert sample in Samples(raw[a], key);
    }
    ListsAgree(raw, catalog, key, filter);
  }

  // ---- When the filter makes a difference ----

  /** The whole list, without a search text. */
  lemma UnfilteredListsAgree(raw: RawTable, catalog: CatalogTable, key: Key)
    requires InStep(raw, catalog)
    ensures CatalogSummary(catalog, key, (_, _) => true) == RawSummary(raw, key, (_, _) => true)
  {
    CatalogListsLikeRaw(raw, catalog, key, (_, _) => true);
  }

  /** Every asset uses one name for each field path and type. */
  ghost predicate OneName(raw: RawTable) {
    forall a, key, n, n' :: a in raw && n in Names(raw[a], key) && n' in Names(raw[a], key) ==> n == n'
  }

  lemma FilteredListsAgree(raw: RawTable, catalog: CatalogTable, key: Key, filter: Filter)
    requires InStep(raw, catalog) && OneName(raw)
    ensures CatalogSummary(catalog, key, filter) == RawSummary(raw, key, filter)
  {
    CatalogListsLikeRaw(raw, catalog, key, filter);
  }

  // ---- Searching ----

  /** What a search text is looked for as. */
  function Needle(q: string): string {
    T.Lower(T.Trim(q))
  }

  /** The needle is part of the path or of the name, whatever the case. */
  predicate Finds(needle: string, path: string, name: string) {
    T.Contains(T.Lower(path), needle) || T.Contains(T.Lower(name), needle)
  }

  function Search(q: string): Filter {
    (path, name) => Finds(Needle(q), path, name)
  }

  /** The most demanding search text that a name can answer. */
  function Whole(name: string): string {
    T.Trim(T.Lower(name))
  }

  lemma WholeIsNeedle(name: string)
    ensures Needle(Whole(name)) == Whole(name) && T.Contains(T.Lower(name), Whole(name))
  {
    T.TrimIs(T.Lower(name));
    T.TrimmedStays(Whole(name));
    T.PartIsLower(T.Lower(name), Whole(name));
  }

  /** A name that a search finds contains the search text within its whole text. */
  lemma NeedleWithin(q: string, name: string)
    requires T.Contains(T.Lower(name), Needle(q))
    ensures T.Contains(Whole(name), Needle(q))
  {
    T.TrimIs(q);
    T.LowerKeepsTrimmed(T.Trim(q));
    T.TrimKeeps(T.Lower(name), Needle(q));
  }

  /** What the whole text of one name finds, every search finds that the name answers. */
  lemma FindsLess(q: string, name: string, path: string, other: string)
    requires T.Contains(T.Lower(name), Needle(q)) && Finds(Whole(name), path, other)
    ensures Finds(Needle(q), path, other)
  {
    NeedleWithin(q, name);
    if T.Contains(T.Lower(path), Whole(name)) {
      T.ContainsTransitive(T.Lower(path), Whole(name), Needle(q));
    } else {
      T.ContainsTransitive(T.Lower(other), Whole(name), Needle(q));
    }
  }

  /** Every name an asset uses for the key is, as a whole, part of the path or of the name kept. */
  ghost predicate NamesCovered(raw: RawTable, catalog: CatalogTable, key: Key)
    requires InStep(raw, catalog)
  {
    forall a, n :: a in raw && n in Names(raw[a], key) ==>
      key in catalog[a] && Finds(Whole(n), key.path, catalog[a][key].name)
  }

  /** Every sample kept is matched by a row that is found by the whole name kept beside it. */
  ghost predicate SamplesCovered(raw: RawTable, catalog: CatalogTable, key: Key)
    requires InStep(raw, catalog)
  {
    forall a :: a in raw && key in catalog[a] && catalog[a][key].sample.Some? ==>
      RowBelow(raw, key, Search(Whole(catalog[a][key].name)), catalog[a][key].sample.value)
  }

  lemma CoveredNamesAreFound(raw: RawTable, catalog: CatalogTable, key: Key, q: string)
    requires InStep(raw, catalog) && NamesCovered(raw, catalog, key)
    ensures FoundByEntry(raw, catalog, key, Search(q))
  {
    forall a, r | a in raw && r in raw[a] && RowPasses(r, key, Search(q))
      ensures EntryPasses(catalog[a], key, Search(q))
    {
      NamesHold(raw[a], key, r);
      if T.Contains(T.Lower(r.name), Needle(q)) {
        FindsLess(q, r.name, key.path, catalog[a][key].name);
      }
    }
  }

  lemma CoveredSamplesHaveRows(raw: RawTable, catalog: CatalogTable, key: Key, q: string)
    requires InStep(raw, catalog) && SamplesCovered(raw, catalog, key)
    ensures SampleHasRow(raw, catalog, key, Search(q))
  {
    forall a | a in raw && EntryPasses(catalog[a], key, Search(q)) && catalog[a][key].sample.Some?
      ensures RowBelow(raw, key, Search(q), catalog[a][key].sample.value)
    {
      var kept, sample := catalog[a][key].name, catalog[a][key].sample.value;
      assert RowBelow(raw, key, Search(Whole(kept)), sample);
      if T.Contains(T.Lower(kept), Needle(q)) {
        var b, r :| b in raw && r in raw[b] && RowPasses(r, key, Search(Whole(kept))) && r.text.Some?
          && T.Leq(r.text.value, sample);
        WholeIsNeedle(kept);
        FindsLess(q, kept, key.path, r.name);
        assert RowPasses(r, key, Search(q));
      } else {
        T.LeqTotal(sample, sample);
        assert sample in Samples(raw[a], key);
        var r :| r in raw[a] && KeyOf(r) == key && r.text == Some(sample);
        assert RowPasses(r, key, Search(q));
      }
    }
  }

  /** A name that is not covered: searching for it finds an asset in the rows and misses it in the catalog. */
  lemma AmbiguousNameIsMissed(raw: RawTable, catalog: CatalogTable, key: Key) returns (q: string)
    requires InStep(raw, catalog) && !NamesCovered(raw, catalog, key)
    ensures CatalogAssets(catalog, key, Search(q)) < RawAssets(raw, key, Search(q))
    ensures CatalogSummary(catalog, key, Search(q)) != RawSummary(raw, key, Search(q))
  {
    var a, n :| a in raw && n in Names(raw[a], key)
      && !(key in catalog[a] && Finds(Whole(n), key.path, catalog[a][key].name));
    q := Whole(n);
    WholeIsNeedle(n);
    var r :| r in raw[a] && KeyOf(r) == key && r.name == n;
    var filter := Search(q);
    assert RowPasses(r, key, filter);
    forall b | b in CatalogAssets(catalog, key, filter)
      ensures b in RawAssets(raw, key, filter)
    {
      EntryHasRow(catalog[b], raw[b], key, filter);
    }
    assert a in RawAssets(raw, key, filter) && a !in CatalogAssets(catalog, key, filter);
    Sets.ProperSubsetSize(CatalogAssets(catalog, key, filter), RawAssets(raw, key, filter), a);
  }

  /** A sample that is not covered: searching for the name beside it lists the sample, which no row found has. */
  lemma UncoveredSampleIsListed(raw: RawTable, catalog: CatalogTable, key: Key) returns (q: string)
    requires InStep(raw, catalog) && !SamplesCovered(raw, catalog, key)
    ensures CatalogSummary(catalog, key, Search(q)).sample != RawSummary(raw, key, Search(q)).sample
  {
    var a :| a in raw && key in catalog[a] && catalog[a][key].sample.Some?
      && !RowBelow(raw, key, Search(Whole(catalog[a][key].name)), catalog[a][key].sample.value);
    var kept, sample := catalog[a][key].name, catalog[a][key].sample.value;
    q := Whole(kept);
    var filter := Search(q);
    WholeIsNeedle(kept);
    assert EntryPasses(catalog[a], key, filter);
    var samples, texts := KeptSamples(catalog, key, filter), RawTexts(raw, key, filter);
    assert sample in samples && T.Leq(T.Least(samples), sample);
    assert texts != {} ==> T.Least(texts) in texts;
  }

  /** Exactly when every search lists the field alike from the catalog and from the raw rows. */
  lemma SearchesAgreeExactly(raw: RawTable, catalog: CatalogTable, key: Key)
    requires InStep(raw, catalog)
    ensures (forall q :: CatalogSummary(catalog, key, Search(q)) == RawSummary(raw, key, Search(q)))
       <==> NamesCovered(raw, catalog, key) && SamplesCovered(raw, catalog, key)
    ensures (forall q :: CatalogAssets(catalog, key, Search(q)) == RawAssets(raw, key, Search(q)))
       <==> NamesCovered(raw, catalog, key)
  {
    if NamesCovered(raw, catalog, key) {
      forall q
        ensures CatalogAssets(catalog, key, Search(q)) == RawAssets(raw, key, Search(q))
        ensures SamplesCovered(raw, catalog, key) ==>
          CatalogSummary(catalog, key, Search(q)) == RawSummary(raw, key, Search(q))
      {
        CoveredNamesAreFound(raw, catalog, key, q);
        AssetsAgree(raw, catalog, key, Search(q));
        if SamplesCovered(raw, catalog, key) {
          CoveredSamplesHaveRows(raw, catalog, key, q);
          ListsAgree(raw, catalog, key, Search(q));
        }
      }
      if !SamplesCovered(raw, catalog, key) {
        var q := UncoveredSampleIsListed(raw, catalog, key);
      }
    } else {
      var q := AmbiguousNameIsMissed(raw, catalog, key);
    }
  }

  /** Names that are part of their paths, as the keys of a card are, never make a difference. */
  lemma NamesInPathsAgree(raw: RawTable, catalog: CatalogTable, key: Key, q: string)
    requires InStep(raw, catalog)
    requires forall a, n :: a in raw && n in Names(raw[a], key) ==> T.Contains(T.Lower(key.path), Whole(n))
    ensures CatalogSummary(catalog, key, Search(q)) == RawSummary(raw, key, Search(q))
  {
    forall a, n | a in raw && n in Names(raw[a], key)
      ensures Search(q)(key.path, n) == T.Contains(T.Lower(key.path), Needle(q))
    {
      if T.Contains(T.Lower(n), Needle(q)) {
        NeedleWithin(q, n);
        T.ContainsTransitive(T.Lower(key.path), Whole(n), Needle(q));
      }
    }
    CatalogListsLikeRaw(raw, catalog, key, Search(q));
  }

  // ---- The tables ----

  class Index {
    var raw: RawTable
    var catalog: CatalogTable

    ghost predicate Valid()
      reads this
    {
      InStep(raw, catalog)
    }

    constructor ()
      ensures Valid() && raw == map[]
    {
      raw, catalog := map[], map[];
    }

    /** Replaces the rows of one asset, and its digest with them. */
    method Replace(asset: string, rows: seq<Row>)
      requires Valid()
      modifies this
      ensures Valid() && raw == old(raw)[asset := rows]
    {
      raw := raw[asset := rows];
      var digest := BuildDigest(rows);
      catalog := catalog[asset := digest];
    }

    /** Deleting a card removes both (ON DELETE CASCADE). */
    method Delete(asset: string)
      requires Valid()
      modifies this
      ensures Valid() && raw == old(raw) - {asset}
    {
      raw, catalog := raw - {asset}, catalog - {asset};
    }
  }

  method BuildDigest(rows: seq<Row>) returns (digest: Digest)
    ensures Digests(digest, rows)
  {
    digest := map[];
    for i := 0 to |rows|
      invariant Digests(digest, rows[..i])
    {
      var r := rows[i];
      var key := KeyOf(r);
      ghost var before := digest;
      var entry := if key in digest then digest[key] else Entry(r.name, r.text);
      if Less(r.name, entry.name) {
        entry := entry.(name := r.name);
      }
      if r.text.Some? && (entry.sample.None? || Less(r.text.value, entry.sample.value)) {
        entry := entry.(sample := r.text);
      }
      digest := digest[key := entry];
      DigestStep(before, rows[..i], r, entry);
      assert rows[..i + 1] == rows[..i] + [r];
    }
    assert rows[..|rows|] == rows;
  }

  /** One more row. */
  lemma DigestStep(digest: Digest, rows: seq<Row>, r: Row, entry: Entry)
    requires Digests(digest, rows)
    requires var key := KeyOf(r);
      var start := if key in digest then digest[key] else Entry(r.name, r.text);
      && entry.name == (if Less(r.name, start.name) then r.name else start.name)
      && entry.sample == (if r.text.Some? && (start.sample.None? || Less(r.text.value, start.sample.value))
          then r.text else start.sample)
    ensures Digests(digest[KeyOf(r) := entry], rows + [r])
  {
    hide Names;
    hide Samples;
    hide Min;
    hide T.Leq;
    var key := KeyOf(r);
    NoMin();
    RowAdds(rows, r);
    if key !in digest {
      NoNamesNoSamples(rows, key);
    }
    MinAdd(Names(rows, key), r.name);
    if r.text.Some? {
      MinAdd(Samples(rows, key), r.text.value);
    } else {
      assert Samples(rows, key) + {} == Samples(rows, key);
    }
    assert Names(rows, key) + {r.name} != {};
  }

  lemma NoMin()
    ensures Min({}) == None && forall texts :: texts != {} ==> Min(texts) == Some(T.Least(texts))
  {
  }

  lemma RowAdds(rows: seq<Row>, r: Row)
    ensures forall k :: k != KeyOf(r) ==>
      Names(rows + [r], k) == Names(rows, k) && Samples(rows + [r], k) == Samples(rows, k)
    ensures Names(rows + [r], KeyOf(r)) == Names(rows, KeyOf(r)) + {r.name}
    ensures Samples(rows + [r], KeyOf(r)) == Samples(rows, KeyOf(r)) + if r.text.Some? then {r.text.value} else {}
  {
  }

  lemma NoNamesNoSamples(rows: seq<Row>, key: Key)
    requires Names(rows, key) == {}
    ensures Samples(rows, key) == {}
  {
    forall r | r in rows && KeyOf(r) == key
      ensures false
    {
      NamesHold(rows, key, r);
    }
  }
}
