/**
 The passport tables and the two operations that keep links and catalog in step: relinking, and the upsert
 of a refreshed catalog.
 */
module PassportStore {
  import opened Wrappers
  import T = Text
  import opened PassportMatching
  import opened PassportLinks
  import opened PassportScopes
  import opened PassportPlan

  // ---- The steps of an upsert ----

  /** One content for each id; the last one given wins, and rows without an id are skipped. */
  function Latest(incoming: seq<(Option<string>, Content)>): map<string, Content> {
    if incoming == [] then map[]
    else
      var last := incoming[|incoming| - 1];
      var before := Latest(incoming[..|incoming| - 1]);
      if last.0.None? then before else before[last.0.value := last.1]
  }

  function SavedRow(cat: Catalog, id: string, content: Content, now: string): Passport {
    if id in cat then cat[id].(content := content) else Passport(content, None, None, now)
  }

  /** INSERT ... ON CONFLICT DO UPDATE: the loaded detail and first_seen of a known passport stay. */
  function Saved(cat: Catalog, latest: map<string, Content>, now: string): Catalog {
    map id | id in cat.Keys + latest.Keys :: if id in latest then SavedRow(cat, id, latest[id], now) else cat[id]
  }

  predicate Changed(cat: Catalog, id: string, content: Content) {
    id !in cat || cat[id].content != content
  }

  function ChangedIds(cat: Catalog, latest: map<string, Content>): set<string> {
    set id | id in latest && Changed(cat, id, latest[id])
  }

  /** How many incoming rows have no id. */
  function Blank(incoming: seq<(Option<string>, Content)>): nat {
    if incoming == [] then 0
    else Blank(incoming[..|incoming| - 1]) + if incoming[|incoming| - 1].0.None? then 1 else 0
  }

  function Replaced(plan: map<string, string>, id: string): set<string> {
    set oldId | oldId in plan && plan[oldId] == id
  }

  /** More recently loaded first, never loaded last. */
  predicate Newer(a: Option<string>, b: Option<string>) {
    b.None? || (a.Some? && T.Leq(b.value, a.value))
  }

  predicate Freshest(o: Passport, olds: set<Passport>) {
    o.detail.Some? && forall p :: p in olds && p.detail.Some? ==> Newer(o.detailUpdatedAt, p.detailUpdatedAt)
  }

  /** The detail and first_seen of a passport after absorbing older ones. */
  ghost predicate Absorbs(before: Passport, olds: set<Passport>, after: Passport) {
    && after.content == before.content
    && (after.firstSeen == before.firstSeen || exists o :: o in olds && after.firstSeen == o.firstSeen)
    && T.Leq(after.firstSeen, before.firstSeen)
    && (forall o :: o in olds ==> T.Leq(after.firstSeen, o.firstSeen))
    && (if before.detail.Some? then after.detail == before.detail && after.detailUpdatedAt == before.detailUpdatedAt
        else
          && after.detailUpdatedAt == None
          && (after.detail.None? ==> forall o :: o in olds ==> o.detail.None?)
          && (after.detail.Some? ==> exists o :: o in olds && Freshest(o, olds) && o.detail == after.detail))
  }

  function RowsOf(cat: Catalog, ids: set<string>): set<Passport> {
    set id | id in ids && id in cat :: cat[id]
  }

  ghost predicate Merged(cat: Catalog, plan: map<string, string>, targets: set<string>, cat': Catalog) {
    && cat'.Keys == cat.Keys
    && (forall id :: id in cat && id !in targets ==> cat'[id] == cat[id])
    && (forall id :: id in cat && id in targets ==> Absorbs(cat[id], RowsOf(cat, Replaced(plan, id)), cat'[id]))
  }

  function Redirected(links: Links, plan: map<string, string>): Links {
    map id | id in links ::
      if links[id].passport in plan then Link(plan[links[id].passport], links[id].how) else links[id]
  }

  lemma {:induction false} NewestExists(rows: set<Passport>) returns (n: Passport)
    requires rows != {}
    ensures n in rows && forall p :: p in rows ==> Newer(n.detailUpdatedAt, p.detailUpdatedAt)
    decreases rows
  {
    var x :| x in rows;
    if x.detailUpdatedAt.Some? {
      T.LeqTotal(x.detailUpdatedAt.value, x.detailUpdatedAt.value);
    }
    if rows == {x} {
      n := x;
    } else {
      assert rows == (rows - {x}) + {x};
      var y := NewestExists(rows - {x});
      if x.detailUpdatedAt.Some? && y.detailUpdatedAt.Some? {
        T.LeqTotal(x.detailUpdatedAt.value, y.detailUpdatedAt.value);
      }
      n := if Newer(x.detailUpdatedAt, y.detailUpdatedAt) then x else y;
      forall p | p in rows
        ensures Newer(n.detailUpdatedAt, p.detailUpdatedAt)
      {
        if p != x && n == x && p.detailUpdatedAt.Some? {
          T.LeqTransitive(p.detailUpdatedAt.value, y.detailUpdatedAt.value, x.detailUpdatedAt.value);
        }
      }
    }
  }

  /** The row of a passport after it absorbed others. */
  method Absorb(before: Passport, olds: set<Passport>) returns (after: Passport)
    ensures Absorbs(before, olds, after)
  {
    var seen := (set o | o in olds :: o.firstSeen) + {before.firstSeen};
    var _ := T.LeastExists(seen);
    var earliest :| earliest in seen && forall s :: s in seen ==> T.Leq(earliest, s);
    if before.detail.Some? {
      after := before.(firstSeen := earliest);
    } else {
      var loaded := set o | o in olds && o.detail.Some?;
      assert forall o :: o in olds && o.detail.Some? ==> o in loaded;
      if loaded == {} {
        after := before.(firstSeen := earliest, detailUpdatedAt := None);
      } else {
        var _ := NewestExists(loaded);
        var newest :| newest in loaded && forall p :: p in loaded ==> Newer(newest.detailUpdatedAt, p.detailUpdatedAt);
        after := before.(firstSeen := earliest, detail := newest.detail, detailUpdatedAt := None);
      }
    }
  }

  /** A merge loses no loaded detail. */
  lemma MergeKeepsDetail(before: Passport, olds: set<Passport>, after: Passport)
    requires Absorbs(before, olds, after)
    ensures after.detail.Some? <==> before.detail.Some? || exists o :: o in olds && o.detail.Some?
  {
  }

  datatype UpsertResult = UpsertResult(saved: nat, changed: nat, skipped: nat, replaced: nat, links: nat)

  class Store {
    const m: Matcher
    var passports: Catalog
    var findings: Findings
    var links: Links

    ghost predicate Valid()
      reads this
    {
      Linkable(passports, findings, links)
    }

    ghost predicate LinksOptimal()
      reads this
    {
      Optimal(m, passports, findings, links)
    }

    /** The winners of the findings in one scope. */
    method Winners(scope: Scope) returns (chosen: Links)
      ensures chosen == WinnerLinks(m, passports, findings, Members(scope, findings))
    {
      hide Best;
      hide Candidates;
      hide Precedes;
      chosen := map[];
      var todo := Members(scope, findings);
      ghost var cat, fs, all := passports, findings, todo;
      while todo != {}
        invariant todo <= all
        invariant chosen == WinnerLinks(m, cat, fs, all - todo)
        decreases todo
      {
        var id :| id in todo;
        var candidates := Candidates(m, passports, findings[id]);
        ghost var best := Best(m, cat, fs[id]);
        if candidates != {} {
          var _ := SomeoneWins(candidates);
          var winner :| winner in candidates && forall d :: d in candidates ==> Precedes(winner, d);
          WinnerUnique(m, cat, fs[id], winner, best.value);
          chosen := chosen[id := LinkTo(winner)];
        }
        assert HasWinner(m, cat, fs, id) <==> candidates != {};
        todo := todo - {id};
        assert all - todo == (all - (todo + {id})) + {id};
      }
      assert all - todo == all;
    }

    /** Relinks scope by scope: in each, the old links go and the winners come. */
    method Reconcile(ids: Option<seq<string>>, asset: Option<string>) returns (inserted: nat)
      requires Valid()
      modifies this`links
      ensures Valid()
      ensures links == Relinked(m, passports, findings, old(links), Reach(passports, findings, old(links), ids, asset))
      ensures inserted == |WinnerLinks(m, passports, findings, Reach(passports, findings, old(links), ids, asset))|
    {
      hide Best;
      hide HasWinner;
      hide Linkable;
      hide LinkScopes;
      hide Members;
      hide Partition;
      hide Reach;
      hide Relinked;
      hide WinnerLinks;
      var scopes := LinkScopes(passports, findings, links, ids, asset);
      ghost var reach := Reach(passports, findings, links, ids, asset);
      ScopesPartition(passports, findings, links, ids, asset);
      inserted := 0;
      ghost var cat, fs, before := passports, findings, links;
      NothingCovered(m, cat, fs, before, scopes);
      for i := 0 to |scopes|
        invariant passports == cat && findings == fs
        invariant links == Relinked(m, cat, fs, before, Covered(scopes, i, fs))
        invariant inserted == |WinnerLinks(m, cat, fs, Covered(scopes, i, fs))|
      {
        var members := Members(scopes[i], findings);
        ghost var done := Covered(scopes, i, fs);
        CoveredMore(scopes, i, fs, reach);
        RelinkMore(m, cat, fs, before, done, members);
        WinnerLinksMore(m, cat, fs, done, members);
        var chosen := Winners(scopes[i]);
        links := (links - members) + chosen;
        inserted := inserted + |chosen|;
      }
      CoveredAll(scopes, fs, reach);
      RelinkedIsLinkable(m, cat, fs, before, reach);
    }

    /** Writes new and changed rows only, and tells which they were. */
    method SaveRows(latest: map<string, Content>, now: string) returns (changed: seq<string>)
      modifies this`passports
      ensures passports == Saved(old(passports), latest, now)
      ensures Elements(changed) == ChangedIds(old(passports), latest)
      ensures |changed| == |Elements(changed)|
    {
      hide Elements;
      hide Changed;
      hide ChangedIds;
      hide Saved;
      hide SavedRow;
      changed := [];
      var todo := latest.Keys;
      ghost var before := passports;
      NothingSaved(before, latest, now);
      NoElements<string>();
      while todo != {}
        invariant todo <= latest.Keys
        invariant passports == Saved(before, SavedPart(latest, todo), now)
        invariant Elements(changed) == ChangedIds(before, SavedPart(latest, todo))
        invariant |changed| == |Elements(changed)|
        decreases todo
      {
        var id :| id in todo;
        SaveOne(before, latest, todo, id, now);
        if Changed(passports, id, latest[id]) {
          passports := passports[id := SavedRow(passports, id, latest[id], now)];
          ElementsAdd(changed, id);
          changed := changed + [id];
        }
        todo := todo - {id};
      }
      assert SavedPart(latest, {}) == latest;
    }

    /** Every passport that replaces others takes over their details and dates. */
    method Merge(plan: map<string, string>)
      requires plan.Values <= passports.Keys && plan.Keys !! plan.Values
      modifies this`passports
      ensures Merged(old(passports), plan, plan.Values, passports)
    {
      var todo := plan.Values;
      ghost var before := passports;
      while todo != {}
        invariant todo <= plan.Values
        invariant Merged(before, plan, plan.Values - todo, passports)
        decreases todo
      {
        var id :| id in todo;
        var row := Absorb(passports[id], RowsOf(passports, Replaced(plan, id)));
        assert RowsOf(passports, Replaced(plan, id)) == RowsOf(before, Replaced(plan, id));
        passports := passports[id := row];
        todo := todo - {id};
      }
      assert plan.Values - todo == plan.Values;
    }

    /** Links follow their passports, and the replaced passports go; no link goes with them. */
    method Replace(plan: map<string, string>)
      requires Valid() && plan.Values <= passports.Keys && plan.Keys !! plan.Values
      modifies this`passports, this`links
      ensures Valid()
      ensures passports == old(passports) - plan.Keys && links == Redirected(old(links), plan)
    {
      RedirectedIsLinkable(passports, findings, links, plan);
      links := Redirected(links, plan);
      passports := passports - plan.Keys;
      var cat, redirected := passports, links;
      assert forall id :: id in redirected ==> redirected[id].passport in cat;
      // ON DELETE CASCADE
      links := map id | id in redirected && redirected[id].passport in cat :: redirected[id];
      assert links == redirected;
    }

    /** The changed passports, then the replacing ones not among them. */
    method RelinkIds(changed: seq<string>, plan: map<string, string>) returns (relink: seq<string>)
      requires |changed| == |Elements(changed)|
      ensures Elements(relink) == Elements(changed) + plan.Values
      ensures |relink| == |Elements(relink)|
    {
      hide Elements;
      hide Valid;
      relink := changed;
      var todo := plan.Values;
      while todo != {}
        invariant todo <= plan.Values
        invariant Elements(relink) == Elements(changed) + (plan.Values - todo)
        invariant |relink| == |Elements(relink)|
        decreases todo
      {
        var id :| id in todo;
        ElementsAdd(relink, id);
        if id !in relink {
          relink := relink + [id];
        }
        todo := todo - {id};
      }
    }

    /** Refreshes the catalog and relinks what the refresh can have affected. */
    method Upsert(incoming: seq<(Option<string>, Content)>, now: string, fullCatalog: bool) returns (r: UpsertResult)
      requires Valid()
      modifies this`passports, this`links
      ensures Valid()
      ensures Refreshed(old(passports), incoming, now, fullCatalog, passports)
      ensures Clean(findings) && old(LinksOptimal()) ==> LinksOptimal()
      ensures r.saved == |Latest(incoming)| && r.skipped == Blank(incoming)
      ensures r.changed == |ChangedIds(old(passports), Latest(incoming))|
      ensures var plan := PlanOf(old(passports), incoming, now, fullCatalog);
        var redirected := Redirected(old(links), plan);
        var reach := ReachOf(
          passports, findings, redirected, ChangedIds(old(passports), Latest(incoming)) + plan.Values);
        && r.replaced == |plan|
        && links == Relinked(m, passports, findings, redirected, reach)
        && r.links == |WinnerLinks(m, passports, findings, reach)|
    {
      hide Best;
      hide Absorbs;
      hide Candidates;
      hide Reach;
      hide Affected;
      hide Replacements;
      hide Saved;
      hide Redirected;
      hide Relinked;
      hide Merged;
      hide Latest;
      hide Blank;
      hide Refreshed;
      hide ChangedIds;
      hide ReachOf;
      hide WinnerLinks;
      ghost var before, oldLinks := passports, links;
      var latest, skipped := TakeLatest(incoming);
      var known := latest.Keys * passports.Keys;
      SavedKeys(before, latest, now);
      var changed := SaveRows(latest, now);
      ghost var saved := passports;
      var plan := Replacements(passports, latest, known, fullCatalog);
      ReplacementsAreIncoming(passports, latest, known, fullCatalog);
      Merge(plan);
      ghost var merged := passports;
      Replace(plan);
      RefreshedBy(before, incoming, now, fullCatalog, merged);
      ghost var redirected := links;
      var relink := RelinkIds(changed, plan);
      ReachOfIds(passports, findings, links, relink);
      var inserted := Reconcile(Some(relink), None);
      r := UpsertResult(|latest|, |changed|, skipped, |plan|, inserted);
      if Clean(findings) && old(LinksOptimal()) {
        RefreshKeepsOptimal(m, before, saved, latest, now, plan, passports, findings, oldLinks, redirected, relink);
      }
    }
  }

  /** The rows already saved. */
  function SavedPart(latest: map<string, Content>, todo: set<string>): map<string, Content> {
    latest - todo
  }

  lemma NothingSaved(cat: Catalog, latest: map<string, Content>, now: string)
    ensures Saved(cat, SavedPart(latest, latest.Keys), now) == cat
    ensures ChangedIds(cat, SavedPart(latest, latest.Keys)) == {}
  {
  }

  /** An unchanged row is saved already; a changed one is rewritten. */
  lemma SaveOne(cat: Catalog, latest: map<string, Content>, todo: set<string>, id: string, now: string)
    requires id in todo && todo <= latest.Keys
    ensures var saved := Saved(cat, SavedPart(latest, todo), now);
      var changed, changed' :=
        ChangedIds(cat, SavedPart(latest, todo)), ChangedIds(cat, SavedPart(latest, todo - {id}));
      if Changed(saved, id, latest[id])
      then
        && Saved(cat, SavedPart(latest, todo - {id}), now) == saved[id := SavedRow(saved, id, latest[id], now)]
        && id !in changed && changed' == changed + {id}
      else Saved(cat, SavedPart(latest, todo - {id}), now) == saved && changed' == changed
  {
  }

  lemma NoElements<T>()
    ensures Elements<T>([]) == {}
  {
  }

  lemma ElementsAdd<T>(s: seq<T>, x: T)
    ensures Elements(s + [x]) == Elements(s) + {x} && (x in Elements(s) <==> x in s)
  {
  }

  method TakeLatest(incoming: seq<(Option<string>, Content)>) returns (latest: map<string, Content>, skipped: nat)
    ensures latest == Latest(incoming) && skipped == Blank(incoming)
  {
    latest, skipped := map[], 0;
    for i := 0 to |incoming|
      invariant latest == Latest(incoming[..i]) && skipped == Blank(incoming[..i])
    {
      assert incoming[..i + 1][..i] == incoming[..i];
      if incoming[i].0.None? {
        skipped := skipped + 1;
      } else {
        latest := latest[incoming[i].0.value := incoming[i].1];
      }
    }
    assert incoming[..|incoming|] == incoming;
  }

  /** What relinking a set of passports reaches. */
  function ReachOf(cat: Catalog, findings: Findings, links: Links, ids: set<string>): set<int> {
    if |ids| > TARGETED_MAX_PASSPORTS then findings.Keys else AffectedSet(cat, findings, links, ids)
  }

  lemma ReachOfIds(cat: Catalog, findings: Findings, links: Links, ids: seq<string>)
    requires |ids| == |Elements(ids)|
    ensures Reach(cat, findings, links, Some(ids), None) == ReachOf(cat, findings, links, Elements(ids))
  {
  }

  /** The ids that a refresh replaces, each with its successor. */
  function PlanOf(
    cat: Catalog, incoming: seq<(Option<string>, Content)>, now: string, fullCatalog: bool): map<string, string>
  {
    var latest := Latest(incoming);
    Replacements(Saved(cat, latest, now), latest, latest.Keys * cat.Keys, fullCatalog)
  }

  /** The catalog after a refresh: saved, merged, and rid of what was replaced. */
  ghost predicate Refreshed(
    cat: Catalog, incoming: seq<(Option<string>, Content)>, now: string, fullCatalog: bool, cat': Catalog)
  {
    var saved, plan := Saved(cat, Latest(incoming), now), PlanOf(cat, incoming, now, fullCatalog);
    exists merged :: Merged(saved, plan, plan.Values, merged) && cat' == merged - plan.Keys
  }

  lemma RefreshedBy(
    cat: Catalog, incoming: seq<(Option<string>, Content)>, now: string, fullCatalog: bool, merged: Catalog)
    requires var saved, plan := Saved(cat, Latest(incoming), now), PlanOf(cat, incoming, now, fullCatalog);
      Merged(saved, plan, plan.Values, merged)
    ensures Refreshed(cat, incoming, now, fullCatalog, merged - PlanOf(cat, incoming, now, fullCatalog).Keys)
  {
    hide Merged;
  }

  /** The stored passport under which an id lives on after a refresh. */
  function Heir(plan: map<string, string>, id: string): string {
    if id in plan then plan[id] else id
  }

  /**
   A refresh stores every incoming passport as it came, and forgets none: a known passport stays or has an
   heir of the same external id, which keeps its loaded detail (or one in its place) and is not younger.
   */
  lemma RefreshLosesNothing(
    cat: Catalog, incoming: seq<(Option<string>, Content)>, now: string, fullCatalog: bool, cat': Catalog, id: string)
    requires Refreshed(cat, incoming, now, fullCatalog, cat')
    ensures var latest := Latest(incoming);
      && (id in latest ==> id in cat' && cat'[id].content == latest[id])
      && (id in cat ==>
            exists heir :: heir in cat'
              && (heir == id
                || (id !in latest && heir in latest && latest[heir].externalId == cat[id].content.externalId))
              && (cat[id].detail.Some? ==> cat'[heir].detail.Some?)
              && T.Leq(cat'[heir].firstSeen, cat[id].firstSeen))
  {
    hide Replacements;
    hide Latest;
    hide Merged;
    var latest, plan := Latest(incoming), PlanOf(cat, incoming, now, fullCatalog);
    var saved := Saved(cat, latest, now);
    ReplacementsAreIncoming(saved, latest, latest.Keys * cat.Keys, fullCatalog);
    var merged :| Merged(saved, plan, plan.Values, merged) && cat' == merged - plan.Keys;
    if id in saved {
      HeirKeeps(saved, plan, merged, id);
    }
  }

  /** Merging and deleting leave an heir that keeps its content and what is known of the passport it inherits from. */
  lemma HeirKeeps(saved: Catalog, plan: map<string, string>, merged: Catalog, id: string)
    requires plan.Keys !! plan.Values && plan.Values <= saved.Keys && id in saved
    requires Merged(saved, plan, plan.Values, merged)
    ensures var heir := Heir(plan, id);
      && heir in merged - plan.Keys && merged[heir].content == saved[heir].content
      && (saved[id].detail.Some? ==> merged[heir].detail.Some?)
      && T.Leq(merged[heir].firstSeen, saved[id].firstSeen)
  {
    hide T.Leq;
    var heir := Heir(plan, id);
    var olds := RowsOf(saved, Replaced(plan, heir));
    T.LeqTotal(saved[id].firstSeen, saved[id].firstSeen);
    if heir in plan.Values {
      assert id in plan ==> id in Replaced(plan, heir) && saved[id] in olds;
      MergeKeepsDetail(saved[heir], olds, merged[heir]);
    }
  }

  lemma SavedKeys(cat: Catalog, latest: map<string, Content>, now: string)
    ensures Saved(cat, latest, now).Keys == cat.Keys + latest.Keys
  {
  }

  lemma RedirectedIsLinkable(cat: Catalog, findings: Findings, links: Links, plan: map<string, string>)
    requires Linkable(cat, findings, links) && plan.Values <= cat.Keys && plan.Keys !! plan.Values
    ensures Linkable(cat - plan.Keys, findings, Redirected(links, plan))
  {
  }

  /** A refresh writes only what it then relinks. */
  lemma RefreshWrites(
    before: Catalog, saved: Catalog, latest: map<string, Content>, now: string, plan: map<string, string>,
    after: Catalog, links: Links, ids: set<string>)
    requires saved == Saved(before, latest, now)
    requires exists merged :: Merged(saved, plan, plan.Values, merged) && after == merged - plan.Keys
    requires forall id :: id in ids <==> (id in latest && Changed(before, id, latest[id])) || id in plan.Values
    ensures Written(before, links, after, Redirected(links, plan), ids)
  {
  }

  /** A refresh and its targeted relink leave every finding linked to its winner in the new catalog. */
  lemma RefreshKeepsOptimal(
    m: Matcher, before: Catalog, saved: Catalog, latest: map<string, Content>, now: string, plan: map<string, string>,
    after: Catalog, findings: Findings, links: Links, redirected: Links, relink: seq<string>)
    requires Clean(findings) && Optimal(m, before, findings, links) && Linkable(before, findings, links)
    requires saved == Saved(before, latest, now)
    requires forall oldId :: oldId in plan ==> oldId !in latest && plan[oldId] in latest
    requires exists merged :: Merged(saved, plan, plan.Values, merged) && after == merged - plan.Keys
    requires redirected == Redirected(links, plan)
    requires Elements(relink) == ChangedIds(before, latest) + plan.Values
    ensures Optimal(m, after, findings,
      Relinked(m, after, findings, redirected, Reach(after, findings, redirected, Some(relink), None)))
  {
    var ids := Elements(relink);
    RedirectedIsLinkable(saved, findings, links, plan);
    RefreshWrites(before, saved, latest, now, plan, after, links, ids);
    hide Best;
    hide Affected;
    hide Relinked;
    if |relink| > TARGETED_MAX_PASSPORTS {
      RelinkedAll(m, after, findings, redirected, findings.Keys);
    } else {
      TargetedRelinkIsFull(m, before, after, findings, links, redirected, ids);
    }
  }

  /** The findings of the first scopes. */
  ghost function Covered(scopes: seq<Scope>, n: nat, findings: Findings): set<int>
    requires n <= |scopes|
  {
    set id | id in findings && exists i :: 0 <= i < n && id in Members(scopes[i], findings)
  }

  lemma NothingCovered(m: Matcher, cat: Catalog, findings: Findings, links: Links, scopes: seq<Scope>)
    requires Linkable(cat, findings, links)
    ensures Relinked(m, cat, findings, links, Covered(scopes, 0, findings)) == links
    ensures WinnerLinks(m, cat, findings, Covered(scopes, 0, findings)) == map[]
  {
  }

  lemma CoveredMore(scopes: seq<Scope>, n: nat, findings: Findings, reach: set<int>)
    requires n < |scopes| && Partition(scopes, findings, reach)
    ensures Covered(scopes, n + 1, findings) == Covered(scopes, n, findings) + Members(scopes[n], findings)
    ensures Covered(scopes, n, findings) !! Members(scopes[n], findings)
  {
  }

  lemma CoveredAll(scopes: seq<Scope>, findings: Findings, reach: set<int>)
    requires Partition(scopes, findings, reach)
    ensures Covered(scopes, |scopes|, findings) == reach
  {
    forall id
      ensures id in reach <==> id in Covered(scopes, |scopes|, findings)
    {
      if id in reach {
        var i :| 0 <= i < |scopes| && id in Members(scopes[i], findings);
      }
    }
  }
}
