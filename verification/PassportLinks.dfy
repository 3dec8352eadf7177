/**
 The link table from findings to passports, one link for a finding, and when it is optimal: every finding
 linked to its winner, and to nothing when it has no candidates.
 */
module PassportLinks {
  import opened PassportMatching

  datatype Link = Link(passport: string, how: Method)

  type Links = map<int, Link>

  function LinkTo(c: Candidate): Link {
    Link(c.passport, c.how)
  }

  ghost predicate HasWinner(m: Matcher, cat: Catalog, findings: Findings, id: int) {
    id in findings && Best(m, cat, findings[id]).Some?
  }

  /** The links of a complete relink. */
  ghost function FullLinks(m: Matcher, cat: Catalog, findings: Findings): Links {
    map id | id in findings && HasWinner(m, cat, findings, id) :: LinkTo(Best(m, cat, findings[id]).value)
  }

  ghost predicate Optimal(m: Matcher, cat: Catalog, findings: Findings, links: Links) {
    links == FullLinks(m, cat, findings)
  }

  /** The links after the findings of `scope` have been linked anew. */
  ghost function Relinked(m: Matcher, cat: Catalog, findings: Findings, links: Links, scope: set<int>): Links {
    map id | id in links.Keys + findings.Keys && (if id in scope then HasWinner(m, cat, findings, id) else id in links)
      :: if id in scope then LinkTo(Best(m, cat, findings[id]).value) else links[id]
  }

  /** The links of the winners of some findings. */
  ghost function WinnerLinks(m: Matcher, cat: Catalog, findings: Findings, scope: set<int>): Links {
    map id | id in scope && HasWinner(m, cat, findings, id) :: LinkTo(Best(m, cat, findings[id]).value)
  }

  /** Dropping the links of more findings and adding their winners extends a relink. */
  lemma RelinkMore(m: Matcher, cat: Catalog, findings: Findings, links: Links, a: set<int>, b: set<int>)
    requires Linkable(cat, findings, links)
    ensures (Relinked(m, cat, findings, links, a) - b) + WinnerLinks(m, cat, findings, b)
         == Relinked(m, cat, findings, links, a + b)
  {
  }

  lemma RelinkedIsLinkable(m: Matcher, cat: Catalog, findings: Findings, links: Links, scope: set<int>)
    requires Linkable(cat, findings, links)
    ensures Linkable(cat, findings, Relinked(m, cat, findings, links, scope))
  {
  }

  lemma SizeIsKeys(links: Links)
    ensures |links| == |links.Keys|
  {
  }

  lemma WinnerLinksMore(m: Matcher, cat: Catalog, findings: Findings, a: set<int>, b: set<int>)
    requires a !! b
    ensures |WinnerLinks(m, cat, findings, a + b)|
      == |WinnerLinks(m, cat, findings, a)| + |WinnerLinks(m, cat, findings, b)|
  {
    WinnerKeysSplit(m, cat, findings, a, b);
    hide WinnerLinks;
    SizeIsKeys(WinnerLinks(m, cat, findings, a));
    SizeIsKeys(WinnerLinks(m, cat, findings, b));
    SizeIsKeys(WinnerLinks(m, cat, findings, a + b));
  }

  lemma WinnerKeysSplit(m: Matcher, cat: Catalog, findings: Findings, a: set<int>, b: set<int>)
    requires a !! b
    ensures var wa, wb := WinnerLinks(m, cat, findings, a), WinnerLinks(m, cat, findings, b);
      WinnerLinks(m, cat, findings, a + b).Keys == wa.Keys + wb.Keys && wa.Keys !! wb.Keys
  {
    hide Best;
    hide HasWinner;
    hide LinkTo;
  }

  /** Relinking everything does not depend on the links before. */
  lemma RelinkedAll(m: Matcher, cat: Catalog, findings: Findings, links: Links, scope: set<int>)
    requires links.Keys <= findings.Keys <= scope
    ensures Optimal(m, cat, findings, Relinked(m, cat, findings, links, scope))
  {
  }

  // ---- The findings a change can affect ----

  /** What the scope query compares: the stored id as it is, the CVE trimmed and in upper case, the present link. */
  predicate Affected(cat: Catalog, findings: Findings, links: Links, ids: set<string>, id: int) {
    && id in findings
    && var f := findings[id];
    (|| (f.vulnerabilityId.Some? && f.vulnerabilityId.value in ids)
     || (exists p :: p in ids && p in cat && SharesCve(cat[p], f))
     || (id in links && links[id].passport in ids))
  }

  function AffectedSet(cat: Catalog, findings: Findings, links: Links, ids: set<string>): set<int> {
    set id | id in findings && Affected(cat, findings, links, ids, id)
  }

  /** A vulnerability id without surrounding blanks, or nothing but blanks. */
  predicate CleanId(f: Finding) {
    VulnerabilityOf(f).None? || VulnerabilityOf(f) == f.vulnerabilityId
  }

  /** What insertion makes of every finding it stores. */
  predicate Clean(findings: Findings) {
    forall id :: id in findings ==> CleanId(findings[id])
  }

  /** Every link leads from a stored finding to a stored passport (the two foreign keys). */
  predicate Linkable(cat: Catalog, findings: Findings, links: Links) {
    links.Keys <= findings.Keys && forall id :: id in links ==> links[id].passport in cat
  }

  /**
   What a write does before it relinks the findings affected by `ids`: it changes or adds passports only in
   `ids`, removes others, and redirects links only to passports in `ids`.
   */
  ghost predicate Written(cat: Catalog, links: Links, cat': Catalog, links': Links, ids: set<string>) {
    && (forall p :: p in cat' && p !in ids ==> p in cat && cat[p] == cat'[p])
    && links'.Keys == links.Keys
    && (forall id :: id in links ==> links'[id] == links[id] || links'[id].passport in ids)
  }

  /** A finding out of reach of the write keeps its winner. */
  lemma UnaffectedKeepsWinner(
    m: Matcher, cat: Catalog, cat': Catalog, findings: Findings, links: Links, links': Links, ids: set<string>, id: int)
    requires id in findings && CleanId(findings[id])
    requires Optimal(m, cat, findings, links) && Linkable(cat', findings, links')
    requires Written(cat, links, cat', links', ids)
    requires !Affected(cat', findings, links', ids, id)
    ensures Best(m, cat', findings[id]) == Best(m, cat, findings[id])
    ensures id in links' <==> HasWinner(m, cat', findings, id)
    ensures id in links' ==> links'[id] == LinkTo(Best(m, cat', findings[id]).value)
  {
    var f := findings[id];
    forall c | c in Candidates(m, cat', f)
      ensures c in Candidates(m, cat, f)
    {
      assert c.passport !in ids;
    }
    if id in links {
      var c := Best(m, cat, f).value;
      assert links'[id] == links[id] == LinkTo(c);
      assert cat'[c.passport] == cat[c.passport];
    }
    BestOfFewer(m, cat, cat', f);
  }

  /** Relinking the affected findings brings about what relinking all of them would. */
  lemma TargetedRelinkIsFull(
    m: Matcher, cat: Catalog, cat': Catalog, findings: Findings, links: Links, links': Links, ids: set<string>)
    requires Clean(findings) && Optimal(m, cat, findings, links) && Linkable(cat', findings, links')
    requires Written(cat, links, cat', links', ids)
    ensures Optimal(m, cat', findings,
                    Relinked(m, cat', findings, links', AffectedSet(cat', findings, links', ids)))
  {
    hide Best;
    hide Written;
    hide Affected;
    var scope := AffectedSet(cat', findings, links', ids);
    forall id | id in findings && id !in scope
      ensures id in links' <==> HasWinner(m, cat', findings, id)
      ensures id in links' ==> links'[id] == LinkTo(Best(m, cat', findings[id]).value)
    {
      UnaffectedKeepsWinner(m, cat, cat', findings, links, links', ids, id);
    }
    KeptWinnersSuffice(m, cat', findings, links', scope);
  }

  lemma KeptWinnersSuffice(m: Matcher, cat: Catalog, findings: Findings, links: Links, scope: set<int>)
    requires links.Keys <= findings.Keys
    requires forall id :: id in findings && id !in scope ==>
      && (id in links <==> HasWinner(m, cat, findings, id))
      && (id in links ==> links[id] == LinkTo(Best(m, cat, findings[id]).value))
    ensures Optimal(m, cat, findings, Relinked(m, cat, findings, links, scope))
  {
    hide Best;
  }

  /** Without clean ids it fails: some catalog change leaves the finding unlinked although it names a passport. */
  lemma UncleanIdIsMissed(m: Matcher, findings: Findings, id: int, p: Passport)
    returns (cat': Catalog, ids: set<string>)
    requires id in findings && !CleanId(findings[id])
    requires p.content.cves == {}
    ensures Optimal(m, map[], findings, map[])
      && Linkable(cat', findings, map[]) && Written(map[], map[], cat', map[], ids)
    ensures !Optimal(m, cat', findings, Relinked(m, cat', findings, map[], AffectedSet(cat', findings, map[], ids)))
  {
    hide Best;
    hide Optimal;
    hide FullLinks;
    hide Relinked;
    var name := VulnerabilityOf(findings[id]).value;
    cat', ids := map[name := p], {name};
    EmptyCatalogLinksNothing(m, findings);
    DirectPassportWins(m, cat', findings[id], name);
    assert !Affected(cat', findings, map[], ids, id);
    MissedIsNotOptimal(m, cat', findings, AffectedSet(cat', findings, map[], ids), id);
  }

  lemma EmptyCatalogLinksNothing(m: Matcher, findings: Findings)
    ensures Optimal(m, map[], findings, map[])
  {
  }

  lemma MissedIsNotOptimal(m: Matcher, cat: Catalog, findings: Findings, scope: set<int>, id: int)
    requires HasWinner(m, cat, findings, id) && id !in scope
    ensures !Optimal(m, cat, findings, Relinked(m, cat, findings, map[], scope))
  {
    hide Best;
    assert id in FullLinks(m, cat, findings);
  }
}
