/**
 How one passport is chosen for a vulnerability finding: the candidates a finding has in a catalog, their
 ranking, and the winner.
 */
module PassportMatching {
  import opened Wrappers
  import T = Text

  /** The columns a catalog refresh writes. `cves` and the OS family are what the trigger derives from them. */
  datatype Content = Content(
    externalId: Option<string>, name: Option<string>, issueTime: Option<string>,
    packageId: Option<string>, packageVersion: Option<string>, cves: set<string>, otherColumns: string)

  datatype Passport = Passport(
    content: Content, detail: Option<string>, detailUpdatedAt: Option<string>, firstSeen: string)

  type Catalog = map<string, Passport>

  /** A stored finding. The OS fields are those read from its image, or else from its host. */
  datatype Finding = Finding(
    asset: string, vulnerabilityId: Option<string>, cveName: Option<string>,
    osFamily: Option<string>, osVersionToken: Option<string>)

  type Findings = map<int, Finding>

  /** The OS family named in a passport's text, whose patterns are left open. */
  datatype Matcher = Matcher(familyOf: (Content, Option<string>) -> Option<string>)

  datatype Method = VulnerId | CveOsVersion | CveOs | CveGeneric

  datatype Candidate = Candidate(
    passport: string, how: Method, score: int, hasDetail: bool, issueTime: Option<string>)

  // ---- Candidates ----

  function NonBlank(s: Option<string>): Option<string> {
    if s.Some? && T.Trim(s.value) != "" then Some(T.Trim(s.value)) else None
  }

  function VulnerabilityOf(f: Finding): Option<string> {
    NonBlank(f.vulnerabilityId)
  }

  function CveOf(f: Finding): Option<string> {
    var name := NonBlank(f.cveName);
    if name.Some? then Some(T.Upper(name.value)) else None
  }

  function Joined(parts: seq<Option<string>>): string {
    if parts == [] then ""
    else if parts[0].None? then Joined(parts[1..])
    else
      var rest := Joined(parts[1..]);
      if forall p :: p in parts[1..] ==> p.None? then parts[0].value else parts[0].value + " " + rest
  }

  function LabelOf(p: Passport): string {
    T.Lower(Joined([p.content.name, p.content.packageId, p.content.packageVersion]))
  }

  predicate Direct(id: string, f: Finding) {
    VulnerabilityOf(f) == Some(id)
  }

  predicate SharesCve(p: Passport, f: Finding) {
    CveOf(f).Some? && CveOf(f).value in p.content.cves
  }

  function Family(m: Matcher, p: Passport): Option<string> {
    m.familyOf(p.content, p.detail)
  }

  /** A CVE match must not contradict the OS families of both sides. */
  predicate CveMatches(m: Matcher, p: Passport, f: Finding) {
    && SharesCve(p, f)
    && (Family(m, p).None? || (f.osFamily.Some? && Family(m, p) == f.osFamily))
  }

  function CveMethod(m: Matcher, p: Passport, f: Finding): Method {
    if Family(m, p).None? || Family(m, p) != f.osFamily then CveGeneric
    else if f.osVersionToken.Some? && T.Contains(LabelOf(p), f.osVersionToken.value) then CveOsVersion
    else CveOs
  }

  function Score(how: Method): int {
    match how
    case VulnerId => 1000
    case CveOsVersion => 100 + 50 + 20
    case CveOs => 100 + 50
    case CveGeneric => 100
  }

  function MakeCandidate(id: string, p: Passport, how: Method): Candidate {
    Candidate(id, how, Score(how), p.detail.Some?, p.content.issueTime)
  }

  function Candidates(m: Matcher, cat: Catalog, f: Finding): set<Candidate> {
    (set id | id in cat && Direct(id, f) :: MakeCandidate(id, cat[id], VulnerId)) +
    (set id | id in cat && CveMatches(m, cat[id], f) :: MakeCandidate(id, cat[id], CveMethod(m, cat[id], f)))
  }

  // ---- Ranking ----

  /** Later issue times first, a missing one last. */
  predicate IssuedBefore(a: Option<string>, b: Option<string>) {
    a.Some? && (b.None? || (a != b && T.Leq(b.value, a.value)))
  }

  /** `a` ranks at least as high as `b`: score, loaded detail, issue time, then passport id. */
  predicate Precedes(a: Candidate, b: Candidate) {
    a.score > b.score || (a.score == b.score &&
      ((a.hasDetail && !b.hasDetail) || (a.hasDetail == b.hasDetail &&
        (IssuedBefore(a.issueTime, b.issueTime) || (a.issueTime == b.issueTime && T.Leq(a.passport, b.passport))))))
  }

  lemma PrecedesTotal(a: Candidate, b: Candidate)
    ensures Precedes(a, b) || Precedes(b, a)
  {
    T.LeqTotal(a.passport, b.passport);
    if a.issueTime.Some? && b.issueTime.Some? {
      T.LeqTotal(a.issueTime.value, b.issueTime.value);
    }
  }

  lemma PrecedesTransitive(a: Candidate, b: Candidate, c: Candidate)
    requires Precedes(a, b) && Precedes(b, c)
    ensures Precedes(a, c)
  {
    if T.Leq(a.passport, b.passport) && T.Leq(b.passport, c.passport) {
      T.LeqTransitive(a.passport, b.passport, c.passport);
    }
    if IssuedBefore(a.issueTime, b.issueTime) && IssuedBefore(b.issueTime, c.issueTime) && c.issueTime.Some? {
      T.LeqTransitive(c.issueTime.value, b.issueTime.value, a.issueTime.value);
      if a.issueTime == c.issueTime {
        T.LeqAntisymmetric(a.issueTime.value, b.issueTime.value);
      }
    }
  }

  lemma PrecedesAntisymmetric(a: Candidate, b: Candidate)
    requires Precedes(a, b) && Precedes(b, a)
    ensures a.passport == b.passport && a.score == b.score
  {
    if IssuedBefore(a.issueTime, b.issueTime) && IssuedBefore(b.issueTime, a.issueTime) {
      T.LeqAntisymmetric(a.issueTime.value, b.issueTime.value);
    }
    if T.Leq(a.passport, b.passport) && T.Leq(b.passport, a.passport) {
      T.LeqAntisymmetric(a.passport, b.passport);
    }
  }

  ghost predicate Wins(c: Candidate, cs: set<Candidate>) {
    c in cs && forall d :: d in cs ==> Precedes(c, d)
  }

  lemma {:induction false} SomeoneWins(cs: set<Candidate>) returns (c: Candidate)
    requires cs != {}
    ensures Wins(c, cs)
    decreases cs
  {
    var d :| d in cs;
    PrecedesTotal(d, d);
    if cs == {d} {
      c := d;
    } else {
      assert cs == (cs - {d}) + {d};
      var e := SomeoneWins(cs - {d});
      PrecedesTotal(d, e);
      c := if Precedes(d, e) then d else e;
      forall x | x in cs
        ensures Precedes(c, x)
      {
        if x != d {
          assert Precedes(e, x);
          if c == d {
            PrecedesTransitive(d, e, x);
          }
        }
      }
    }
  }

  /** Score and passport tell the candidates of one finding apart. */
  lemma CandidateIdentity(m: Matcher, cat: Catalog, f: Finding, a: Candidate, b: Candidate)
    requires a in Candidates(m, cat, f) && b in Candidates(m, cat, f)
    requires a.passport == b.passport && a.score == b.score
    ensures a == b
  {
  }

  lemma WinnerUnique(m: Matcher, cat: Catalog, f: Finding, a: Candidate, b: Candidate)
    requires Wins(a, Candidates(m, cat, f)) && Wins(b, Candidates(m, cat, f))
    ensures a == b
  {
    PrecedesAntisymmetric(a, b);
    CandidateIdentity(m, cat, f, a, b);
  }

  ghost function Best(m: Matcher, cat: Catalog, f: Finding): (best: Option<Candidate>)
    ensures best.None? <==> Candidates(m, cat, f) == {}
    ensures best.Some? ==> Wins(best.value, Candidates(m, cat, f))
  {
    if Candidates(m, cat, f) == {} then None
    else
      assert exists c :: Wins(c, Candidates(m, cat, f)) by {
        var c := SomeoneWins(Candidates(m, cat, f));
      }
      var c :| Wins(c, Candidates(m, cat, f));
      Some(c)
  }

  // ---- What the ranking promises ----

  /** A passport named by the finding beats every CVE match. */
  lemma DirectPassportWins(m: Matcher, cat: Catalog, f: Finding, id: string)
    requires id in cat && Direct(id, f)
    ensures Best(m, cat, f).Some? && Best(m, cat, f).value.passport == id && Best(m, cat, f).value.how == VulnerId
  {
    var direct := MakeCandidate(id, cat[id], VulnerId);
    assert direct in Candidates(m, cat, f);
    assert Precedes(Best(m, cat, f).value, direct);
  }

  /** A winner found by CVE shares the finding's CVE, and its OS family unless it names none. */
  lemma CveLinkStaysInFamily(m: Matcher, cat: Catalog, f: Finding)
    requires Best(m, cat, f).Some? && Best(m, cat, f).value.how != VulnerId
    ensures var p := cat[Best(m, cat, f).value.passport];
      Best(m, cat, f).value.passport in cat && SharesCve(p, f) && (Family(m, p).Some? ==> Family(m, p) == f.osFamily)
  {
  }

  /** Losing other candidates does not dethrone the winner. */
  lemma BestOfFewer(m: Matcher, cat: Catalog, cat': Catalog, f: Finding)
    requires Candidates(m, cat', f) <= Candidates(m, cat, f)
    requires Best(m, cat, f).Some? ==> Best(m, cat, f).value in Candidates(m, cat', f)
    ensures Best(m, cat', f) == Best(m, cat, f)
  {
    if Best(m, cat, f).Some? {
      WinnerUnique(m, cat', f, Best(m, cat, f).value, Best(m, cat', f).value);
    }
  }
}
