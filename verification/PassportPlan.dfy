/**
 Which stored passports have been re-issued under a new id. Rows are paired from the strictest key to the
 loosest, and only when the successor is the only one with that key.
 */
module PassportPlan {
  import opened Wrappers
  import opened PassportMatching

  datatype PlanRow = PlanRow(externalId: Option<string>, packageId: Option<string>, packageVersion: Option<string>)

  /** Rows by internal id. */
  type Rows = map<string, PlanRow>

  datatype Key =
    | ExactKey(externalId: string, packageId: Option<string>, packageVersion: Option<string>)
    | PackageKey(externalId: string, package: string)
    | ExternalKey(externalId: string)

  datatype Depth = Exact | SamePackage | SameExternal

  function KeyOf(row: PlanRow, depth: Depth): Option<Key> {
    if row.externalId.None? || row.externalId.value == "" then None
    else match depth
      case Exact => Some(ExactKey(row.externalId.value, row.packageId, row.packageVersion))
      case SamePackage =>
        if row.packageId.None? then None else Some(PackageKey(row.externalId.value, row.packageId.value))
      case SameExternal => Some(ExternalKey(row.externalId.value))
  }

  predicate HasKey(rows: Rows, id: string, key: Key, depth: Depth) {
    id in rows && KeyOf(rows[id], depth) == Some(key)
  }

  predicate SoleSuccessor(successors: Rows, id: string, key: Key, depth: Depth) {
    HasKey(successors, id, key, depth)
    && forall other :: other in successors && HasKey(successors, other, key, depth) ==> other == id
  }

  /** The loosest key is trusted only when one side does not know its package. */
  predicate PackageUnknown(successors: Rows, stale: Rows, newId: string, key: Key)
    requires newId in successors
  {
    successors[newId].packageId.None? ||
    forall oldId :: oldId in stale && HasKey(stale, oldId, key, SameExternal) ==> stale[oldId].packageId.None?
  }

  predicate Replaces(successors: Rows, stale: Rows, depth: Depth, oldId: string, newId: string) {
    && oldId in stale && KeyOf(stale[oldId], depth).Some?
    && SoleSuccessor(successors, newId, KeyOf(stale[oldId], depth).value, depth)
    && (depth == SameExternal ==> PackageUnknown(successors, stale, newId, KeyOf(stale[oldId], depth).value))
  }

  /** The pairs found with one kind of key. */
  function PairsAt(successors: Rows, stale: Rows, depth: Depth): (pairs: map<string, string>)
    ensures forall oldId :: oldId in pairs <==>
      oldId in stale && exists newId :: newId in successors && Replaces(successors, stale, depth, oldId, newId)
    ensures forall oldId :: oldId in pairs ==>
      pairs[oldId] in successors && Replaces(successors, stale, depth, oldId, pairs[oldId])
  {
    map oldId | oldId in stale
      && (exists newId :: newId in successors && Replaces(successors, stale, depth, oldId, newId))
      :: var newId :| newId in successors && Replaces(successors, stale, depth, oldId, newId); newId
  }

  /** The pairs of one depth, then those of the depths after it among the rows left over. */
  function PlanFrom(successors: Rows, stale: Rows, depths: seq<Depth>): map<string, string> {
    if depths == [] then map[]
    else
      var pairs := PairsAt(successors, stale, depths[0]);
      pairs + PlanFrom(successors, stale - pairs.Keys, depths[1..])
  }

  /** `loose` keys are used only when the stale rows are known to be gone. */
  function Plan(successors: Rows, stale: Rows, loose: bool): map<string, string> {
    PlanFrom(successors, stale - successors.Keys, if loose then [Exact, SamePackage, SameExternal] else [Exact])
  }

  predicate Within(left: Rows, stale: Rows) {
    left.Keys <= stale.Keys && forall id :: id in left ==> left[id] == stale[id]
  }

  /** The depth at which a pair was found, and the rows that were left over then. */
  lemma {:induction false} PlanFromPairs(successors: Rows, stale: Rows, depths: seq<Depth>, oldId: string)
      returns (depth: Depth, left: Rows)
    requires oldId in PlanFrom(successors, stale, depths)
    ensures depth in depths && Within(left, stale)
    ensures Replaces(successors, left, depth, oldId, PlanFrom(successors, stale, depths)[oldId])
    decreases |depths|
  {
    var pairs := PairsAt(successors, stale, depths[0]);
    if oldId in PlanFrom(successors, stale - pairs.Keys, depths[1..]) {
      depth, left := PlanFromPairs(successors, stale - pairs.Keys, depths[1..], oldId);
    } else {
      depth, left := depths[0], stale;
    }
  }

  /**
   A planned pair leads from a stale row that is no successor to a successor of the same external id; their
   packages agree unless one side does not know its package, and agree exactly when the plan is not loose.
   */
  lemma PlannedPair(successors: Rows, stale: Rows, loose: bool, oldId: string)
    requires oldId in Plan(successors, stale, loose)
    ensures oldId in stale && oldId !in successors && Plan(successors, stale, loose)[oldId] in successors
    ensures var o, n := stale[oldId], successors[Plan(successors, stale, loose)[oldId]];
      && o.externalId.Some? && o.externalId == n.externalId
      && (o.packageId == n.packageId || o.packageId.None? || n.packageId.None?)
      && (!loose ==> o == n)
  {
    var rest := stale - successors.Keys;
    var depths := if loose then [Exact, SamePackage, SameExternal] else [Exact];
    var depth, left := PlanFromPairs(successors, rest, depths, oldId);
    if depth == SameExternal {
      assert HasKey(left, oldId, KeyOf(left[oldId], SameExternal).value, SameExternal);
    }
  }

  /** A row with exactly one exact successor is always paired, and with that one. */
  lemma ExactSuccessorWins(successors: Rows, stale: Rows, loose: bool, oldId: string, newId: string)
    requires oldId in stale && oldId !in successors
    requires Replaces(successors, stale - successors.Keys, Exact, oldId, newId)
    ensures oldId in Plan(successors, stale, loose) && Plan(successors, stale, loose)[oldId] == newId
  {
    var rest := stale - successors.Keys;
    var depths := if loose then [Exact, SamePackage, SameExternal] else [Exact];
    var pairs := PairsAt(successors, rest, Exact);
    assert oldId in pairs && pairs[oldId] == newId;
    var later := PlanFrom(successors, rest - pairs.Keys, depths[1..]);
    if oldId in later {
      var _, left := PlanFromPairs(successors, rest - pairs.Keys, depths[1..], oldId);
      assert false;
    }
    assert PlanFrom(successors, rest, depths) == pairs + later;
  }

  // ---- The plan of a catalog refresh ----

  function RowOf(c: Content): PlanRow {
    PlanRow(c.externalId, c.packageId, c.packageVersion)
  }

  /** The incoming rows that name an external id. */
  function Incoming(latest: map<string, Content>): Rows {
    map id | id in latest && latest[id].externalId.Some? :: RowOf(latest[id])
  }

  /** Stored rows with an external id that were not among the incoming ones. */
  function NotIncoming(cat: Catalog, latest: map<string, Content>): Rows {
    map id | id in cat && id !in latest && cat[id].content.externalId.Some? :: RowOf(cat[id].content)
  }

  /** Stale rows whose external id some successor has. */
  function WithSuccessor(successors: Rows, stale: Rows): Rows {
    map id | id in stale && (exists s :: s in successors && successors[s].externalId == stale[id].externalId)
      :: stale[id]
  }

  /** Without the full catalog, only passports new to the database replace, and only by an exact key. */
  function Replacements(
    cat: Catalog, latest: map<string, Content>, known: set<string>, fullCatalog: bool): map<string, string>
  {
    if fullCatalog then Plan(Incoming(latest), NotIncoming(cat, latest), true)
    else
      var successors := Incoming(latest) - known;
      var stale := NotIncoming(cat, latest);
      Plan(successors, WithSuccessor(successors, stale), false)
  }

  /** Stored passports are replaced by incoming ones that carry the same external id. */
  lemma ReplacementsAreIncoming(cat: Catalog, latest: map<string, Content>, known: set<string>, fullCatalog: bool)
    ensures var plan := Replacements(cat, latest, known, fullCatalog);
      forall oldId :: oldId in plan ==>
        && oldId in cat && oldId !in latest && plan[oldId] in latest
        && cat[oldId].content.externalId.Some? && cat[oldId].content.externalId == latest[plan[oldId]].externalId
        && (!fullCatalog ==> plan[oldId] !in known)
  {
    var plan := Replacements(cat, latest, known, fullCatalog);
    forall oldId | oldId in plan
      ensures oldId in cat && oldId !in latest && plan[oldId] in latest
      ensures cat[oldId].content.externalId.Some? && cat[oldId].content.externalId == latest[plan[oldId]].externalId
      ensures !fullCatalog ==> plan[oldId] !in known
    {
      if fullCatalog {
        PlannedPair(Incoming(latest), NotIncoming(cat, latest), true, oldId);
      } else {
        var successors := Incoming(latest) - known;
        var stale := NotIncoming(cat, latest);
        PlannedPair(successors, WithSuccessor(successors, stale), false, oldId);
      }
    }
  }
}
