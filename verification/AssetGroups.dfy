/**
 Local asset groups: a parent hierarchy guarded by a walk up from the proposed parent. Ids reach the functions
 as text. The walk compares texts; the table reads them as UUIDs, of which each has many texts, and shows one of them.
 */
module AssetGroups {
  import opened Wrappers
  import T = Text
  import AssetQueryTree
  import Uuid

  datatype Group = Group(
    parent: Option<string>, name: string, description: string, query: AssetQueryTree.Node, version: nat, archived: bool)

  type Groups = map<string, Group>

  datatype GroupError =
    | OwnParent | Cycle | ParentNotFound | InvalidQuery(error: AssetQueryTree.QueryError)
    | NotAnId | DuplicateName

  /** The text is one that the table reads as an id. */
  predicate Reads(id: string) {
    Uuid.Read(id).Some?
  }

  /** The stored text of the id that a text spells. */
  function Canon(id: string): string {
    if Reads(id) then Uuid.Read(id).value else id
  }

  lemma CanonIsStored(id: string)
    ensures Canon(Canon(id)) == Canon(id) && (Reads(Canon(id)) <==> Reads(id))
  {
    if Reads(id) {
      Uuid.ReadIsShown(id);
    }
  }

  /** Ids are stored as they are shown, and parents exist (the foreign key). */
  predicate Stored(groups: Groups) {
    && (forall id :: id in groups ==> Reads(id) && Canon(id) == id)
    && (forall id :: id in groups && groups[id].parent.Some? ==> groups[id].parent.value in groups)
  }

  const NO_PARENT: string := "00000000-0000-0000-0000-000000000000"

  /** What the index compares: COALESCE(parent_id, the zero UUID) and LOWER(name). */
  function SiblingKey(g: Group): (string, string) {
    (if g.parent.Some? then g.parent.value else NO_PARENT, T.Lower(g.name))
  }

  /** Another active group has the key. */
  predicate Taken(groups: Groups, id: string, g: Group) {
    exists other :: other in groups && other != id && !groups[other].archived &&
      SiblingKey(groups[other]) == SiblingKey(g)
  }

  /** Active siblings differ in name (the unique index). */
  predicate UniqueNames(groups: Groups) {
    forall a, b :: a in groups && b in groups && a != b && !groups[a].archived && !groups[b].archived ==>
      SiblingKey(groups[a]) != SiblingKey(groups[b])
  }

  // ---- The hierarchy ----

  /** `n` parents up from a group. */
  function Up(groups: Groups, id: string, n: nat): Option<string>
    decreases n
  {
    if n == 0 then Some(id)
    else if id in groups && groups[id].parent.Some? then Up(groups, groups[id].parent.value, n - 1)
    else None
  }

  /** No group is its own ancestor. */
  ghost predicate Forest(groups: Groups) {
    forall id, n: nat :: id in groups && n > 0 ==> Up(groups, id, n) != Some(id)
  }

  /** The id is not met on the way up, the start included. */
  ghost predicate NotAbove(groups: Groups, start: string, id: string) {
    forall n: nat :: Up(groups, start, n) != Some(id)
  }

  /** The start and all its ancestors are there and not archived. */
  ghost predicate ActiveAbove(groups: Groups, start: string) {
    forall n: nat :: Up(groups, start, n).Some? ==>
      Up(groups, start, n).value in groups && !groups[Up(groups, start, n).value].archived
  }

  lemma {:induction false} UpAdd(groups: Groups, id: string, m: nat, n: nat)
    requires Up(groups, id, m).Some?
    ensures Up(groups, id, m + n) == Up(groups, Up(groups, id, m).value, n)
    decreases m
  {
    if m > 0 {
      UpAdd(groups, groups[id].parent.value, m - 1, n);
    }
  }

  /** Two hierarchies that differ in one group agree on every way up that does not pass it. */
  lemma {:induction false} UpAvoiding(groups: Groups, groups': Groups, changed: string, id: string, n: nat)
    requires forall other :: other != changed ==> (other in groups <==> other in groups')
    requires forall other :: other in groups && other != changed ==> groups'[other].parent == groups[other].parent
    requires forall k: nat :: k < n ==> Up(groups, id, k) != Some(changed)
    ensures Up(groups', id, n) == Up(groups, id, n)
    decreases n
  {
    if n > 0 {
      assert Up(groups, id, 0) == Some(id);
      if id in groups && groups[id].parent.Some? {
        forall k: nat | k < n - 1
          ensures Up(groups, groups[id].parent.value, k) != Some(changed)
        {
          assert Up(groups, id, k + 1) == Up(groups, groups[id].parent.value, k);
        }
        UpAvoiding(groups, groups', changed, groups[id].parent.value, n - 1);
      }
    }
  }

  /** Hanging a group under a parent that it is not above keeps a forest. */
  lemma NewParentKeepsForest(groups: Groups, id: string, g: Group)
    requires Forest(groups)
    requires g.parent.Some? ==> NotAbove(groups, g.parent.value, id)
    ensures Forest(groups[id := g])
  {
    var groups' := groups[id := g];
    forall x, n: nat | x in groups' && n > 0
      ensures Up(groups', x, n) != Some(x)
    {
      if Up(groups', x, n) == Some(x) {
        if k: nat :| k < n && Up(groups', x, k) == Some(id) {
          UpAdd(groups', x, n, k);
          UpAdd(groups', x, k, n);
          NeverBackToChanged(groups, id, g, n);
        } else {
          UpAvoiding(groups', groups, id, x, n);
        }
      }
    }
  }

  lemma NeverBackToChanged(groups: Groups, id: string, g: Group, n: nat)
    requires n > 0 && (g.parent.Some? ==> NotAbove(groups, g.parent.value, id))
    ensures Up(groups[id := g], id, n) != Some(id)
  {
    if g.parent.Some? {
      UpAvoiding(groups, groups[id := g], id, g.parent.value, n - 1);
    }
  }

  // ---- The walk ----

  /** Follows the parents as long as they are there, not archived, and of a text not seen before. */
  function Walk(groups: Groups, seen: set<string>, candidate: Option<string>): Option<GroupError>
    requires Stored(groups)
    decreases |groups.Keys - seen|, if candidate.Some? && Canon(candidate.value) != candidate.value then 1 else 0
  {
    if candidate.None? then None
    else if candidate.value in seen then Some(Cycle)
    else if !Reads(candidate.value) then Some(NotAnId)
    else if Canon(candidate.value) !in groups || groups[Canon(candidate.value)].archived then Some(ParentNotFound)
    else
      SeenGrows(groups.Keys, seen, candidate.value);
      Walk(groups, seen + {candidate.value}, groups[Canon(candidate.value)].parent)
  }

  lemma SeenGrows(ids: set<string>, seen: set<string>, id: string)
    ensures |ids - (seen + {id})| <= |ids - seen|
    ensures id in ids && id !in seen ==> |ids - (seen + {id})| < |ids - seen|
  {
    if id in ids && id !in seen {
      assert ids - seen == (ids - (seen + {id})) + {id};
    } else {
      assert ids - (seen + {id}) == ids - seen;
    }
  }

  /** A walk that succeeds met only active groups, and none whose text was seen before. */
  lemma {:induction false} WalkMeets(groups: Groups, seen: set<string>, candidate: string, n: nat)
    requires Stored(groups) && Walk(groups, seen, Some(candidate)).None?
    requires Up(groups, Canon(candidate), n).Some?
    ensures var met := Up(groups, Canon(candidate), n).value;
      && met in groups && !groups[met].archived
      && (if n == 0 then candidate else met) !in seen
    decreases n
  {
    hide Canon;
    hide Reads;
    var id := Canon(candidate);
    if n > 0 {
      WalkMeets(groups, seen + {candidate}, groups[id].parent.value, n - 1);
    }
  }

  /** On the way up the walk compares the given text first, then stored ids; none of them is among the seen. */
  ghost predicate Unseen(groups: Groups, seen: set<string>, candidate: string) {
    && candidate !in seen
    && forall n: nat :: n > 0 && Up(groups, Canon(candidate), n).Some? ==>
        Up(groups, Canon(candidate), n).value !in seen
  }

  /** In a forest the walk never meets a text twice, so it succeeds if nothing else is in the way. */
  lemma {:induction false} WalkSucceeds(groups: Groups, seen: set<string>, candidate: string)
    requires Stored(groups) && Forest(groups)
    requires ActiveAbove(groups, Canon(candidate)) && Unseen(groups, seen, candidate)
    ensures Walk(groups, seen, Some(candidate)).None?
    decreases |groups.Keys - seen|, if Canon(candidate) != candidate then 1 else 0
  {
    var id := Canon(candidate);
    assert Up(groups, id, 0) == Some(id);
    if groups[id].parent.Some? {
      var next := groups[id].parent.value;
      assert forall n: nat :: Up(groups, id, n + 1) == Up(groups, next, n);
      assert Up(groups, next, 0) == Some(next);
      assert Up(groups, id, 1) == Some(next);
      forall n: nat | Up(groups, next, n).Some?
        ensures Up(groups, next, n).value !in seen + {candidate}
        ensures Up(groups, next, n).value in groups && !groups[Up(groups, next, n).value].archived
      {
        assert Up(groups, id, n + 1) == Up(groups, next, n);
      }
      SeenGrows(groups.Keys, seen, candidate);
      WalkSucceeds(groups, seen + {candidate}, next);
    }
  }

  /**
   Exactly which parents a walk accepts for a group given by some text: those with an active ancestor chain in
   which the text does not occur, the parent compared as it was given and its ancestors as they are stored.
   */
  lemma WalkAcceptsExactly(groups: Groups, group: string, candidate: string)
    requires Stored(groups) && Forest(groups)
    ensures Walk(groups, {group}, Some(candidate)).None?
       <==> ActiveAbove(groups, Canon(candidate)) && Unseen(groups, {group}, candidate)
  {
    if Walk(groups, {group}, Some(candidate)).None? {
      forall n: nat | Up(groups, Canon(candidate), n).Some?
        ensures Up(groups, Canon(candidate), n).value in groups
          && !groups[Up(groups, Canon(candidate), n).value].archived
        ensures n > 0 ==> Up(groups, Canon(candidate), n).value !in {group}
      {
        WalkMeets(groups, {group}, candidate, n);
      }
    } else if ActiveAbove(groups, Canon(candidate)) && Unseen(groups, {group}, candidate) {
      WalkSucceeds(groups, {group}, candidate);
    }
  }

  // ---- The operations ----

  /** What a PATCH names; `parent` may be given as null, and nulls elsewhere are as if not given. */
  datatype Changes = Changes(
    parent: Option<Option<string>>, name: Option<string>, description: Option<string>,
    query: Option<AssetQueryTree.Node>)

  const NO_CHANGES: Changes := Changes(None, None, None, None)

  function CanonOf(parent: Option<string>): Option<string> {
    if parent.Some? then Some(Canon(parent.value)) else None
  }

  function ChangedGroup(g: Group, c: Changes): Group {
    g.(parent := if c.parent.Some? then CanonOf(c.parent.value) else g.parent,
       name := if c.name.Some? then T.Trim(c.name.value) else g.name,
       description := if c.description.Some? then T.Trim(c.description.value) else g.description,
       query := if c.query.Some? then c.query.value else g.query,
       version := if c.query.Some? then g.version + 1 else g.version)
  }

  predicate IsActive(groups: Groups, id: string) {
    Canon(id) in groups && !groups[Canon(id)].archived
  }

  /** The reason to refuse an update, if there is one; the last two come from the table. */
  function Refusal(groups: Groups, id: string, c: Changes): Option<GroupError>
    requires Stored(groups)
  {
    if c.parent == Some(Some(id)) then Some(OwnParent)
    else if c.query.Some? && AssetQueryTree.Accepted(c.query.value).Err? then
      Some(InvalidQuery(AssetQueryTree.Accepted(c.query.value).error))
    else if c.parent.Some? && Walk(groups, {id}, c.parent.value).Some? then Walk(groups, {id}, c.parent.value)
    else if !Reads(id) then Some(NotAnId)
    else if IsActive(groups, id) && c != NO_CHANGES && Taken(groups, Canon(id), ChangedGroup(groups[Canon(id)], c)) then
      Some(DuplicateName)
    else None
  }

  function Updated(groups: Groups, id: string, c: Changes): Groups
    requires Stored(groups)
  {
    if Refusal(groups, id, c).None? && IsActive(groups, id)
    then groups[Canon(id) := ChangedGroup(groups[Canon(id)], c)]
    else groups
  }

  function NewGroup(parent: Option<string>, name: string, description: string, query: AssetQueryTree.Node): Group {
    Group(CanonOf(parent), T.Trim(name), T.Trim(description), query, 1, false)
  }

  /** The reason to refuse a new group, if there is one. */
  function CreateRefusal(
    groups: Groups, id: string, parent: Option<string>, name: string, query: AssetQueryTree.Node): Option<GroupError>
    requires Stored(groups)
  {
    if AssetQueryTree.Accepted(query).Err? then Some(InvalidQuery(AssetQueryTree.Accepted(query).error))
    else if Walk(groups, {id}, parent).Some? then Walk(groups, {id}, parent)
    else if Taken(groups, id, NewGroup(parent, name, "", query)) then Some(DuplicateName)
    else None
  }

  function Created(
    groups: Groups, id: string, parent: Option<string>, name: string, description: string,
    query: AssetQueryTree.Node): Groups
    requires Stored(groups)
  {
    if CreateRefusal(groups, id, parent, name, query).None?
    then groups[id := NewGroup(parent, name, description, query)]
    else groups
  }

  function Archived(groups: Groups, id: string): Groups {
    if IsActive(groups, id) then groups[Canon(id) := groups[Canon(id)].(archived := true)] else groups
  }

  // ---- When an update keeps the hierarchy a forest ----

  /**
   The two texts are equal, one of them is no id, or the group's text is the stored one and the parent's spells
   another id.
   */
  predicate SafeSpelling(id: string, parent: string) {
    id == parent || !Reads(id) || !Reads(parent) || (Canon(id) == id && Canon(parent) != id)
  }

  predicate SafeChanges(id: string, c: Changes) {
    c.parent.Some? && c.parent.value.Some? ==> SafeSpelling(id, c.parent.value.value)
  }

  lemma AcceptedParentIsActive(groups: Groups, id: string, parent: Option<string>)
    requires Stored(groups) && Walk(groups, {id}, parent).None?
    ensures parent.Some? ==> ActiveAbove(groups, Canon(parent.value)) && Canon(parent.value) in groups
  {
    if parent.Some? {
      forall n: nat | Up(groups, Canon(parent.value), n).Some?
        ensures Up(groups, Canon(parent.value), n).value in groups
        ensures !groups[Up(groups, Canon(parent.value), n).value].archived
      {
        WalkMeets(groups, {id}, parent.value, n);
      }
      assert Up(groups, Canon(parent.value), 0) == Some(Canon(parent.value));
    }
  }

  /** An update spelled safely keeps the hierarchy a forest, and every parent it sets had only active ancestors. */
  lemma SafeUpdateKeepsForest(groups: Groups, id: string, c: Changes)
    requires Stored(groups) && Forest(groups) && SafeChanges(id, c)
    ensures Stored(Updated(groups, id, c)) && Forest(Updated(groups, id, c))
    ensures Updated(groups, id, c) != groups && c.parent.Some? && c.parent.value.Some? ==>
              ActiveAbove(groups, Canon(c.parent.value.value))
  {
    hide Canon;
    hide Reads;
    hide Taken;
    CanonIsStored(id);
    UpdateStaysStored(groups, id, c);
    if Refusal(groups, id, c).None? && IsActive(groups, id) {
      var g := ChangedGroup(groups[Canon(id)], c);
      if c.parent.Some? {
        AcceptedParentIsActive(groups, id, c.parent.value);
      }
      if c.parent.Some? && c.parent.value.Some? {
        var parent := Canon(c.parent.value.value);
        forall n: nat
          ensures Up(groups, parent, n) != Some(Canon(id))
        {
          if Up(groups, parent, n) == Some(Canon(id)) {
            WalkMeets(groups, {id}, c.parent.value.value, n);
          }
        }
      } else if c.parent.None? && g.parent.Some? {
        forall n: nat
          ensures Up(groups, g.parent.value, n) != Some(Canon(id))
        {
          assert Up(groups, Canon(id), n + 1) == Up(groups, g.parent.value, n);
        }
      }
      NewParentKeepsForest(groups, Canon(id), g);
    }
  }

  /** Any other spelling breaks some forest: the update is accepted and makes a group its own ancestor. */
  lemma UnsafeSpellingBreaksForest(id: string, parent: string, g: Group) returns (groups: Groups)
    requires !SafeSpelling(id, parent)
    ensures Stored(groups) && Forest(groups) && UniqueNames(groups)
    ensures var c := Changes(Some(Some(parent)), None, None, None);
      Refusal(groups, id, c).None? && !Forest(Updated(groups, id, c))
  {
    hide Reads;
    hide Canon;
    hide SiblingKey;
    var a, b := Canon(id), Canon(parent);
    CanonIsStored(id);
    CanonIsStored(parent);
    var root := g.(parent := None, archived := false);
    if a == b {
      groups := map[a := root];
      OnlyRoots(groups);
      OwnIdBreaksForest(groups, id, parent);
    } else {
      var child := root.(parent := Some(a), name := root.name + "'");
      ChildNameDiffers(root, child);
      groups := map[a := root, b := child];
      OneChildIsForest(a, b, root, child);
      ChildBreaksForest(groups, id, parent);
    }
  }

  lemma ChildNameDiffers(root: Group, child: Group)
    requires child.name == root.name + "'"
    ensures SiblingKey(root).1 != SiblingKey(child).1
  {
    assert |T.Lower(root.name)| != |T.Lower(child.name)|;
  }

  lemma OneChildIsForest(a: string, b: string, root: Group, child: Group)
    requires a != b && root.parent.None? && child.parent == Some(a)
    ensures Forest(map[a := root, b := child])
  {
    var roots := map[a := root];
    OnlyRoots(roots);
    forall n: nat
      ensures Up(roots, a, n) != Some(b)
    {
    }
    NewParentKeepsForest(roots, b, child);
    assert roots[b := child] == map[a := root, b := child];
  }

  /** The group itself in another spelling. */
  lemma OwnIdBreaksForest(groups: Groups, id: string, parent: string)
    requires Stored(groups) && groups.Keys == {Canon(id)}
      && groups[Canon(id)].parent.None? && !groups[Canon(id)].archived
    requires Reads(id) && Reads(parent) && id != parent && Canon(parent) == Canon(id)
    ensures var c := Changes(Some(Some(parent)), None, None, None);
      Refusal(groups, id, c).None? && !Forest(Updated(groups, id, c))
  {
    hide Reads;
    hide Canon;
    var a, c := Canon(id), Changes(Some(Some(parent)), None, None, None);
    assert Walk(groups, {id} + {parent}, None).None?;
    assert Walk(groups, {id}, Some(parent)).None?;
    var after := Updated(groups, id, c);
    assert after[a].parent == Some(a);
    assert Up(after, a, 0) == Some(a);
    assert Up(after, a, 1) == Some(a);
  }

  /** A child of a group that is given in another text than the stored one. */
  lemma ChildBreaksForest(groups: Groups, id: string, parent: string)
    requires Stored(groups) && groups.Keys == {Canon(id), Canon(parent)} && Canon(id) != Canon(parent)
    requires groups[Canon(id)].parent.None? && groups[Canon(parent)].parent == Some(Canon(id))
    requires !groups[Canon(id)].archived && !groups[Canon(parent)].archived
    requires SiblingKey(groups[Canon(id)]).1 != SiblingKey(groups[Canon(parent)]).1
    requires Reads(id) && Reads(parent) && id != parent && Canon(id) != id
    ensures var c := Changes(Some(Some(parent)), None, None, None);
      Refusal(groups, id, c).None? && !Forest(Updated(groups, id, c))
  {
    hide Reads;
    hide Canon;
    var a, b, c := Canon(id), Canon(parent), Changes(Some(Some(parent)), None, None, None);
    assert Walk(groups, {id} + {parent} + {a}, None).None?;
    assert a != parent;
    assert Walk(groups, {id} + {parent}, Some(a)).None?;
    assert Walk(groups, {id}, Some(parent)).None?;
    var after := Updated(groups, id, c);
    assert after[a].parent == Some(b) && after[b].parent == Some(a);
    assert Up(after, a, 0) == Some(a);
    assert Up(after, b, 1) == Up(after, a, 0);
    assert Up(after, a, 2) == Up(after, b, 1);
  }

  /** Every id has such spellings: its own text in braces, or without hyphens, for its parent. */
  lemma EveryIdHasUnsafeSpellings(d: string)
    requires Uuid.AreDigits(d, Uuid.GROUPS)
    ensures var id := Uuid.Show(d);
      Reads(id) && Canon(id) == id && !SafeSpelling(id, d) && !SafeSpelling(id, "{" + id + "}")
  {
    hide Uuid.Show;
    Uuid.ReadShown(d);
    Uuid.OtherSpellings(d);
  }

  lemma OnlyRoots(groups: Groups)
    requires forall id :: id in groups ==> groups[id].parent.None?
    ensures Forest(groups)
  {
  }

  /** Creation is safe however the parent is spelled: the new id is canonical and nothing hangs under it yet. */
  lemma CreateKeepsForest(
    groups: Groups, id: string, parent: Option<string>, name: string, description: string, query: AssetQueryTree.Node)
    requires Stored(groups) && Forest(groups) && id !in groups && Reads(id) && Canon(id) == id
    ensures Stored(Created(groups, id, parent, name, description, query))
    ensures Forest(Created(groups, id, parent, name, description, query))
  {
    hide Canon;
    hide Reads;
    hide Taken;
    hide Walk;
    if CreateRefusal(groups, id, parent, name, query).None? {
      AcceptedParentIsActive(groups, id, parent);
      if parent.Some? {
        assert NotAbove(groups, Canon(parent.value), id);
      }
      NewParentKeepsForest(groups, id, NewGroup(parent, name, description, query));
    }
  }

  lemma ArchiveKeepsForest(groups: Groups, id: string)
    requires Stored(groups) && Forest(groups)
    ensures Stored(Archived(groups, id)) && Forest(Archived(groups, id))
  {
    CanonIsStored(id);
    if IsActive(groups, id) {
      var g := groups[Canon(id)];
      if g.parent.Some? {
        forall n: nat
          ensures Up(groups, g.parent.value, n) != Some(Canon(id))
        {
          assert Up(groups, Canon(id), n + 1) == Up(groups, g.parent.value, n);
        }
      }
      NewParentKeepsForest(groups, Canon(id), g.(archived := true));
    }
  }

  // ---- Runs ----

  datatype Step =
    | Create(id: string, parent: Option<string>, name: string, description: string, query: AssetQueryTree.Node)
    | Update(id: string, changes: Changes)
    | Archive(id: string)

  /** New ids are fresh and canonical, and updates are spelled safely. */
  predicate Allowed(groups: Groups, s: Step) {
    match s
    case Create(id, _, _, _, _) => id !in groups && Reads(id) && Canon(id) == id
    case Update(id, c) => SafeChanges(id, c)
    case Archive(_) => true
  }

  function Apply(groups: Groups, s: Step): Groups
    requires Stored(groups)
  {
    match s
    case Create(id, parent, name, description, query) => Created(groups, id, parent, name, description, query)
    case Update(id, c) => Updated(groups, id, c)
    case Archive(id) => Archived(groups, id)
  }

  /** A row written with a key of its own keeps the names unique, and so does an archived one. */
  lemma RowKeepsNamesUnique(groups: Groups, id: string, g: Group)
    requires UniqueNames(groups) && (g.archived || !Taken(groups, id, g))
    ensures UniqueNames(groups[id := g])
  {
    hide SiblingKey;
  }

  lemma StepKeepsNamesUnique(groups: Groups, s: Step)
    requires Stored(groups) && UniqueNames(groups)
    ensures UniqueNames(Apply(groups, s))
  {
    hide Canon;
    hide Created;
    hide Updated;
    hide UniqueNames;
    hide Stored;
    match s
    case Create(id, parent, name, description, query) =>
      CreateKeepsNamesUnique(groups, id, parent, name, description, query);
    case Update(id, c) => UpdateKeepsNamesUnique(groups, id, c);
    case Archive(id) =>
      if IsActive(groups, id) {
        RowKeepsNamesUnique(groups, Canon(id), groups[Canon(id)].(archived := true));
      }
  }

  lemma CreateKeepsNamesUnique(
    groups: Groups, id: string, parent: Option<string>, name: string, description: string, query: AssetQueryTree.Node)
    requires Stored(groups) && UniqueNames(groups)
    ensures UniqueNames(Created(groups, id, parent, name, description, query))
  {
    hide Canon;
    hide Taken;
    hide UniqueNames;
    hide Stored;
    hide Walk;
    hide AssetQueryTree.Accepted;
    TakenByKey(groups, id, parent, name, description, query);
    if CreateRefusal(groups, id, parent, name, query).None? {
      RowKeepsNamesUnique(groups, id, NewGroup(parent, name, description, query));
    }
  }

  lemma NoChangesChangeNothing(groups: Groups, id: string)
    requires Stored(groups)
    ensures Updated(groups, id, NO_CHANGES) == groups
  {
    if IsActive(groups, id) {
      assert groups[Canon(id) := groups[Canon(id)]] == groups;
    }
  }

  lemma UpdateKeepsNamesUnique(groups: Groups, id: string, c: Changes)
    requires Stored(groups) && UniqueNames(groups)
    ensures UniqueNames(Updated(groups, id, c))
  {
    hide Canon;
    hide Reads;
    hide Taken;
    hide UniqueNames;
    hide Stored;
    hide Walk;
    hide AssetQueryTree.Accepted;
    if Refusal(groups, id, c).None? && IsActive(groups, id) {
      if c == NO_CHANGES {
        NoChangesChangeNothing(groups, id);
      } else {
        RowKeepsNamesUnique(groups, Canon(id), ChangedGroup(groups[Canon(id)], c));
      }
    }
  }

  /** The description has no part in the key. */
  lemma TakenByKey(
    groups: Groups, id: string, parent: Option<string>, name: string, description: string, query: AssetQueryTree.Node)
    ensures Taken(groups, id, NewGroup(parent, name, description, query))
       == Taken(groups, id, NewGroup(parent, name, "", query))
  {
    assert SiblingKey(NewGroup(parent, name, description, query)) == SiblingKey(NewGroup(parent, name, "", query));
  }

  lemma StepKeepsForest(groups: Groups, s: Step)
    requires Stored(groups) && Forest(groups) && Allowed(groups, s)
    ensures Stored(Apply(groups, s)) && Forest(Apply(groups, s))
  {
    match s
    case Create(id, parent, name, description, query) =>
      CreateKeepsForest(groups, id, parent, name, description, query);
    case Update(id, c) => SafeUpdateKeepsForest(groups, id, c);
    case Archive(id) => ArchiveKeepsForest(groups, id);
  }

  /** A run: each state follows from the one before by an allowed step. */
  ghost predicate IsRun(states: seq<Groups>, steps: seq<Step>) {
    && |states| == |steps| + 1 && states[0] == map[]
    && forall i :: 0 <= i < |steps| ==>
         Stored(states[i]) && Allowed(states[i], steps[i]) && states[i + 1] == Apply(states[i], steps[i])
  }

  /** Over every run no group becomes its own ancestor, and active siblings differ in name. */
  lemma {:induction false} RunsStayForests(states: seq<Groups>, steps: seq<Step>, i: nat)
    requires IsRun(states, steps) && i < |states|
    ensures Stored(states[i]) && Forest(states[i]) && UniqueNames(states[i])
  {
    if i > 0 {
      RunsStayForests(states, steps, i - 1);
      StepKeepsNamesUnique(states[i - 1], steps[i - 1]);
      StepKeepsForest(states[i - 1], steps[i - 1]);
    }
  }

  // ---- The table ----

  class Table {
    var groups: Groups

    ghost predicate Valid()
      reads this
    {
      Stored(groups) && UniqueNames(groups)
    }

    constructor ()
      ensures Valid() && groups == map[]
    {
      groups := map[];
    }

    /** Follows the parents; the set of seen texts ends the loop on any table, even one with a cycle. */
    method CheckParents(id: string, parent: Option<string>) returns (error: Option<GroupError>)
      requires Valid()
      ensures error == Walk(groups, {id}, parent)
    {
      var candidate := parent;
      var seen := {id};
      while candidate.Some?
        invariant Walk(groups, {id}, parent) == Walk(groups, seen, candidate)
        decreases |groups.Keys - seen|, if candidate.Some? && Canon(candidate.value) != candidate.value then 1 else 0
      {
        if candidate.value in seen {
          return Some(Cycle);
        }
        SeenGrows(groups.Keys, seen, candidate.value);
        seen := seen + {candidate.value};
        if !Reads(candidate.value) {
          return Some(NotAnId);
        }
        if !IsActive(groups, candidate.value) {
          return Some(ParentNotFound);
        }
        candidate := groups[Canon(candidate.value)].parent;
      }
      error := None;
    }

    method CreateGroup(id: string, parent: Option<string>, name: string, description: string,
      query: AssetQueryTree.Node)
      returns (r: Result<Group, GroupError>)
      requires Valid() && id !in groups && Reads(id) && Canon(id) == id
      modifies this
      ensures Valid() && groups == Created(old(groups), id, parent, name, description, query)
      ensures old(Forest(groups)) ==> Forest(groups)
      ensures r == match CreateRefusal(old(groups), id, parent, name, query)
                   case Some(error) => Err(error)
                   case None => Ok(NewGroup(parent, name, description, query))
    {
      if Forest(groups) {
        CreateKeepsForest(groups, id, parent, name, description, query);
      }
      CreateKeepsNamesUnique(groups, id, parent, name, description, query);
      var accepted := AssetQueryTree.Accepted(query);
      if accepted.Err? {
        return Err(InvalidQuery(accepted.error));
      }
      var error := CheckParents(id, parent);
      if error.Some? {
        return Err(error.value);
      }
      AcceptedParentIsActive(groups, id, parent);
      if Taken(groups, id, NewGroup(parent, name, description, query)) {
        return Err(DuplicateName);
      }
      groups := groups[id := NewGroup(parent, name, description, query)];
      r := Ok(groups[id]);
    }

    method UpdateGroup(id: string, c: Changes) returns (r: Result<Option<Group>, GroupError>)
      requires Valid()
      modifies this
      ensures Valid() && groups == Updated(old(groups), id, c)
      ensures old(Forest(groups)) && SafeChanges(id, c) ==> Forest(groups)
      ensures r == match Refusal(old(groups), id, c)
                   case Some(error) => Err(error)
                   case None => Ok(Answer(groups, id, c))
    {
      hide Canon;
      hide Reads;
      hide Forest;
      hide SafeChanges;
      hide Taken;
      hide UniqueNames;
      hide Walk;
      if Forest(groups) && SafeChanges(id, c) {
        SafeUpdateKeepsForest(groups, id, c);
      }
      UpdateKeepsNamesUnique(groups, id, c);
      UpdateStaysStored(groups, id, c);
      CanonIsStored(id);
      if c.parent == Some(Some(id)) {
        return Err(OwnParent);
      }
      if c.query.Some? && AssetQueryTree.Accepted(c.query.value).Err? {
        return Err(InvalidQuery(AssetQueryTree.Accepted(c.query.value).error));
      }
      if c == NO_CHANGES {
        NoChangesChangeNothing(groups, id);
        return if Reads(id) then Ok(Answer(groups, id, c)) else Err(NotAnId);
      }
      if c.parent.Some? {
        var error := CheckParents(id, c.parent.value);
        if error.Some? {
          return Err(error.value);
        }
      }
      if !Reads(id) {
        return Err(NotAnId);
      }
      if !IsActive(groups, id) {
        return Ok(None);
      }
      var changed := ChangedGroup(groups[Canon(id)], c);
      if Taken(groups, Canon(id), changed) {
        return Err(DuplicateName);
      }
      groups := groups[Canon(id) := changed];
      r := Ok(Some(groups[Canon(id)]));
    }

    method ArchiveGroup(id: string) returns (r: Result<bool, GroupError>)
      requires Valid()
      modifies this
      ensures Valid() && groups == Archived(old(groups), id)
      ensures old(Forest(groups)) ==> Forest(groups)
      ensures r == if Reads(id) then Ok(IsActive(old(groups), id)) else Err(NotAnId)
    {
      if Forest(groups) {
        ArchiveKeepsForest(groups, id);
      }
      StepKeepsNamesUnique(groups, Archive(id));
      CanonIsStored(id);
      if !Reads(id) {
        return Err(NotAnId);
      }
      r := Ok(IsActive(groups, id));
      if r.value {
        groups := groups[Canon(id) := groups[Canon(id)].(archived := true)];
      }
    }
  }

  /** The group returned: without any change whatever is stored, otherwise the changed row. */
  function Answer(groups: Groups, id: string, c: Changes): Option<Group> {
    if Canon(id) in groups && (c == NO_CHANGES || !groups[Canon(id)].archived) then Some(groups[Canon(id)]) else None
  }

  lemma UpdateStaysStored(groups: Groups, id: string, c: Changes)
    requires Stored(groups)
    ensures Stored(Updated(groups, id, c))
  {
    hide Canon;
    hide Reads;
    hide Taken;
    hide Walk;
    CanonIsStored(id);
    if c.parent.Some? && Walk(groups, {id}, c.parent.value).None? {
      AcceptedParentIsActive(groups, id, c.parent.value);
    }
  }
}
