/**
 User and role administration: whatever is created, changed and deleted, an active administrator remains.
 */
module UserAdmin {
  import opened Wrappers
  import Sets

  datatype User = User(username: string, active: bool)

  /** System roles carry a key; custom roles have none. */
  datatype Role = Role(key: Option<string>, name: string, system: bool)

  datatype Accounts = Accounts(users: map<int, User>, roles: map<int, Role>, grants: set<(int, int)>)

  datatype Error =
    | SelfDisable | SelfDemote | SelfDelete | LastAdmin | UserNotFound | InvalidRoles | UsernameExists
    | RoleNotFound | SystemRoleImmutable | RoleAssigned

  // ---- What the tables guarantee ----

  /** Role keys are unique, references resolve, and the administrator role is a system role. */
  predicate Stored(acc: Accounts) {
    && (forall a, b :: a in acc.roles && b in acc.roles && a != b && acc.roles[a].key.Some? ==>
          acc.roles[a].key != acc.roles[b].key)
    && (forall x :: x in acc.grants ==> x.0 in acc.users && x.1 in acc.roles)
    && (forall r :: r in acc.roles && IsAdminRole(acc, r) ==> acc.roles[r].system)
  }

  predicate IsAdminRole(acc: Accounts, role: int) {
    role in acc.roles && acc.roles[role].key == Some("admin")
  }

  predicate HoldsAdmin(acc: Accounts, user: int) {
    exists x :: x in acc.grants && x.0 == user && IsAdminRole(acc, x.1)
  }

  /** Users that are active and hold the administrator role. */
  function ActiveAdmins(acc: Accounts): set<int> {
    set u | u in acc.users && acc.users[u].active && HoldsAdmin(acc, u)
  }

  predicate HasAdmin(acc: Accounts) {
    ActiveAdmins(acc) != {}
  }

  // ---- Users ----

  /** The requested roles; a legacy role name replaces the ids, by nothing when it is unknown. */
  function ResolveRoles(acc: Accounts, ids: seq<int>, legacy: Option<string>): Option<set<int>> {
    var wanted :=
      if legacy.Some? && legacy.value != "" then set r | r in acc.roles && acc.roles[r].key == legacy
      else set r | r in ids;
    if wanted <= acc.roles.Keys then Some(wanted) else None
  }

  function WithRoles(grants: set<(int, int)>, user: int, roles: set<int>): set<(int, int)> {
    (set x | x in grants && x.0 != user) + (set r | r in roles :: (user, r))
  }

  function AfterCreateUser(
    acc: Accounts, id: int, username: string, ids: seq<int>, legacy: Option<string>): Result<Accounts, Error>
  {
    match ResolveRoles(acc, ids, legacy)
    case None => Err(InvalidRoles)
    case Some(roles) =>
      if exists u :: u in acc.users && acc.users[u].username == username then Err(UsernameExists)
      else Ok(acc.(users := acc.users[id := User(username, true)], grants := WithRoles(acc.grants, id, roles)))
  }

  /** What an update names: `roleIds` and `legacy` ask for new roles, `active` for a new state. */
  datatype Changes = Changes(roleIds: Option<seq<int>>, legacy: Option<string>, active: Option<bool>)

  predicate AsksForRoles(c: Changes) {
    c.roleIds.Some? || (c.legacy.Some? && c.legacy.value != "")
  }

  predicate RemovesAdmin(acc: Accounts, user: int, c: Changes, requested: Option<set<int>>) {
    HoldsAdmin(acc, user) &&
    (c.active == Some(false) || (requested.Some? && !exists r :: r in requested.value && IsAdminRole(acc, r)))
  }

  function AfterUpdateUser(acc: Accounts, user: int, c: Changes, actor: int): Result<Accounts, Error> {
    if user == actor && c.active == Some(false) then Err(SelfDisable)
    else if user !in acc.users then Err(UserNotFound)
    else
      var resolved := ResolveRoles(acc, if c.roleIds.Some? then c.roleIds.value else [], c.legacy);
      if AsksForRoles(c) && resolved.None? then Err(InvalidRoles)
      else
        var requested := if AsksForRoles(c) then resolved else None;
        if user == actor && requested.Some? && RemovesAdmin(acc, user, c, requested) then Err(SelfDemote)
        else if RemovesAdmin(acc, user, c, requested) && |ActiveAdmins(acc)| <= 1 then Err(LastAdmin)
        else
          var row := acc.users[user];
          Ok(acc.(users := acc.users[user := if c.active.Some? then row.(active := c.active.value) else row],
                  grants := if requested.Some? then WithRoles(acc.grants, user, requested.value) else acc.grants))
  }

  /** The rows of the join over users, their assignments and the administrator role; nothing makes them distinct. */
  function AdminRows(acc: Accounts): set<(int, int)> {
    set x | x in acc.grants && x.0 in acc.users && acc.users[x.0].active && IsAdminRole(acc, x.1)
  }

  function AfterDeleteUser(acc: Accounts, user: int, actor: int): Result<Accounts, Error> {
    if user == actor then Err(SelfDelete)
    else if user !in acc.users then Err(UserNotFound)
    else if (exists x :: x in AdminRows(acc) && x.0 == user) && |AdminRows(acc)| <= 1 then Err(LastAdmin)
    else Ok(acc.(users := acc.users - {user}, grants := set x | x in acc.grants && x.0 != user))
  }

  // ---- Roles ----

  function AfterCloneRole(acc: Accounts, id: int, source: int, name: string): Result<Accounts, Error> {
    if source !in acc.roles then Err(RoleNotFound)
    else Ok(acc.(roles := acc.roles[id := Role(None, name, false)]))
  }

  function AfterUpdateRole(acc: Accounts, role: int, name: Option<string>): Result<Accounts, Error> {
    if role !in acc.roles then Err(RoleNotFound)
    else if acc.roles[role].system then Err(SystemRoleImmutable)
    else Ok(if name.Some? then acc.(roles := acc.roles[role := acc.roles[role].(name := name.value)]) else acc)
  }

  function AfterDeleteRole(acc: Accounts, role: int): Result<Accounts, Error> {
    if role !in acc.roles then Err(RoleNotFound)
    else if acc.roles[role].system then Err(SystemRoleImmutable)
    else if exists x :: x in acc.grants && x.1 == role then Err(RoleAssigned)
    else Ok(acc.(roles := acc.roles - {role}))
  }

  // ---- Every operation leaves an active administrator ----

  /** An administrator whom nothing touched is still one. */
  lemma StillAdmin(acc: Accounts, acc': Accounts, user: int)
    requires user in ActiveAdmins(acc)
    requires user in acc'.users && acc'.users[user].active
    requires forall x :: x in acc.grants && x.0 == user && IsAdminRole(acc, x.1) ==>
      x in acc'.grants && IsAdminRole(acc', x.1)
    ensures user in ActiveAdmins(acc')
  {
  }

  lemma AnotherOf(admins: set<int>, user: int) returns (other: int)
    requires |admins| > 1
    ensures other in admins && other != user
  {
    assert |admins - {user}| >= |admins| - 1;
    Sets.HasElement(admins - {user});
    other :| other in admins - {user};
  }

  /** With unique keys there is one row for each administrator. */
  lemma AdminRowsCount(acc: Accounts)
    requires Stored(acc)
    ensures |AdminRows(acc)| == |ActiveAdmins(acc)|
    ensures forall u :: u in ActiveAdmins(acc) <==> exists x :: x in AdminRows(acc) && x.0 == u
  {
    OnePerUser(AdminRows(acc), ActiveAdmins(acc));
  }

  lemma {:induction false} OnePerUser(rows: set<(int, int)>, users: set<int>)
    requires forall x, y :: x in rows && y in rows ==> x.1 == y.1
    requires forall u :: u in users <==> exists x :: x in rows && x.0 == u
    ensures |rows| == |users|
    decreases rows
  {
    if rows == {} {
      if users != {} {
        Sets.HasElement(users);
        assert false;
      }
    } else {
      var x :| x in rows;
      var rest := rows - {x};
      forall u
        ensures u in users - {x.0} <==> exists y :: y in rest && y.0 == u
      {
        if u in users - {x.0} {
          var y :| y in rows && y.0 == u;
          assert y in rest;
        }
      }
      OnePerUser(rest, users - {x.0});
      assert rows == rest + {x} && users == users - {x.0} + {x.0};
    }
  }

  lemma CreateUserKeepsAdmin(acc: Accounts, id: int, username: string, ids: seq<int>, legacy: Option<string>)
    requires Stored(acc) && HasAdmin(acc) && id !in acc.users
    ensures var r := AfterCreateUser(acc, id, username, ids, legacy);
      r.Ok? ==> Stored(r.value) && HasAdmin(r.value)
  {
  }

  /** Updating a user never takes the last active administrator. */
  lemma UpdateUserKeepsAdmin(acc: Accounts, user: int, c: Changes, actor: int)
    requires Stored(acc) && HasAdmin(acc)
    ensures var r := AfterUpdateUser(acc, user, c, actor);
      r.Ok? ==> Stored(r.value) && HasAdmin(r.value)
  {
    var r := AfterUpdateUser(acc, user, c, actor);
    if r.Ok? {
      var admin :| admin in ActiveAdmins(acc);
      var requested := if AsksForRoles(c)
        then ResolveRoles(acc, if c.roleIds.Some? then c.roleIds.value else [], c.legacy) else None;
      if user in ActiveAdmins(acc) && RemovesAdmin(acc, user, c, requested) {
        admin := AnotherOf(ActiveAdmins(acc), user);
      }
      if admin != user || requested.None? {
        StillAdmin(acc, r.value, admin);
      } else {
        var role :| role in requested.value && IsAdminRole(acc, role);
        assert (user, role) in r.value.grants && IsAdminRole(r.value, role);
        assert user in ActiveAdmins(r.value);
      }
    }
  }

  lemma DeleteUserKeepsAdmin(acc: Accounts, user: int, actor: int)
    requires Stored(acc) && HasAdmin(acc)
    ensures var r := AfterDeleteUser(acc, user, actor);
      r.Ok? ==> Stored(r.value) && HasAdmin(r.value)
  {
    var r := AfterDeleteUser(acc, user, actor);
    if r.Ok? {
      AdminRowsCount(acc);
      var admin :| admin in ActiveAdmins(acc);
      if user in ActiveAdmins(acc) {
        admin := AnotherOf(ActiveAdmins(acc), user);
      }
      StillAdmin(acc, r.value, admin);
    }
  }

  lemma RoleChangesKeepAdmin(acc: Accounts, id: int, role: int, name: string, newName: Option<string>)
    requires Stored(acc) && HasAdmin(acc) && id !in acc.roles
    ensures var r := AfterCloneRole(acc, id, role, name); r.Ok? ==> Stored(r.value) && HasAdmin(r.value)
    ensures var r := AfterUpdateRole(acc, role, newName); r.Ok? ==> Stored(r.value) && HasAdmin(r.value)
    ensures var r := AfterDeleteRole(acc, role); r.Ok? ==> Stored(r.value) && HasAdmin(r.value)
  {
  }

  // ---- Runs ----

  datatype Step =
    | CreateUser(id: int, username: string, ids: seq<int>, legacy: Option<string>)
    | UpdateUser(user: int, changes: Changes, actor: int)
    | DeleteUser(target: int, deleter: int)
    | CloneRole(newRole: int, source: int, name: string)
    | UpdateRole(role: int, newName: Option<string>)
    | DeleteRole(gone: int)

  /** New rows get new ids. */
  predicate Fresh(acc: Accounts, s: Step) {
    (s.CreateUser? ==> s.id !in acc.users) && (s.CloneRole? ==> s.newRole !in acc.roles)
  }

  function After(acc: Accounts, s: Step): Result<Accounts, Error> {
    match s
    case CreateUser(id, username, ids, legacy) => AfterCreateUser(acc, id, username, ids, legacy)
    case UpdateUser(user, c, actor) => AfterUpdateUser(acc, user, c, actor)
    case DeleteUser(user, actor) => AfterDeleteUser(acc, user, actor)
    case CloneRole(id, source, name) => AfterCloneRole(acc, id, source, name)
    case UpdateRole(role, name) => AfterUpdateRole(acc, role, name)
    case DeleteRole(role) => AfterDeleteRole(acc, role)
  }

  /** A refused step changes nothing. */
  function Apply(acc: Accounts, s: Step): Accounts {
    if After(acc, s).Ok? then After(acc, s).value else acc
  }

  lemma NewIdExists(acc: Accounts) returns (id: int)
    ensures id !in acc.roles
  {
    id := Above(acc.roles.Keys);
  }

  lemma {:induction false} Above(ids: set<int>) returns (high: int)
    ensures forall id :: id in ids ==> id < high
    decreases ids
  {
    if ids == {} {
      high := 0;
    } else {
      Sets.HasElement(ids);
      var x :| x in ids;
      var below := Above(ids - {x});
      high := if x < below then below else x + 1;
      assert ids == (ids - {x}) + {x};
    }
  }

  lemma StepKeepsAdmin(acc: Accounts, s: Step)
    requires Stored(acc) && HasAdmin(acc) && Fresh(acc, s)
    ensures Stored(Apply(acc, s)) && HasAdmin(Apply(acc, s))
  {
    hide Stored;
    hide HasAdmin;
    match s
    case CreateUser(id, username, ids, legacy) => CreateUserKeepsAdmin(acc, id, username, ids, legacy);
    case UpdateUser(user, c, actor) => UpdateUserKeepsAdmin(acc, user, c, actor);
    case DeleteUser(user, actor) => DeleteUserKeepsAdmin(acc, user, actor);
    case CloneRole(id, source, name) => RoleChangesKeepAdmin(acc, id, source, name, None);
    case UpdateRole(role, name) =>
      var id := NewIdExists(acc);
      RoleChangesKeepAdmin(acc, id, role, "", name);
    case DeleteRole(role) =>
      var id := NewIdExists(acc);
      RoleChangesKeepAdmin(acc, id, role, "", None);
  }

  ghost predicate IsRun(states: seq<Accounts>, steps: seq<Step>) {
    |states| == |steps| + 1 &&
    forall i :: 0 <= i < |steps| ==> Fresh(states[i], steps[i]) && states[i + 1] == Apply(states[i], steps[i])
  }

  /** From a state with an active administrator, every run keeps one in every state. */
  lemma {:induction false} AlwaysAnAdmin(states: seq<Accounts>, steps: seq<Step>, i: nat)
    requires IsRun(states, steps) && i < |states| && Stored(states[0]) && HasAdmin(states[0])
    ensures Stored(states[i]) && HasAdmin(states[i])
  {
    if i > 0 {
      AlwaysAnAdmin(states, steps, i - 1);
      StepKeepsAdmin(states[i - 1], steps[i - 1]);
    }
  }

  // ---- The tables ----

  class Tables {
    var users: map<int, User>
    var roles: map<int, Role>
    var grants: set<(int, int)>

    function Contents(): Accounts
      reads this
    {
      Accounts(users, roles, grants)
    }

    ghost predicate Valid()
      reads this
    {
      Stored(Contents()) && HasAdmin(Contents())
    }

    method ReplaceUserRoles(user: int, ids: set<int>)
      modifies this`grants
      ensures grants == WithRoles(old(grants), user, ids)
    {
      grants := set x | x in grants && x.0 != user;
      var todo := ids;
      while todo != {}
        invariant todo <= ids
        invariant grants == WithRoles(old(grants), user, ids - todo)
        decreases todo
      {
        Sets.HasElement(todo);
        var r :| r in todo;
        grants := grants + {(user, r)};
        todo := todo - {r};
      }
      assert ids - todo == ids;
    }

    method Update(user: int, c: Changes, actor: int) returns (error: Option<Error>)
      requires Valid()
      modifies this
      ensures Valid() && Contents() == Apply(old(Contents()), UpdateUser(user, c, actor))
      ensures error == var r := AfterUpdateUser(old(Contents()), user, c, actor); if r.Ok? then None else Some(r.error)
    {
      StepKeepsAdmin(Contents(), UpdateUser(user, c, actor));
      if user == actor && c.active == Some(false) {
        return Some(SelfDisable);
      }
      if user !in users {
        return Some(UserNotFound);
      }
      var requested := None;
      if AsksForRoles(c) {
        requested := ResolveRoles(Contents(), if c.roleIds.Some? then c.roleIds.value else [], c.legacy);
        if requested.None? {
          return Some(InvalidRoles);
        }
      }
      var removesAdmin := RemovesAdmin(Contents(), user, c, requested);
      if user == actor && requested.Some? && removesAdmin {
        return Some(SelfDemote);
      }
      if removesAdmin && |ActiveAdmins(Contents())| <= 1 {
        return Some(LastAdmin);
      }
      if c.active.Some? {
        users := users[user := users[user].(active := c.active.value)];
      } else {
        assert users[user := users[user]] == users;
      }
      if requested.Some? {
        ReplaceUserRoles(user, requested.value);
      }
      error := None;
    }

    method Delete(user: int, actor: int) returns (error: Option<Error>)
      requires Valid()
      modifies this
      ensures Valid() && Contents() == Apply(old(Contents()), DeleteUser(user, actor))
      ensures error == var r := AfterDeleteUser(old(Contents()), user, actor); if r.Ok? then None else Some(r.error)
    {
      StepKeepsAdmin(Contents(), DeleteUser(user, actor));
      if user == actor {
        return Some(SelfDelete);
      }
      var admins := AdminRows(Contents());
      if user !in users {
        return Some(UserNotFound);
      }
      if (exists x :: x in admins && x.0 == user) && |admins| <= 1 {
        return Some(LastAdmin);
      }
      users := users - {user};
      grants := set x | x in grants && x.0 != user;
      error := None;
    }
  }
}
