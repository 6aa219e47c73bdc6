/**
 * UsersController: admin accounts and their roles. A create or update
 * brings the user's UserRoles rows in line with the requested role Ids:
 * rows for roles no longer requested are removed, rows still wanted are
 * kept, and only the missing roles are added.
 */
module UsersController {
  import opened Common
  import opened Models
  import opened Store

  /** UserCreateRequest; a JSON null is None. */
  datatype UserCreate = UserCreate(
    username: Option<string>,
    displayName: Option<string>,
    password: Option<string>,
    isActive: bool,
    roleIds: Option<seq<Id>>)

  /** UserUpdateRequest. */
  datatype UserUpdate = UserUpdate(
    displayName: Option<string>,
    password: Option<string>,
    isActive: bool,
    roleIds: Option<seq<Id>>)

  ghost predicate Distinct(ids: seq<Id>) {
    forall i, j :: 0 <= i < j < |ids| ==> ids[i] != ids[j]
  }

  /** `Distinct()`: the first occurrence of each Id, in order. */
  function FirstOfEach(ids: seq<Id>): (r: seq<Id>)
    ensures Distinct(r)
    ensures forall x :: x in r <==> x in ids
    decreases |ids|
  {
    if ids == [] then []
    else
      var init := ids[..|ids| - 1];
      var last := ids[|ids| - 1];
      var r := FirstOfEach(init);
      assert ids == init + [last];
      if last in r then r else r + [last]
  }

  /** The role Ids a request asks for; none for a null list. */
  function DesiredRoles(roleIds: Option<seq<Id>>): (r: seq<Id>)
    ensures Distinct(r)
    ensures forall x :: x in r <==> roleIds.Some? && x in roleIds.value
  {
    match roleIds
    case None => []
    case Some(ids) => FirstOfEach(ids)
  }

  /** Whether the user holds the role. */
  predicate HasRole(table: seq<UserRole>, userId: Id, roleId: Id) {
    UserRole(userId, roleId) in table
  }

  /** A row the reconciliation removes: the user's, for a role no longer desired. */
  predicate Unwanted(x: UserRole, userId: Id, desired: seq<Id>) {
    x.userId == userId && x.roleId !in desired
  }

  /** `toRemove`. */
  function ToRemove(table: seq<UserRole>, userId: Id, desired: seq<Id>): (r: seq<UserRole>)
    ensures forall x :: x in r <==> x in table && Unwanted(x, userId, desired)
  {
    if table == [] then []
    else
      var rest := ToRemove(table[1..], userId, desired);
      assert forall x :: x in table <==> x == table[0] || x in table[1..];
      if Unwanted(table[0], userId, desired) then [table[0]] + rest else rest
  }

  /** The table after `RemoveRange(toRemove)`. */
  function Kept(table: seq<UserRole>, userId: Id, desired: seq<Id>): (r: seq<UserRole>)
    ensures forall x :: x in r <==> x in table && !Unwanted(x, userId, desired)
    ensures ToRemove(table, userId, desired) == [] ==> r == table
  {
    if table == [] then []
    else
      var rest := Kept(table[1..], userId, desired);
      assert forall x :: x in table <==> x == table[0] || x in table[1..];
      assert table == [table[0]] + table[1..];
      if Unwanted(table[0], userId, desired) then rest else [table[0]] + rest
  }

  /** `toAdd`: the desired roles the user does not hold yet. */
  function ToAdd(desired: seq<Id>, table: seq<UserRole>, userId: Id): (r: seq<Id>)
    ensures forall x :: x in r <==> x in desired && !HasRole(table, userId, x)
    ensures Distinct(desired) ==> Distinct(r)
  {
    if desired == [] then []
    else
      var rest := ToAdd(desired[1..], table, userId);
      assert forall x :: x in desired <==> x == desired[0] || x in desired[1..];
      if HasRole(table, userId, desired[0]) then rest
      else
        assert Distinct(desired) ==> desired[0] !in desired[1..];
        assert Distinct(desired) ==> Distinct(desired[1..]);
        [desired[0]] + rest
  }

  function RowsFor(userId: Id, roleIds: seq<Id>): (r: seq<UserRole>)
    ensures |r| == |roleIds| && forall i :: 0 <= i < |roleIds| ==> r[i] == UserRole(userId, roleIds[i])
  {
    seq(|roleIds|, i requires 0 <= i < |roleIds| => UserRole(userId, roleIds[i]))
  }

  /** The UserRoles table after UpdateUserRolesAsync. */
  function Reconciled(table: seq<UserRole>, userId: Id, desired: seq<Id>): seq<UserRole> {
    Kept(table, userId, desired) + RowsFor(userId, ToAdd(desired, table, userId))
  }

  /**
   * After reconciliation the user holds exactly the requested roles, and
   * every other user's rows are as they were.
   */
  lemma {:induction false} ReconciledHoldsDesired(table: seq<UserRole>, userId: Id, roleIds: Option<seq<Id>>, x: UserRole)
    ensures var table' := Reconciled(table, userId, DesiredRoles(roleIds));
      && (x.userId == userId ==> (x in table' <==> roleIds.Some? && x.roleId in roleIds.value))
      && (x.userId != userId ==> (x in table' <==> x in table))
  {
    var desired := DesiredRoles(roleIds);
    var kept := Kept(table, userId, desired);
    var added := ToAdd(desired, table, userId);
    var table' := Reconciled(table, userId, desired);
    if x in table' && x !in kept {
      var k :| 0 <= k < |table'| && table'[k] == x;
      assert table'[k] == RowsFor(userId, added)[k - |kept|];
      assert added[k - |kept|] in added;
    }
    if x.userId == userId && x.roleId in desired && x !in kept {
      assert x in table ==> !Unwanted(x, userId, desired);
      assert x.roleId in added;
      var k :| 0 <= k < |added| && added[k] == x.roleId;
      assert table'[|kept| + k] == x;
    }
  }

  /** The kept rows have no duplicate if the table had none. */
  lemma {:induction false} KeptUnique(table: seq<UserRole>, userId: Id, desired: seq<Id>)
    requires UniqueBy(table, UserRoleKey)
    ensures UniqueBy(Kept(table, userId, desired), UserRoleKey)
  {
    if table != [] {
      var rest := table[1..];
      assert UniqueBy(rest, UserRoleKey) by {
        assert forall i :: 0 <= i < |rest| ==> rest[i] == table[i + 1];
      }
      KeptUnique(rest, userId, desired);
      if !Unwanted(table[0], userId, desired) {
        var kr := Kept(rest, userId, desired);
        assert table[0] !in rest;
        var r := [table[0]] + kr;
        assert forall i :: 1 <= i < |r| ==> r[i] == kr[i - 1] && r[i] in kr;
      }
    }
  }

  /** Reconciliation keeps the (UserId, RoleId) primary key unique. */
  lemma {:induction false} ReconciledUnique(table: seq<UserRole>, userId: Id, desired: seq<Id>)
    requires UniqueBy(table, UserRoleKey) && Distinct(desired)
    ensures UniqueBy(Reconciled(table, userId, desired), UserRoleKey)
  {
    var kept := Kept(table, userId, desired);
    var added := ToAdd(desired, table, userId);
    var r := Reconciled(table, userId, desired);
    KeptUnique(table, userId, desired);
    forall i, j | 0 <= i < |r| && 0 <= j < |r| && i != j ensures r[i] != r[j] {
      if i >= |kept| && j >= |kept| {
        assert r[i] == UserRole(userId, added[i - |kept|]) && r[j] == UserRole(userId, added[j - |kept|]);
      } else if i < |kept| && j >= |kept| {
        assert r[i] == kept[i] && kept[i] in table;
        assert added[j - |kept|] in added;
      } else if i >= |kept| && j < |kept| {
        assert r[j] == kept[j] && kept[j] in table;
        assert added[i - |kept|] in added;
      } else {
        assert r[i] == kept[i] && r[j] == kept[j];
      }
    }
  }

  /**
   * UpdateUserRolesAsync: removes the unwanted rows, adds the missing
   * roles, and reports whether it saved, which it does only when either
   * list is non-empty.
   */
  method UpdateUserRoles(db: Db, userId: Id, roleIds: Option<seq<Id>>) returns (saved: bool)
    requires db.Valid()
    modifies db`userRoles
    ensures db.Valid()
    ensures db.userRoles == Reconciled(old(db.userRoles), userId, DesiredRoles(roleIds))
    ensures !saved ==> db.userRoles == old(db.userRoles)
  {
    var desired := DesiredRoles(roleIds);
    var toRemove := ToRemove(db.userRoles, userId, desired);
    var toAdd := ToAdd(desired, db.userRoles, userId);
    var table := db.userRoles;
    if |toRemove| > 0 {
      table := Kept(table, userId, desired);
    }
    if |toAdd| > 0 {
      table := table + RowsFor(userId, toAdd);
    }
    assert table == Reconciled(db.userRoles, userId, desired);
    ReconciledUnique(db.userRoles, userId, desired);
    assert TablesValid(db.devices, db.cats, db.rules, db.logs, db.users, db.roles, table);
    ghost var tables := (db.devices, db.cats, db.rules, db.logs, db.users, db.roles, table);
    db.userRoles := table;
    assert (db.devices, db.cats, db.rules, db.logs, db.users, db.roles, db.userRoles) == tables;
    saved := |toRemove| > 0 || |toAdd| > 0;
  }

  // ------------------------------------------------------------ user rows

  /** Whether a user other than the one at `i` already has the username. */
  predicate UsernameTakenElsewhere(users: seq<User>, i: int, name: string) {
    exists j :: 0 <= j < |users| && j != i && users[j].username == name
  }

  /**
   * The Users and UserRoles tables and the reply after CreateUser;
   * `passwordHash` is what the salted hasher produced for the password.
   */
  function CreateUserSpec(users: seq<User>, table: seq<UserRole>, req: UserCreate, newId: Id, passwordHash: string, nowUtc: int)
    : (seq<User>, seq<UserRole>, Reply<Id>)
  {
    if IsNullOrWhiteSpace(req.username) || IsNullOrWhiteSpace(req.password) then
      (users, table, BadRequest("UsernameAndPasswordRequired"))
    else if UsernameTakenElsewhere(users, -1, req.username.value) then (users, table, Conflict("UsernameExists"))
    else
      var name := Trim(req.username.value);
      var user := User(newId, name, req.displayName.GetOr(name), passwordHash, req.isActive, nowUtc, nowUtc);
      if UsernameTakenElsewhere(users, -1, name) then (users, table, Failed("UniqueViolation"))
      else (users + [user], Reconciled(table, newId, DesiredRoles(req.roleIds)), Ok(newId))
  }

  method CreateUser(db: Db, req: UserCreate, newId: Id, passwordHash: string, nowUtc: int) returns (reply: Reply<Id>)
    requires db.Valid() && Find(db.users, UserIdOf, newId).None?
    modifies db`users, db`userRoles
    ensures db.Valid()
    ensures (db.users, db.userRoles, reply) == CreateUserSpec(old(db.users), old(db.userRoles), req, newId, passwordHash, nowUtc)
  {
    if IsNullOrWhiteSpace(req.username) || IsNullOrWhiteSpace(req.password) {
      return BadRequest("UsernameAndPasswordRequired");
    }
    if UsernameTakenElsewhere(db.users, -1, req.username.value) {
      return Conflict("UsernameExists");
    }
    var name := Trim(req.username.value);
    var user := User(newId, name, req.displayName.GetOr(name), passwordHash, req.isActive, nowUtc, nowUtc);
    if UsernameTakenElsewhere(db.users, -1, name) {
      return Failed("UniqueViolation");
    }
    UniqueAppend(db.users, UserIdOf, user);
    UniqueAppend(db.users, UsernameOf, user);
    var users := db.users + [user];
    assert TablesValid(db.devices, db.cats, db.rules, db.logs, users, db.roles, db.userRoles);
    ghost var tables := (db.devices, db.cats, db.rules, db.logs, users, db.roles, db.userRoles);
    db.users := users;
    assert (db.devices, db.cats, db.rules, db.logs, db.users, db.roles, db.userRoles) == tables;
    var _ := UpdateUserRoles(db, newId, req.roleIds);
    reply := Ok(newId);
  }

  /**
   * CreateUser fails on the unique index exactly when the username is not
   * used verbatim but its trimmed form is.
   */
  lemma CreateUserFailsOnTrimmedName(users: seq<User>, table: seq<UserRole>, req: UserCreate, newId: Id, passwordHash: string, nowUtc: int)
    ensures CreateUserSpec(users, table, req, newId, passwordHash, nowUtc).2.Failed? <==>
      && !IsNullOrWhiteSpace(req.username) && !IsNullOrWhiteSpace(req.password)
      && (forall j :: 0 <= j < |users| ==> users[j].username != req.username.value)
      && exists j :: 0 <= j < |users| && users[j].username == Trim(req.username.value)
  {
  }

  /** A created user holds exactly the listed roles, and every other user's rows are as they were. */
  lemma {:induction false} CreateUserGrantsListed(users: seq<User>, table: seq<UserRole>, req: UserCreate, newId: Id, passwordHash: string, nowUtc: int)
    requires CreateUserSpec(users, table, req, newId, passwordHash, nowUtc).2.Ok?
    ensures var table' := CreateUserSpec(users, table, req, newId, passwordHash, nowUtc).1;
      && (forall r :: UserRole(newId, r) in table' <==> req.roleIds.Some? && r in req.roleIds.value)
      && (forall x: UserRole :: x.userId != newId ==> (x in table' <==> x in table))
  {
    var table' := CreateUserSpec(users, table, req, newId, passwordHash, nowUtc).1;
    assert table' == Reconciled(table, newId, DesiredRoles(req.roleIds));
    forall r ensures UserRole(newId, r) in table' <==> req.roleIds.Some? && r in req.roleIds.value {
      ReconciledHoldsDesired(table, newId, req.roleIds, UserRole(newId, r));
    }
    forall x: UserRole | x.userId != newId ensures x in table' <==> x in table {
      ReconciledHoldsDesired(table, newId, req.roleIds, x);
    }
  }

  /**
   * CreateUser: a blank username or password is refused, a username already
   * used verbatim is a conflict, and a username whose trimmed form is taken
   * fails on the unique index; each changes nothing. Otherwise the create
   * succeeds: one user is added with the trimmed username, the display name
   * or else that username, and the hash, and it holds exactly the listed
   * roles.
   */
  lemma {:induction false} CreateUserOutcome(users: seq<User>, table: seq<UserRole>, req: UserCreate, newId: Id, passwordHash: string, nowUtc: int)
    ensures var (users', table', reply) := CreateUserSpec(users, table, req, newId, passwordHash, nowUtc);
      && (reply.Ok? || reply.BadRequest? || reply.Conflict? || reply.Failed?)
      && (reply.BadRequest? <==> IsNullOrWhiteSpace(req.username) || IsNullOrWhiteSpace(req.password))
      && (reply.Conflict? <==>
            && !IsNullOrWhiteSpace(req.username) && !IsNullOrWhiteSpace(req.password)
            && exists j :: 0 <= j < |users| && users[j].username == req.username.value)
      && (reply.Failed? <==>
            && !IsNullOrWhiteSpace(req.username) && !IsNullOrWhiteSpace(req.password)
            && (forall j :: 0 <= j < |users| ==> users[j].username != req.username.value)
            && exists j :: 0 <= j < |users| && users[j].username == Trim(req.username.value))
      && (!reply.Ok? ==> users' == users && table' == table)
      && (reply.Ok? ==>
            && reply.value == newId && users'[..|users|] == users && |users'| == |users| + 1
            && users'[|users|].id == newId
            && users'[|users|].username == Trim(req.username.value) && users'[|users|].username != []
            && users'[|users|].displayName == req.displayName.GetOr(Trim(req.username.value))
            && users'[|users|].passwordHash == passwordHash
            && users'[|users|].isActive == req.isActive
            && (forall r :: UserRole(newId, r) in table' <==> req.roleIds.Some? && r in req.roleIds.value)
            && (forall x: UserRole :: x.userId != newId ==> (x in table' <==> x in table)))
  {
    CreateUserFailsOnTrimmedName(users, table, req, newId, passwordHash, nowUtc);
    if CreateUserSpec(users, table, req, newId, passwordHash, nowUtc).2.Ok? {
      CreateUserGrantsListed(users, table, req, newId, passwordHash, nowUtc);
    }
    if !IsNullOrWhiteSpace(req.username) && !IsNullOrWhiteSpace(req.password)
       && !UsernameTakenElsewhere(users, -1, req.username.value)
    {
      var name := Trim(req.username.value);
      TrimDropsOnlyBlank(req.username.value);
      if !UsernameTakenElsewhere(users, -1, name) {
        var user := User(newId, name, req.displayName.GetOr(name), passwordHash, req.isActive, nowUtc, nowUtc);
        assert (users + [user])[..|users|] == users;
      }
    }
  }

  /** The user after an edit: a null display name keeps the old one, a blank password the old hash. */
  function Edited(user: User, req: UserUpdate, passwordHash: string, nowUtc: int): User {
    user.(displayName := req.displayName.GetOr(user.displayName),
          isActive := req.isActive,
          passwordHash := if IsNullOrWhiteSpace(req.password) then user.passwordHash else passwordHash,
          updatedAtUtc := nowUtc)
  }

  /** The Users and UserRoles tables and the reply after UpdateUser. */
  function UpdateUserSpec(users: seq<User>, table: seq<UserRole>, id: Id, req: UserUpdate, passwordHash: string, nowUtc: int)
    : (seq<User>, seq<UserRole>, Reply<()>)
  {
    match Find(users, UserIdOf, id)
    case None => (users, table, NotFound(""))
    case Some(i) => (users[i := Edited(users[i], req, passwordHash, nowUtc)], Reconciled(table, id, DesiredRoles(req.roleIds)), Ok(()))
  }

  method UpdateUser(db: Db, id: Id, req: UserUpdate, passwordHash: string, nowUtc: int) returns (reply: Reply<()>)
    requires db.Valid()
    modifies db`users, db`userRoles
    ensures db.Valid()
    ensures (db.users, db.userRoles, reply) == UpdateUserSpec(old(db.users), old(db.userRoles), id, req, passwordHash, nowUtc)
  {
    var found := Find(db.users, UserIdOf, id);
    if found.None? {
      return NotFound("");
    }
    var i := found.value;
    var user := Edited(db.users[i], req, passwordHash, nowUtc);
    UniqueUpdate(db.users, UserIdOf, i, user);
    UniqueUpdate(db.users, UsernameOf, i, user);
    var users := db.users[i := user];
    assert TablesValid(db.devices, db.cats, db.rules, db.logs, users, db.roles, db.userRoles);
    ghost var tables := (db.devices, db.cats, db.rules, db.logs, users, db.roles, db.userRoles);
    db.users := users;
    assert (db.devices, db.cats, db.rules, db.logs, db.users, db.roles, db.userRoles) == tables;
    var _ := UpdateUserRoles(db, id, req.roleIds);
    reply := Ok(());
  }

  /**
   * UpdateUser: an unknown Id is NotFound and changes nothing; otherwise
   * only that user changes: the active flag is overwritten, the display
   * name kept when null, the hash replaced only for a non-blank password,
   * and the username never changes.
   */
  lemma {:induction false} UpdateUserOutcome(users: seq<User>, table: seq<UserRole>, id: Id, req: UserUpdate, passwordHash: string, nowUtc: int)
    ensures var (users', table', reply) := UpdateUserSpec(users, table, id, req, passwordHash, nowUtc);
      && (reply.NotFound? <==> forall j :: 0 <= j < |users| ==> users[j].id != id)
      && (reply.NotFound? ==> users' == users && table' == table)
      && (reply.Ok? || reply.NotFound?)
      && (reply.Ok? ==>
            && |users'| == |users|
            && exists i ::
                 && 0 <= i < |users| && users[i].id == id
                 && (forall j :: 0 <= j < |users| && j != i ==> users'[j] == users[j])
                 && users'[i].id == id && users'[i].username == users[i].username
                 && users'[i].isActive == req.isActive
                 && users'[i].displayName == req.displayName.GetOr(users[i].displayName)
                 && (IsNullOrWhiteSpace(req.password) ==> users'[i].passwordHash == users[i].passwordHash)
                 && (!IsNullOrWhiteSpace(req.password) ==> users'[i].passwordHash == passwordHash))
  {
    match Find(users, UserIdOf, id)
    case None =>
    case Some(i) =>
      assert users[i := Edited(users[i], req, passwordHash, nowUtc)][i] == Edited(users[i], req, passwordHash, nowUtc);
  }

  /** The Users and UserRoles tables and the reply after DeleteUser. */
  function DeleteUserSpec(users: seq<User>, table: seq<UserRole>, id: Id): (seq<User>, seq<UserRole>, Reply<()>) {
    match Find(users, UserIdOf, id)
    case None => (users, table, NotFound(""))
    case Some(i) => (users[..i] + users[i + 1..], Without(table, UserRoleUserOf, id), Ok(()))
  }

  method DeleteUser(db: Db, id: Id) returns (reply: Reply<()>)
    requires db.Valid()
    modifies db`users, db`userRoles
    ensures db.Valid()
    ensures (db.users, db.userRoles, reply) == DeleteUserSpec(old(db.users), old(db.userRoles), id)
  {
    var found := Find(db.users, UserIdOf, id);
    if found.None? {
      return NotFound("");
    }
    var i := found.value;
    UniqueRemove(db.users, UserIdOf, i);
    UniqueRemove(db.users, UsernameOf, i);
    UniqueWithout(db.userRoles, UserRoleUserOf, id, UserRoleKey);
    var users := db.users[..i] + db.users[i + 1..];
    var userRoles := Without(db.userRoles, UserRoleUserOf, id);
    assert TablesValid(db.devices, db.cats, db.rules, db.logs, users, db.roles, userRoles);
    ghost var tables := (db.devices, db.cats, db.rules, db.logs, users, db.roles, userRoles);
    db.users, db.userRoles := users, userRoles;
    assert (db.devices, db.cats, db.rules, db.logs, db.users, db.roles, db.userRoles) == tables;
    reply := Ok(());
  }

  /**
   * DeleteUser: the user goes together with every UserRoles row naming it,
   * and nothing else; an unknown Id is NotFound and changes nothing.
   */
  lemma {:induction false} DeleteUserCascades(users: seq<User>, table: seq<UserRole>, id: Id)
    requires UniqueBy(users, UserIdOf)
    ensures var (users', table', reply) := DeleteUserSpec(users, table, id);
      && (reply.Ok? || reply.NotFound?)
      && (reply.NotFound? <==> forall j :: 0 <= j < |users| ==> users[j].id != id)
      && (reply.NotFound? ==> users' == users && table' == table)
      && (reply.Ok? ==>
            && |users'| == |users| - 1
            && (forall u :: u in users' <==> u in users && u.id != id)
            && (forall ur :: ur in table' <==> ur in table && ur.userId != id))
  {
    match Find(users, UserIdOf, id)
    case None =>
    case Some(i) =>
      var users' := users[..i] + users[i + 1..];
      assert forall j :: 0 <= j < |users'| ==> users'[j] == if j < i then users[j] else users[j + 1];
      forall u | u in users && u.id != id ensures u in users' {
        var k :| 0 <= k < |users| && users[k] == u;
        if k < i { assert users'[k] == u; } else { assert users'[k - 1] == u; }
      }
  }
}
