/**
 * RolesController: roles and the permission keys granted to them. A
 * create or update brings the role's RolePermissions rows in line with the
 * request: keys outside the catalogue are dropped, keys are compared
 * ignoring case, rows that are still wanted are kept and only the missing
 * keys are added.
 */
module RolesController {
  import opened Common
  import opened Models
  import opened Ordering
  import opened Store
  import Permissions

  /** RoleUpsertRequest; a JSON null is None. */
  datatype RoleRequest = RoleRequest(name: Option<string>, description: Option<string>, permissions: Option<seq<string>>)

  /** Whether `p` is a catalogue key, ignoring case: the `allowed` hash set. */
  predicate Allowed(p: string) {
    exists i :: 0 <= i < |Permissions.AllKeys()| && EqualsIgnoreCase(Permissions.AllKeys()[i], p)
  }

  /** `ps.Contains(p, StringComparer.OrdinalIgnoreCase)`. */
  predicate AnyIgnoreCase(ps: seq<string>, p: string) {
    exists i :: 0 <= i < |ps| && EqualsIgnoreCase(ps[i], p)
  }

  /** No two keys are equal ignoring case. */
  ghost predicate DistinctIgnoreCase(ps: seq<string>) {
    forall i, j :: 0 <= i < j < |ps| ==> !EqualsIgnoreCase(ps[i], ps[j])
  }

  /** A key matches an extended list exactly when it matches the list or the new key. */
  lemma {:induction false} AnyIgnoreCaseSnoc(ps: seq<string>, x: string)
    ensures forall p :: AnyIgnoreCase(ps + [x], p) <==> AnyIgnoreCase(ps, p) || EqualsIgnoreCase(x, p)
  {
    var ps' := ps + [x];
    forall p | AnyIgnoreCase(ps', p) ensures AnyIgnoreCase(ps, p) || EqualsIgnoreCase(x, p) {
      var i :| 0 <= i < |ps'| && EqualsIgnoreCase(ps'[i], p);
      if i < |ps| { assert ps[i] == ps'[i]; }
    }
    forall p | AnyIgnoreCase(ps, p) ensures AnyIgnoreCase(ps', p) {
      var i :| 0 <= i < |ps| && EqualsIgnoreCase(ps[i], p);
      assert ps'[i] == ps[i];
    }
    assert ps'[|ps|] == x;
  }

  /** `Distinct(StringComparer.OrdinalIgnoreCase)`: the first key of each case-insensitive class, in order. */
  function FirstOfEachCase(ps: seq<string>): (r: seq<string>)
    ensures DistinctIgnoreCase(r)
    ensures forall p :: p in r ==> p in ps
    ensures forall p :: AnyIgnoreCase(r, p) <==> AnyIgnoreCase(ps, p)
    decreases |ps|
  {
    if ps == [] then []
    else
      var init := ps[..|ps| - 1];
      var last := ps[|ps| - 1];
      var r := FirstOfEachCase(init);
      assert ps == init + [last];
      AnyIgnoreCaseSnoc(init, last);
      if AnyIgnoreCase(r, last) then r
      else
        AnyIgnoreCaseSnoc(r, last);
        r + [last]
  }

  /** The keys a request asks for: catalogue keys, first spelling of each; none for a null list. */
  function Desired(permissions: Option<seq<string>>): (r: seq<string>)
    ensures DistinctIgnoreCase(r)
    ensures forall p :: p in r ==> Allowed(p)
    ensures forall p :: AnyIgnoreCase(r, p) <==>
      permissions.Some? && exists q :: q in permissions.value && Allowed(q) && EqualsIgnoreCase(q, p)
  {
    match permissions
    case None => []
    case Some(ps) =>
      var allowed := Where(ps, Allowed);
      var r := FirstOfEachCase(allowed);
      assert forall p :: AnyIgnoreCase(allowed, p) <==> exists q :: q in ps && Allowed(q) && EqualsIgnoreCase(q, p) by {
        forall p | AnyIgnoreCase(allowed, p) ensures exists q :: q in ps && Allowed(q) && EqualsIgnoreCase(q, p) {
          var i :| 0 <= i < |allowed| && EqualsIgnoreCase(allowed[i], p);
          assert allowed[i] in allowed;
        }
        forall p | exists q :: q in ps && Allowed(q) && EqualsIgnoreCase(q, p) ensures AnyIgnoreCase(allowed, p) {
          var q :| q in ps && Allowed(q) && EqualsIgnoreCase(q, p);
          var i :| 0 <= i < |allowed| && allowed[i] == q;
        }
      }
      r
  }

  /** Whether the role holds `p`, ignoring case. */
  predicate HasPermission(table: seq<RolePermission>, roleId: Id, p: string) {
    exists i :: 0 <= i < |table| && table[i].roleId == roleId && EqualsIgnoreCase(table[i].permission, p)
  }

  /** A row the reconciliation removes: the role's, for a key no longer desired. */
  predicate Unwanted(x: RolePermission, roleId: Id, desired: seq<string>) {
    x.roleId == roleId && !AnyIgnoreCase(desired, x.permission)
  }

  /** `toRemove`. */
  function ToRemove(table: seq<RolePermission>, roleId: Id, desired: seq<string>): (r: seq<RolePermission>)
    ensures forall x :: x in r <==> x in table && Unwanted(x, roleId, desired)
  {
    if table == [] then []
    else
      var rest := ToRemove(table[1..], roleId, desired);
      assert forall x :: x in table <==> x == table[0] || x in table[1..];
      if Unwanted(table[0], roleId, desired) then [table[0]] + rest else rest
  }

  /** The table after `RemoveRange(toRemove)`: every row but the unwanted ones, in order. */
  function Kept(table: seq<RolePermission>, roleId: Id, desired: seq<string>): (r: seq<RolePermission>)
    ensures |r| <= |table|
    ensures forall x :: x in r <==> x in table && !Unwanted(x, roleId, desired)
    ensures ToRemove(table, roleId, desired) == [] ==> r == table
  {
    if table == [] then []
    else
      var rest := Kept(table[1..], roleId, desired);
      assert forall x :: x in table <==> x == table[0] || x in table[1..];
      assert table == [table[0]] + table[1..];
      if Unwanted(table[0], roleId, desired) then rest else [table[0]] + rest
  }

  /** `toAdd`: the desired keys the role does not hold yet, in request order. */
  function ToAdd(desired: seq<string>, table: seq<RolePermission>, roleId: Id): (r: seq<string>)
    ensures forall p :: p in r <==> p in desired && !HasPermission(table, roleId, p)
    ensures DistinctIgnoreCase(desired) ==> DistinctIgnoreCase(r)
  {
    if desired == [] then []
    else
      var rest := ToAdd(desired[1..], table, roleId);
      assert forall p :: p in desired <==> p == desired[0] || p in desired[1..];
      if HasPermission(table, roleId, desired[0]) then rest
      else
        var r := [desired[0]] + rest;
        assert DistinctIgnoreCase(desired) ==> DistinctIgnoreCase(r) by {
          if DistinctIgnoreCase(desired) {
            assert DistinctIgnoreCase(desired[1..]) by {
              assert forall i :: 0 <= i < |desired| - 1 ==> desired[1..][i] == desired[i + 1];
            }
            forall j | 0 < j < |r| ensures !EqualsIgnoreCase(r[0], r[j]) {
              assert r[j] in desired[1..];
              var k :| 0 <= k < |desired[1..]| && desired[1..][k] == r[j];
              assert desired[k + 1] == r[j];
            }
            assert forall i, j :: 0 < i < j < |r| ==> r[i] == rest[i - 1] && r[j] == rest[j - 1];
          }
        }
        r
  }

  /** `AddRange`: one row per key, for the role. */
  function RowsFor(roleId: Id, keys: seq<string>): (r: seq<RolePermission>)
    ensures |r| == |keys| && forall i :: 0 <= i < |keys| ==> r[i] == RolePermission(roleId, keys[i])
  {
    seq(|keys|, i requires 0 <= i < |keys| => RolePermission(roleId, keys[i]))
  }

  /** The RolePermissions table after UpdateRolePermissionsAsync. */
  function Reconciled(table: seq<RolePermission>, roleId: Id, desired: seq<string>): seq<RolePermission> {
    Kept(table, roleId, desired) + RowsFor(roleId, ToAdd(desired, table, roleId))
  }

  /**
   * UpdateRolePermissionsAsync: removes the unwanted rows, adds the missing
   * keys, and reports whether it saved, which it does only when either
   * list is non-empty.
   */
  method UpdateRolePermissions(db: Db, roleId: Id, permissions: Option<seq<string>>) returns (saved: bool)
    modifies db`rolePermissions
    ensures db.rolePermissions == Reconciled(old(db.rolePermissions), roleId, Desired(permissions))
    ensures !saved ==> db.rolePermissions == old(db.rolePermissions)
  {
    var desired := Desired(permissions);
    var toRemove := ToRemove(db.rolePermissions, roleId, desired);
    var toAdd := ToAdd(desired, db.rolePermissions, roleId);
    var table := db.rolePermissions;
    if |toRemove| > 0 {
      table := Kept(table, roleId, desired);
    }
    if |toAdd| > 0 {
      table := table + RowsFor(roleId, toAdd);
    }
    assert table == Reconciled(db.rolePermissions, roleId, desired);
    db.rolePermissions := table;
    saved := |toRemove| > 0 || |toAdd| > 0;
  }

  /** A key the role holds after reconciliation was desired. */
  lemma {:induction false} ReconciledHoldsOnlyDesired(table: seq<RolePermission>, roleId: Id, desired: seq<string>, p: string)
    requires HasPermission(Reconciled(table, roleId, desired), roleId, p)
    ensures AnyIgnoreCase(desired, p)
  {
    var kept := Kept(table, roleId, desired);
    var added := ToAdd(desired, table, roleId);
    var table' := Reconciled(table, roleId, desired);
    var i :| 0 <= i < |table'| && table'[i].roleId == roleId && EqualsIgnoreCase(table'[i].permission, p);
    if i < |kept| {
      assert table'[i] == kept[i] && kept[i] in kept;
      assert AnyIgnoreCase(desired, kept[i].permission);
    } else {
      var k := i - |kept|;
      assert table'[i] == RolePermission(roleId, added[k]);
      assert added[k] in desired;
      var d :| 0 <= d < |desired| && desired[d] == added[k];
    }
  }

  /** A desired key is held after reconciliation: kept if the role had it, added otherwise. */
  lemma {:induction false} ReconciledHoldsAllDesired(table: seq<RolePermission>, roleId: Id, desired: seq<string>, p: string)
    requires AnyIgnoreCase(desired, p)
    ensures HasPermission(Reconciled(table, roleId, desired), roleId, p)
  {
    var kept := Kept(table, roleId, desired);
    var added := ToAdd(desired, table, roleId);
    var table' := Reconciled(table, roleId, desired);
    var d :| 0 <= d < |desired| && EqualsIgnoreCase(desired[d], p);
    if HasPermission(table, roleId, desired[d]) {
      var i :| 0 <= i < |table| && table[i].roleId == roleId && EqualsIgnoreCase(table[i].permission, desired[d]);
      assert table[i] in kept;
      var j :| 0 <= j < |kept| && kept[j] == table[i];
      assert table'[j] == table[i];
    } else {
      assert desired[d] in added;
      var k :| 0 <= k < |added| && added[k] == desired[d];
      assert table'[|kept| + k] == RolePermission(roleId, desired[d]);
    }
  }

  /** Reconciling one role's permissions leaves every other role's rows as they were. */
  lemma {:induction false} ReconciledKeepsOtherRoles(table: seq<RolePermission>, roleId: Id, desired: seq<string>, x: RolePermission)
    requires x.roleId != roleId
    ensures x in Reconciled(table, roleId, desired) <==> x in table
  {
  }

  /**
   * After reconciliation the role holds a key, ignoring case, exactly when
   * the request listed a catalogue key equal to it ignoring case.
   */
  lemma {:induction false} ReconciledHoldsDesired(table: seq<RolePermission>, roleId: Id, permissions: Option<seq<string>>, p: string)
    ensures HasPermission(Reconciled(table, roleId, Desired(permissions)), roleId, p) <==>
            permissions.Some? && exists q :: q in permissions.value && Allowed(q) && EqualsIgnoreCase(q, p)
  {
    var desired := Desired(permissions);
    if HasPermission(Reconciled(table, roleId, desired), roleId, p) {
      ReconciledHoldsOnlyDesired(table, roleId, desired, p);
    }
    if AnyIgnoreCase(desired, p) {
      ReconciledHoldsAllDesired(table, roleId, desired, p);
    }
  }

  /** A null list leaves the role with no permission at all. */
  lemma {:induction false} NullListClears(table: seq<RolePermission>, roleId: Id, p: string)
    ensures !HasPermission(Reconciled(table, roleId, Desired(None)), roleId, p)
  {
    ReconciledHoldsDesired(table, roleId, None, p);
  }

  /** A catalogue key in any spelling, listed in the request, is held afterwards. */
  lemma {:induction false} ListedCatalogueKeyHeld(table: seq<RolePermission>, roleId: Id, ps: seq<string>, k: nat)
    requires k < |ps| && Allowed(ps[k])
    ensures HasPermission(Reconciled(table, roleId, Desired(Some(ps))), roleId, ps[k])
  {
    ReconciledHoldsDesired(table, roleId, Some(ps), ps[k]);
  }

  /** The role's rows: no two of them equal ignoring case. */
  ghost predicate RoleRowsDistinct(table: seq<RolePermission>, roleId: Id) {
    forall i, j :: 0 <= i < |table| && 0 <= j < |table| && i != j && table[i].roleId == roleId && table[j].roleId == roleId
      ==> !EqualsIgnoreCase(table[i].permission, table[j].permission)
  }

  /** Rows a role keeps are a sub-sequence: no two are equal ignoring case if none were. */
  lemma {:induction false} KeptRowsDistinct(table: seq<RolePermission>, roleId: Id, desired: seq<string>)
    requires RoleRowsDistinct(table, roleId)
    ensures RoleRowsDistinct(Kept(table, roleId, desired), roleId)
  {
    if table != [] {
      var rest := table[1..];
      RoleRowsDistinctTail(table, roleId);
      KeptRowsDistinct(rest, roleId, desired);
      var kr := Kept(rest, roleId, desired);
      if !Unwanted(table[0], roleId, desired) {
        var r := [table[0]] + kr;
        forall i, j | 0 <= i < |r| && 0 <= j < |r| && i != j && r[i].roleId == roleId && r[j].roleId == roleId
          ensures !EqualsIgnoreCase(r[i].permission, r[j].permission)
        {
          if i == 0 {
            HeadDiffersFromRest(table, roleId, r[j]);
          } else if j == 0 {
            HeadDiffersFromRest(table, roleId, r[i]);
          } else {
            assert r[i] == kr[i - 1] && r[j] == kr[j - 1];
          }
        }
      }
    }
  }

  lemma RoleRowsDistinctTail(table: seq<RolePermission>, roleId: Id)
    requires table != [] && RoleRowsDistinct(table, roleId)
    ensures RoleRowsDistinct(table[1..], roleId)
  {
    assert forall i :: 0 <= i < |table| - 1 ==> table[1..][i] == table[i + 1];
  }

  /** Under distinct rows, the first row of the role differs ignoring case from every later row of the role. */
  lemma HeadDiffersFromRest(table: seq<RolePermission>, roleId: Id, y: RolePermission)
    requires table != [] && RoleRowsDistinct(table, roleId) && table[0].roleId == roleId
    requires y in table[1..] && y.roleId == roleId
    ensures !EqualsIgnoreCase(table[0].permission, y.permission)
  {
    var j :| 0 <= j < |table[1..]| && table[1..][j] == y;
    assert table[j + 1] == y;
  }

  /** A kept row of the role and an added key never agree ignoring case. */
  lemma KeptDiffersFromAdded(table: seq<RolePermission>, roleId: Id, desired: seq<string>, x: RolePermission, p: string)
    requires x in Kept(table, roleId, desired) && x.roleId == roleId
    requires p in ToAdd(desired, table, roleId)
    ensures !EqualsIgnoreCase(x.permission, p)
  {
    var i :| 0 <= i < |table| && table[i] == x;
    assert !HasPermission(table, roleId, p);
  }

  /** Reconciliation adds no duplicate: the role's rows stay distinct ignoring case. */
  lemma {:induction false} ReconciledRowsDistinct(table: seq<RolePermission>, roleId: Id, permissions: Option<seq<string>>)
    requires RoleRowsDistinct(table, roleId)
    ensures RoleRowsDistinct(Reconciled(table, roleId, Desired(permissions)), roleId)
  {
    var desired := Desired(permissions);
    var kept := Kept(table, roleId, desired);
    var added := ToAdd(desired, table, roleId);
    var r := Reconciled(table, roleId, desired);
    KeptRowsDistinct(table, roleId, desired);
    forall i, j | 0 <= i < |r| && 0 <= j < |r| && i != j && r[i].roleId == roleId && r[j].roleId == roleId
      ensures !EqualsIgnoreCase(r[i].permission, r[j].permission)
    {
      if i < |kept| && j < |kept| {
        assert r[i] == kept[i] && r[j] == kept[j];
      } else if i >= |kept| && j >= |kept| {
        assert r[i].permission == added[i - |kept|] && r[j].permission == added[j - |kept|];
      } else if i < |kept| {
        assert r[i] == kept[i] && r[j].permission == added[j - |kept|];
        KeptDiffersFromAdded(table, roleId, desired, kept[i], added[j - |kept|]);
      } else {
        assert r[j] == kept[j] && r[i].permission == added[i - |kept|];
        KeptDiffersFromAdded(table, roleId, desired, kept[j], added[i - |kept|]);
      }
    }
  }

  // ------------------------------------------------------------ role rows

  /** Whether a role other than the one at `i` already has the name. */
  predicate NameTakenElsewhere(roles: seq<Role>, i: int, name: string) {
    exists j :: 0 <= j < |roles| && j != i && roles[j].name == name
  }

  /** The Roles and RolePermissions tables and the reply after CreateRole. */
  function CreateRoleSpec(roles: seq<Role>, table: seq<RolePermission>, req: RoleRequest, newId: Id, nowUtc: int)
    : (seq<Role>, seq<RolePermission>, Reply<Id>)
  {
    if IsNullOrWhiteSpace(req.name) then (roles, table, BadRequest("RoleNameRequired"))
    else if NameTakenElsewhere(roles, -1, req.name.value) then (roles, table, Conflict("RoleNameExists"))
    else
      var role := Role(newId, Trim(req.name.value), req.description.GetOr(""), nowUtc, nowUtc);
      if NameTakenElsewhere(roles, -1, role.name) then (roles, table, Failed("UniqueViolation"))
      else (roles + [role], Reconciled(table, newId, Desired(req.permissions)), Ok(newId))
  }

  method CreateRole(db: Db, req: RoleRequest, newId: Id, nowUtc: int) returns (reply: Reply<Id>)
    requires db.Valid() && Find(db.roles, RoleIdOf, newId).None?
    modifies db`roles, db`rolePermissions
    ensures db.Valid()
    ensures (db.roles, db.rolePermissions, reply) == CreateRoleSpec(old(db.roles), old(db.rolePermissions), req, newId, nowUtc)
  {
    if IsNullOrWhiteSpace(req.name) {
      return BadRequest("RoleNameRequired");
    }
    if NameTakenElsewhere(db.roles, -1, req.name.value) {
      return Conflict("RoleNameExists");
    }
    var role := Role(newId, Trim(req.name.value), req.description.GetOr(""), nowUtc, nowUtc);
    if NameTakenElsewhere(db.roles, -1, role.name) {
      return Failed("UniqueViolation");
    }
    UniqueAppend(db.roles, RoleIdOf, role);
    UniqueAppend(db.roles, RoleNameOf, role);
    var roles := db.roles + [role];
    assert TablesValid(db.devices, db.cats, db.rules, db.logs, db.users, roles, db.userRoles);
    ghost var tables := (db.devices, db.cats, db.rules, db.logs, db.users, roles, db.userRoles);
    db.roles := roles;
    assert (db.devices, db.cats, db.rules, db.logs, db.users, db.roles, db.userRoles) == tables;
    var _ := UpdateRolePermissions(db, newId, req.permissions);
    reply := Ok(newId);
  }

  /**
   * CreateRole fails on the unique index exactly when the name is not used
   * verbatim but its trimmed form is.
   */
  lemma CreateRoleFailsOnTrimmedName(roles: seq<Role>, table: seq<RolePermission>, req: RoleRequest, newId: Id, nowUtc: int)
    ensures CreateRoleSpec(roles, table, req, newId, nowUtc).2.Failed? <==>
      && !IsNullOrWhiteSpace(req.name)
      && (forall j :: 0 <= j < |roles| ==> roles[j].name != req.name.value)
      && exists j :: 0 <= j < |roles| && roles[j].name == Trim(req.name.value)
  {
  }

  /**
   * A created role holds, ignoring case, exactly the catalogue keys the
   * request listed, and every other role's rows are as they were.
   */
  lemma {:induction false} CreateRoleGrantsListed(roles: seq<Role>, table: seq<RolePermission>, req: RoleRequest, newId: Id, nowUtc: int)
    requires CreateRoleSpec(roles, table, req, newId, nowUtc).2.Ok?
    ensures var table' := CreateRoleSpec(roles, table, req, newId, nowUtc).1;
      && (forall p :: HasPermission(table', newId, p) <==>
            req.permissions.Some? && exists q :: q in req.permissions.value && Allowed(q) && EqualsIgnoreCase(q, p))
      && (forall x: RolePermission :: x.roleId != newId ==> (x in table' <==> x in table))
  {
    var table' := CreateRoleSpec(roles, table, req, newId, nowUtc).1;
    assert table' == Reconciled(table, newId, Desired(req.permissions));
    forall p
      ensures HasPermission(table', newId, p) <==>
        req.permissions.Some? && exists q :: q in req.permissions.value && Allowed(q) && EqualsIgnoreCase(q, p)
    {
      ReconciledHoldsDesired(table, newId, req.permissions, p);
    }
    forall x: RolePermission | x.roleId != newId ensures x in table' <==> x in table {
      ReconciledKeepsOtherRoles(table, newId, Desired(req.permissions), x);
    }
  }

  /**
   * CreateRole: a blank name is refused, a name already used verbatim is a
   * conflict, and a name whose trimmed form is taken fails on the unique
   * index; each changes nothing. Otherwise the create succeeds: one role is
   * added with the trimmed name and the description or an empty one, and
   * it holds exactly the listed catalogue keys.
   */
  lemma {:induction false} CreateRoleOutcome(roles: seq<Role>, table: seq<RolePermission>, req: RoleRequest, newId: Id, nowUtc: int)
    ensures var (roles', table', reply) := CreateRoleSpec(roles, table, req, newId, nowUtc);
      && (reply.Ok? || reply.BadRequest? || reply.Conflict? || reply.Failed?)
      && (reply.BadRequest? <==> IsNullOrWhiteSpace(req.name))
      && (reply.Conflict? <==> !IsNullOrWhiteSpace(req.name) && exists j :: 0 <= j < |roles| && roles[j].name == req.name.value)
      && (reply.Failed? <==>
            && !IsNullOrWhiteSpace(req.name)
            && (forall j :: 0 <= j < |roles| ==> roles[j].name != req.name.value)
            && exists j :: 0 <= j < |roles| && roles[j].name == Trim(req.name.value))
      && (!reply.Ok? ==> roles' == roles && table' == table)
      && (reply.Ok? ==>
            && reply.value == newId && roles'[..|roles|] == roles && |roles'| == |roles| + 1
            && roles'[|roles|].id == newId
            && roles'[|roles|].name == Trim(req.name.value) && roles'[|roles|].name != []
            && roles'[|roles|].description == req.description.GetOr("")
            && roles'[|roles|].createdAtUtc == nowUtc && roles'[|roles|].updatedAtUtc == nowUtc
            && (forall j :: 0 <= j < |roles| ==> roles[j].name != roles'[|roles|].name)
            && (forall p :: HasPermission(table', newId, p) <==>
                  req.permissions.Some? && exists q :: q in req.permissions.value && Allowed(q) && EqualsIgnoreCase(q, p))
            && (forall x: RolePermission :: x.roleId != newId ==> (x in table' <==> x in table)))
  {
    if !IsNullOrWhiteSpace(req.name) {
      TrimDropsOnlyBlank(req.name.value);
    }
    CreateRoleFailsOnTrimmedName(roles, table, req, newId, nowUtc);
    if CreateRoleSpec(roles, table, req, newId, nowUtc).2.Ok? {
      CreateRoleGrantsListed(roles, table, req, newId, nowUtc);
    }
  }

  /** The Roles and RolePermissions tables and the reply after UpdateRole. */
  function UpdateRoleSpec(roles: seq<Role>, table: seq<RolePermission>, id: Id, req: RoleRequest, nowUtc: int)
    : (seq<Role>, seq<RolePermission>, Reply<()>)
  {
    match Find(roles, RoleIdOf, id)
    case None => (roles, table, NotFound(""))
    case Some(i) =>
      var role := Renamed(roles[i], req, nowUtc);
      if NameTakenElsewhere(roles, i, role.name) then (roles, table, Failed("UniqueViolation"))
      else (roles[i := role], Reconciled(table, id, Desired(req.permissions)), Ok(()))
  }

  /** The role after an edit: a blank name keeps the old one, a null description too. */
  function Renamed(role: Role, req: RoleRequest, nowUtc: int): Role {
    role.(name := if IsNullOrWhiteSpace(req.name) then role.name else Trim(req.name.value),
          description := req.description.GetOr(role.description),
          updatedAtUtc := nowUtc)
  }

  method UpdateRole(db: Db, id: Id, req: RoleRequest, nowUtc: int) returns (reply: Reply<()>)
    requires db.Valid()
    modifies db`roles, db`rolePermissions
    ensures db.Valid()
    ensures (db.roles, db.rolePermissions, reply) == UpdateRoleSpec(old(db.roles), old(db.rolePermissions), id, req, nowUtc)
  {
    var found := Find(db.roles, RoleIdOf, id);
    if found.None? {
      return NotFound("");
    }
    var i := found.value;
    var role := Renamed(db.roles[i], req, nowUtc);
    if NameTakenElsewhere(db.roles, i, role.name) {
      return Failed("UniqueViolation");
    }
    UniqueUpdate(db.roles, RoleIdOf, i, role);
    var roles := db.roles[i := role];
    assert UniqueBy(roles, RoleNameOf);
    assert TablesValid(db.devices, db.cats, db.rules, db.logs, db.users, roles, db.userRoles);
    ghost var tables := (db.devices, db.cats, db.rules, db.logs, db.users, roles, db.userRoles);
    db.roles := roles;
    assert (db.devices, db.cats, db.rules, db.logs, db.users, db.roles, db.userRoles) == tables;
    var _ := UpdateRolePermissions(db, id, req.permissions);
    reply := Ok(());
  }

  /**
   * UpdateRole: an unknown Id is NotFound and a name held by another role
   * fails, both changing nothing; otherwise only that role changes, keeping
   * its Id, creation time, and its name or description where the request
   * leaves them blank or null.
   */
  lemma {:induction false} UpdateRoleOutcome(roles: seq<Role>, table: seq<RolePermission>, id: Id, req: RoleRequest, nowUtc: int)
    ensures var (roles', table', reply) := UpdateRoleSpec(roles, table, id, req, nowUtc);
      && (reply.Ok? || reply.NotFound? || reply.Failed?)
      && (reply.NotFound? <==> forall j :: 0 <= j < |roles| ==> roles[j].id != id)
      && (reply.Failed? <==>
            exists i ::
              && 0 <= i < |roles| && roles[i].id == id
              && (forall j :: 0 <= j < i ==> roles[j].id != id)
              && exists j :: 0 <= j < |roles| && j != i
                   && roles[j].name == (if IsNullOrWhiteSpace(req.name) then roles[i].name else Trim(req.name.value)))
      && (!reply.Ok? ==> roles' == roles && table' == table)
      && (reply.Ok? ==>
            && |roles'| == |roles|
            && exists i ::
                 && 0 <= i < |roles| && roles[i].id == id
                 && (forall j :: 0 <= j < |roles| && j != i ==> roles'[j] == roles[j] && roles[j].name != roles'[i].name)
                 && roles'[i].id == id && roles'[i].createdAtUtc == roles[i].createdAtUtc
                 && roles'[i].name == (if IsNullOrWhiteSpace(req.name) then roles[i].name else Trim(req.name.value))
                 && roles'[i].description == req.description.GetOr(roles[i].description))
  {
    UpdateRoleFailsOnTakenName(roles, table, id, req, nowUtc);
    match Find(roles, RoleIdOf, id)
    case None =>
      assert UpdateRoleSpec(roles, table, id, req, nowUtc) == (roles, table, NotFound(""));
    case Some(i) =>
      var role := Renamed(roles[i], req, nowUtc);
      if NameTakenElsewhere(roles, i, role.name) {
        assert UpdateRoleSpec(roles, table, id, req, nowUtc) == (roles, table, Failed("UniqueViolation"));
      } else {
        var roles' := roles[i := role];
        assert UpdateRoleSpec(roles, table, id, req, nowUtc) == (roles', Reconciled(table, id, Desired(req.permissions)), Ok(()));
        assert roles'[i] == role && roles[i].id == id;
        assert forall j :: 0 <= j < |roles| && j != i ==> roles'[j] == roles[j] && roles[j].name != role.name;
      }
  }

  /** An accepted UpdateRole changes only the first role with the Id, to a name no other role holds. */
  lemma {:induction false} UpdateRoleChangesOnlyThatRole(roles: seq<Role>, table: seq<RolePermission>, id: Id, req: RoleRequest, nowUtc: int)
    requires UpdateRoleSpec(roles, table, id, req, nowUtc).2.Ok?
    ensures var roles' := UpdateRoleSpec(roles, table, id, req, nowUtc).0;
      && |roles'| == |roles|
      && exists i ::
           && 0 <= i < |roles| && roles[i].id == id
           && (forall j :: 0 <= j < |roles| && j != i ==> roles'[j] == roles[j] && roles[j].name != roles'[i].name)
           && roles'[i].id == id && roles'[i].createdAtUtc == roles[i].createdAtUtc
           && roles'[i].name == (if IsNullOrWhiteSpace(req.name) then roles[i].name else Trim(req.name.value))
           && roles'[i].description == req.description.GetOr(roles[i].description)
  {
    var i := Find(roles, RoleIdOf, id).value;
    var role := Renamed(roles[i], req, nowUtc);
    var roles' := roles[i := role];
    assert UpdateRoleSpec(roles, table, id, req, nowUtc).0 == roles';
    assert roles'[i] == role;
    assert forall j :: 0 <= j < |roles| && j != i ==> roles'[j] == roles[j] && roles[j].name != role.name;
  }

  /** UpdateRole fails exactly when the first role with the Id would take a name another role holds. */
  lemma {:induction false} UpdateRoleFailsOnTakenName(roles: seq<Role>, table: seq<RolePermission>, id: Id, req: RoleRequest, nowUtc: int)
    ensures UpdateRoleSpec(roles, table, id, req, nowUtc).2.Failed? <==>
      exists i ::
        && 0 <= i < |roles| && roles[i].id == id
        && (forall j :: 0 <= j < i ==> roles[j].id != id)
        && exists j :: 0 <= j < |roles| && j != i
             && roles[j].name == (if IsNullOrWhiteSpace(req.name) then roles[i].name else Trim(req.name.value))
  {
    var found := Find(roles, RoleIdOf, id);
    if found.Some? {
      var i := found.value;
      var role := Renamed(roles[i], req, nowUtc);
      assert role.name == (if IsNullOrWhiteSpace(req.name) then roles[i].name else Trim(req.name.value));
      // The first row with the Id is the one Find returns.
      forall i' | 0 <= i' < |roles| && roles[i'].id == id && (forall j :: 0 <= j < i' ==> roles[j].id != id)
        ensures i' == i
      {
        assert RoleIdOf(roles[i']) == id && RoleIdOf(roles[i]) == id;
      }
      if NameTakenElsewhere(roles, i, role.name) {
        var j :| 0 <= j < |roles| && j != i && roles[j].name == role.name;
      }
    }
  }

  /** The Roles, UserRoles and RolePermissions tables and the reply after DeleteRole. */
  function DeleteRoleSpec(roles: seq<Role>, userRoles: seq<UserRole>, table: seq<RolePermission>, id: Id)
    : (seq<Role>, seq<UserRole>, seq<RolePermission>, Reply<()>)
  {
    match Find(roles, RoleIdOf, id)
    case None => (roles, userRoles, table, NotFound(""))
    case Some(i) =>
      (roles[..i] + roles[i + 1..], Without(userRoles, UserRoleRoleOf, id), Without(table, RolePermissionRoleOf, id), Ok(()))
  }

  method DeleteRole(db: Db, id: Id) returns (reply: Reply<()>)
    requires db.Valid()
    modifies db`roles, db`userRoles, db`rolePermissions
    ensures db.Valid()
    ensures (db.roles, db.userRoles, db.rolePermissions, reply)
         == DeleteRoleSpec(old(db.roles), old(db.userRoles), old(db.rolePermissions), id)
  {
    var found := Find(db.roles, RoleIdOf, id);
    if found.None? {
      return NotFound("");
    }
    var i := found.value;
    UniqueRemove(db.roles, RoleIdOf, i);
    UniqueRemove(db.roles, RoleNameOf, i);
    UniqueWithout(db.userRoles, UserRoleRoleOf, id, UserRoleKey);
    var roles := db.roles[..i] + db.roles[i + 1..];
    var userRoles := Without(db.userRoles, UserRoleRoleOf, id);
    assert TablesValid(db.devices, db.cats, db.rules, db.logs, db.users, roles, userRoles);
    ghost var tables := (db.devices, db.cats, db.rules, db.logs, db.users, roles, userRoles);
    db.roles, db.userRoles := roles, userRoles;
    assert (db.devices, db.cats, db.rules, db.logs, db.users, db.roles, db.userRoles) == tables;
    db.rolePermissions := Without(db.rolePermissions, RolePermissionRoleOf, id);
    reply := Ok(());
  }

  /**
   * DeleteRole: the role goes together with every UserRoles and
   * RolePermissions row naming it, and nothing else; an unknown Id is
   * NotFound and changes nothing.
   */
  lemma {:induction false} DeleteRoleCascades(roles: seq<Role>, userRoles: seq<UserRole>, table: seq<RolePermission>, id: Id)
    requires UniqueBy(roles, RoleIdOf)
    ensures var (roles', userRoles', table', reply) := DeleteRoleSpec(roles, userRoles, table, id);
      && (reply.Ok? || reply.NotFound?)
      && (reply.NotFound? <==> forall j :: 0 <= j < |roles| ==> roles[j].id != id)
      && (reply.NotFound? ==> roles' == roles && userRoles' == userRoles && table' == table)
      && (reply.Ok? ==>
            && |roles'| == |roles| - 1
            && (forall r :: r in roles' <==> r in roles && r.id != id)
            && (forall ur :: ur in userRoles' <==> ur in userRoles && ur.roleId != id)
            && (forall rp :: rp in table' <==> rp in table && rp.roleId != id))
  {
    match Find(roles, RoleIdOf, id)
    case None =>
    case Some(i) =>
      var roles' := roles[..i] + roles[i + 1..];
      assert forall j :: 0 <= j < |roles'| ==> roles'[j] == if j < i then roles[j] else roles[j + 1];
      forall r | r in roles && r.id != id ensures r in roles' {
        var k :| 0 <= k < |roles| && roles[k] == r;
        if k < i { assert roles'[k] == r; } else { assert roles'[k - 1] == r; }
      }
  }
}
