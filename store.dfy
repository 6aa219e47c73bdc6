/**
 * AppDbContext: the tables the controllers read and write, held as
 * sequences of rows in one object, and the schema's unique indexes as the
 * object's invariant. A controller action is a method that reassigns the
 * tables it saves; its new tables are a function of the old ones.
 */
module Store {
  import opened Common
  import opened Models

  /** No two rows of `s` share a key: a primary key or a unique index. */
  ghost predicate UniqueBy<T, K>(s: seq<T>, key: T -> K) {
    forall i, j :: 0 <= i < |s| && 0 <= j < |s| && i != j ==> key(s[i]) != key(s[j])
  }

  /** `FirstOrDefault(x => key(x) == k)`: the position of the first row with key `k`. */
  function Find<T, K(==)>(s: seq<T>, key: T -> K, k: K): (r: Option<nat>)
    ensures r.Some? ==> r.value < |s| && key(s[r.value]) == k
    ensures r.Some? ==> forall j :: 0 <= j < r.value ==> key(s[j]) != k
    ensures r.None? <==> forall j :: 0 <= j < |s| ==> key(s[j]) != k
  {
    if s == [] then None
    else if key(s[0]) == k then Some(0)
    else
      var rest := Find(s[1..], key, k);
      assert forall j :: 1 <= j < |s| ==> s[j] == s[1..][j - 1];
      if rest.Some? then Some(rest.value + 1) else None
  }

  /** Under a unique key, the row found is the only row with that key. */
  lemma FindUnique<T, K>(s: seq<T>, key: T -> K, k: K, j: nat)
    requires UniqueBy(s, key) && j < |s| && key(s[j]) == k
    ensures Find(s, key, k) == Some(j)
  {
  }

  /** Appending a row whose key is new keeps the key unique. */
  lemma UniqueAppend<T, K>(s: seq<T>, key: T -> K, x: T)
    requires UniqueBy(s, key) && Find(s, key, key(x)).None?
    ensures UniqueBy(s + [x], key)
  {
  }

  /** Replacing a row by one with the same key keeps the key unique. */
  lemma UniqueUpdate<T, K>(s: seq<T>, key: T -> K, i: nat, x: T)
    requires UniqueBy(s, key) && i < |s| && key(x) == key(s[i])
    ensures UniqueBy(s[i := x], key)
  {
  }

  /** Removing a row keeps the key unique. */
  lemma UniqueRemove<T, K>(s: seq<T>, key: T -> K, i: nat)
    requires UniqueBy(s, key) && i < |s|
    ensures UniqueBy(s[..i] + s[i + 1..], key)
  {
    var r := s[..i] + s[i + 1..];
    assert forall j :: 0 <= j < |r| ==> r[j] == if j < i then s[j] else s[j + 1];
  }

  /** `RemoveRange(Where(x => key(x) == k))`: the rows whose key is not `k`, in order. */
  function Without<T(!new), K(==)>(s: seq<T>, key: T -> K, k: K): (r: seq<T>)
    ensures |r| <= |s|
    ensures forall x :: x in r <==> x in s && key(x) != k
  {
    if s == [] then []
    else
      var rest := Without(s[1..], key, k);
      assert forall x :: x in s <==> x == s[0] || x in s[1..];
      if key(s[0]) == k then rest else [s[0]] + rest
  }

  /** Removing rows keeps any key unique. */
  lemma {:induction false} UniqueWithout<T(!new), K, K2>(s: seq<T>, key: T -> K, k: K, other: T -> K2)
    requires UniqueBy(s, other)
    ensures UniqueBy(Without(s, key, k), other)
  {
    if s != [] {
      assert UniqueBy(s[1..], other) by {
        assert forall i :: 0 <= i < |s| - 1 ==> s[1..][i] == s[i + 1];
      }
      UniqueWithout(s[1..], key, k, other);
      var rest := Without(s[1..], key, k);
      if key(s[0]) != k {
        forall y | y in rest ensures other(y) != other(s[0]) {
          var j :| 0 <= j < |s[1..]| && s[1..][j] == y;
          assert s[j + 1] == y;
        }
        var r := [s[0]] + rest;
        assert forall i :: 1 <= i < |r| ==> r[i] == rest[i - 1];
      }
    }
  }

  function DeviceIdOf(d: Device): Id { d.id }
  function DeviceCodeOf(d: Device): string { d.deviceCode }
  function CatIdOf(c: Cat): Id { c.id }
  function CatCodeOf(c: Cat): string { c.code }
  function RuleIdOf(r: FeedRule): Id { r.id }
  function LogIdOf(l: FeedLog): Id { l.id }
  function UserIdOf(u: User): Id { u.id }
  function UsernameOf(u: User): string { u.username }
  function RoleIdOf(r: Role): Id { r.id }
  function RoleNameOf(r: Role): string { r.name }
  function UserRoleKey(ur: UserRole): UserRole { ur }
  function UserRoleUserOf(ur: UserRole): Id { ur.userId }
  function UserRoleRoleOf(ur: UserRole): Id { ur.roleId }
  function RolePermissionRoleOf(rp: RolePermission): Id { rp.roleId }

  ghost predicate DevicesValid(devices: seq<Device>) {
    UniqueBy(devices, DeviceIdOf) && UniqueBy(devices, DeviceCodeOf)
  }

  ghost predicate CatsValid(cats: seq<Cat>) {
    UniqueBy(cats, CatIdOf) && UniqueBy(cats, CatCodeOf)
  }

  ghost predicate UsersValid(users: seq<User>) {
    UniqueBy(users, UserIdOf) && UniqueBy(users, UsernameOf)
  }

  ghost predicate RolesValid(roles: seq<Role>) {
    UniqueBy(roles, RoleIdOf) && UniqueBy(roles, RoleNameOf)
  }

  ghost predicate TablesValid(devices: seq<Device>, cats: seq<Cat>, rules: seq<FeedRule>, logs: seq<FeedLog>,
                              users: seq<User>, roles: seq<Role>, userRoles: seq<UserRole>) {
    && DevicesValid(devices) && CatsValid(cats) && UniqueBy(rules, RuleIdOf) && UniqueBy(logs, LogIdOf)
    && UsersValid(users) && RolesValid(roles) && UniqueBy(userRoles, UserRoleKey)
  }

  class Db {
    var devices: seq<Device>
    var cats: seq<Cat>
    var rules: seq<FeedRule>
    var logs: seq<FeedLog>
    var users: seq<User>
    var roles: seq<Role>
    var userRoles: seq<UserRole>
    var rolePermissions: seq<RolePermission>

    /**
     * The keys and unique indexes: every table's Id, Device.DeviceCode,
     * Cat.Code, User.Username, Role.Name, and the (UserId, RoleId) key of
     * UserRoles.
     */
    ghost predicate Valid()
      reads this
    {
      TablesValid(devices, cats, rules, logs, users, roles, userRoles)
    }

    /** An empty database. */
    constructor ()
      ensures Valid()
      ensures devices == [] && cats == [] && rules == [] && logs == []
      ensures users == [] && roles == [] && userRoles == [] && rolePermissions == []
    {
      devices, cats, rules, logs := [], [], [], [];
      users, roles, userRoles, rolePermissions := [], [], [], [];
    }
  }
}
