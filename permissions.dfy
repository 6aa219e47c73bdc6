/**
 * Permissions: the fixed catalogue of permission keys the admin console
 * knows, and the default key set of each built-in role name.
 */
module Permissions {
  import opened Common

  const CatsRead := "cats.read"
  const CatsWrite := "cats.write"
  const DevicesRead := "devices.read"
  const DevicesWrite := "devices.write"
  const DevicesPair := "devices.pair"
  const FeedLogsRead := "feedlogs.read"
  const FeedRulesRead := "feedrules.read"
  const FeedRulesWrite := "feedrules.write"
  const MediaRead := "media.read"
  const UsersManage := "users.manage"
  const RolesManage := "roles.manage"

  datatype PermissionDefinition = PermissionDefinition(key: string, labelText: string, description: string)

  /** `Permissions.All`, in declaration order. */
  function All(): seq<PermissionDefinition> {
    [ PermissionDefinition(CatsRead, "Cat: View", "View cat profiles and details."),
      PermissionDefinition(CatsWrite, "Cat: Manage", "Create, edit, or delete cat profiles."),
      PermissionDefinition(DevicesRead, "Device: View", "View feeder devices and status."),
      PermissionDefinition(DevicesWrite, "Device: Manage", "Create, edit, or delete devices."),
      PermissionDefinition(DevicesPair, "Device: Pair", "Generate or rotate pairing codes."),
      PermissionDefinition(FeedLogsRead, "Feed Logs: View", "View feeding logs and audit trails."),
      PermissionDefinition(FeedRulesRead, "Feed Rules: View", "View feed rule configuration."),
      PermissionDefinition(FeedRulesWrite, "Feed Rules: Manage", "Create or update feed rules."),
      PermissionDefinition(MediaRead, "Media: View", "Access uploaded images and snapshots."),
      PermissionDefinition(UsersManage, "Users: Manage", "Create, edit, or delete users."),
      PermissionDefinition(RolesManage, "Roles: Manage", "Create, edit, or delete roles and permissions.") ]
  }

  /** `All.Select(x => x.Key)`. */
  function AllKeys(): (r: seq<string>)
    ensures |r| == |All()| && forall i :: 0 <= i < |r| ==> r[i] == All()[i].key
  {
    seq(|All()|, i requires 0 <= i < |All()| => All()[i].key)
  }

  lemma AllKeysInOrder()
    ensures AllKeys() == [CatsRead, CatsWrite, DevicesRead, DevicesWrite, DevicesPair, FeedLogsRead, FeedRulesRead,
                          FeedRulesWrite, MediaRead, UsersManage, RolesManage]
  {
  }

  /** The keys ending in ".read": the view-only permissions. */
  predicate IsReadKey(k: string) {
    |k| >= 5 && k[|k| - 5..] == ".read"
  }

  /** GetDefaultPermissions: a switch on the exact (case-sensitive) role name. */
  function GetDefaultPermissions(roleName: string): (r: seq<string>)
    ensures forall k :: k in r ==> k in AllKeys()
  {
    AllKeysInOrder();
    if roleName == "SuperAdmin" then AllKeys()
    else if roleName == "Admin" then
      [CatsRead, CatsWrite, DevicesRead, DevicesWrite, DevicesPair, FeedLogsRead, FeedRulesRead, FeedRulesWrite, MediaRead]
    else if roleName == "Visitor" then [CatsRead, DevicesRead, FeedLogsRead, FeedRulesRead, MediaRead]
    else if roleName == "Viewer" then [CatsRead, DevicesRead, FeedLogsRead, FeedRulesRead, MediaRead]
    else []
  }

  /** The catalogue has eleven definitions with pairwise distinct keys. */
  lemma AllKeysDistinct()
    ensures |AllKeys()| == 11
    ensures forall i, j :: 0 <= i < j < |AllKeys()| ==> AllKeys()[i] != AllKeys()[j]
  {
    AllKeysInOrder();
  }

  /** SuperAdmin holds every key of the catalogue. */
  lemma SuperAdminHoldsAll()
    ensures forall k :: k in GetDefaultPermissions("SuperAdmin") <==> k in AllKeys()
  {
  }

  /** Admin holds every key except the two management keys. */
  lemma {:induction false} AdminHoldsAllButManagement(k: string)
    ensures k in GetDefaultPermissions("Admin") <==> k in AllKeys() && k != UsersManage && k != RolesManage
  {
    AllKeysInOrder();
  }

  /** Visitor and Viewer hold the same keys: exactly the catalogue's read keys. */
  lemma {:induction false} ViewerHoldsReadKeys(k: string)
    ensures GetDefaultPermissions("Visitor") == GetDefaultPermissions("Viewer")
    ensures k in GetDefaultPermissions("Viewer") <==> k in AllKeys() && IsReadKey(k)
  {
    AllKeysInOrder();
    if k in AllKeys() {
      ReadKeysOfCatalogue(k);
    }
  }

  /** The catalogue's keys ending in ".read" are its five view permissions. */
  lemma {:induction false} ReadKeysOfCatalogue(k: string)
    requires k in AllKeys()
    ensures IsReadKey(k) <==> k in {CatsRead, DevicesRead, FeedLogsRead, FeedRulesRead, MediaRead}
  {
    AllKeysInOrder();
    if k in {CatsRead, DevicesRead, FeedLogsRead, FeedRulesRead, MediaRead} {
      assert k[|k| - 5..] == ".read";
    } else {
      assert k[|k| - 1] != 'd';
      assert ".read"[4] == 'd';
    }
  }

  /** The built-in roles are nested: Viewer within Admin within SuperAdmin. */
  lemma {:induction false} DefaultsNested(k: string)
    ensures k in GetDefaultPermissions("Viewer") ==> k in GetDefaultPermissions("Admin")
    ensures k in GetDefaultPermissions("Admin") ==> k in GetDefaultPermissions("SuperAdmin")
  {
    AdminHoldsAllButManagement(k);
  }

  /** Any other name, including another spelling of a built-in one, gets nothing. */
  lemma UnknownRoleGetsNothing(roleName: string)
    requires roleName !in {"SuperAdmin", "Admin", "Visitor", "Viewer"}
    ensures GetDefaultPermissions(roleName) == []
  {
  }
}
