/**
 * The persisted entities (SaveHomelessKitty/Models) and their enums. Every
 * instant is a count of DateTime ticks; a `DateTime?` is an Option<int>.
 * The constructors named `New...` give an entity with the defaults its C#
 * property initialisers assign.
 */
module Models {
  import opened Common

  /** RuleScope: Global = 0, Device = 1, Cat = 2. */
  datatype RuleScope = GlobalScope | DeviceScope | CatScope

  function RuleScopeCode(s: RuleScope): int {
    match s
    case GlobalScope => 0
    case DeviceScope => 1
    case CatScope => 2
  }

  /** DecisionStatus: Allowed = 0, Denied = 1. */
  datatype DecisionStatus = Allowed | Denied

  function DecisionStatusCode(d: DecisionStatus): int {
    match d
    case Allowed => 0
    case Denied => 1
  }

  /** FeedResult: None = 0 (not reported yet), Success = 1, Failure = 2. */
  datatype FeedResult = NotReported | Success | Failure

  function FeedResultCode(r: FeedResult): int {
    match r
    case NotReported => 0
    case Success => 1
    case Failure => 2
  }

  /** DeviceStatus: Unknown = 0, Online = 1, Offline = 2, Error = 3. */
  datatype DeviceStatus = Unknown | Online | Offline | Error

  function DeviceStatusCode(s: DeviceStatus): int {
    match s
    case Unknown => 0
    case Online => 1
    case Offline => 2
    case Error => 3
  }

  datatype FeedRule = FeedRule(
    id: Id,
    scopeType: RuleScope,
    scopeId: Option<Id>,
    isActive: bool,
    dailyLimitCount: int,
    cooldownSeconds: int,
    name: string,
    createdAtUtc: int,
    updatedAtUtc: int)

  /** `new FeedRule { Id, ScopeType, ScopeId, CreatedAtUtc }`: active, 10 per day, 900 s, no name. */
  function NewFeedRule(id: Id, scopeType: RuleScope, scopeId: Option<Id>, createdAtUtc: int): (r: FeedRule)
    ensures r.isActive && r.dailyLimitCount == 10 && r.cooldownSeconds == 900 && r.name == ""
  {
    FeedRule(id, scopeType, scopeId, true, 10, 900, "", createdAtUtc, 0)
  }

  datatype FeedLog = FeedLog(
    id: Id,
    deviceId: Id,
    catId: Option<Id>,
    recognized: bool,
    confidence: Option<real>,
    snapshotImageId: Option<Id>,
    decision: DecisionStatus,
    denyReason: string,
    result: FeedResult,
    requestedAtUtc: int,
    triggeredAtUtc: Option<int>,
    decisionAtUtc: int,
    reportedAtUtc: Option<int>,
    dailyLimitCountSnapshot: int,
    cooldownSecondsSnapshot: int,
    portionGrams: Option<int>,
    note: string,
    createdAtUtc: int,
    updatedAtUtc: int)

  datatype Device = Device(
    id: Id,
    deviceCode: string,
    name: string,
    location: string,
    isActive: bool,
    status: DeviceStatus,
    batteryPercent: Option<int>,
    signalStrength: Option<int>,
    ipAddress: string,
    firmwareVersion: string,
    lastSeenAtUtc: Option<int>,
    note: string,
    createdAtUtc: int,
    updatedAtUtc: int)

  /** `new Device { Id, DeviceCode, Name, CreatedAtUtc, UpdatedAtUtc, LastSeenAtUtc }`: active, status Unknown. */
  function NewDevice(id: Id, code: string, name: string, nowUtc: int): (d: Device)
    ensures d.isActive && d.status == Unknown && d.deviceCode == code && d.name == name
  {
    Device(id, code, name, "", true, Unknown, None, None, "", "", Some(nowUtc), "", nowUtc, nowUtc)
  }

  datatype Cat = Cat(
    id: Id,
    code: string,
    alias: string,
    description: string,
    firstSeenAtUtc: Option<int>,
    lastSeenAtUtc: Option<int>,
    isActive: bool,
    primaryImageId: Option<Id>,
    createdAtUtc: int,
    updatedAtUtc: int)

  datatype User = User(
    id: Id,
    username: string,
    displayName: string,
    passwordHash: string,
    isActive: bool,
    createdAtUtc: int,
    updatedAtUtc: int)

  datatype Role = Role(
    id: Id,
    name: string,
    description: string,
    createdAtUtc: int,
    updatedAtUtc: int)

  /** A row of the UserRoles join table; its primary key is the pair itself. */
  datatype UserRole = UserRole(userId: Id, roleId: Id)

  datatype RolePermission = RolePermission(roleId: Id, permission: string)
}
