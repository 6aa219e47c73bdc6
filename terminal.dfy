/**
 * TerminalFeedController: the protocol a feeder terminal speaks. An allow
 * request registers or touches the terminal's device, asks the policy
 * engine for a verdict (unless the device is inactive) and appends one
 * FeedLog; a report moves an allowed log from "not reported" to Success or
 * Failure; a heartbeat registers the device if needed and overwrites its
 * status and telemetry.
 */
module TerminalFeedController {
  import opened Common
  import opened Models
  import opened Store
  import opened FeedDecisionService

  /** TerminalFeedAllowRequest; the pairing code is not read by the action. */
  datatype AllowRequest = AllowRequest(
    deviceCode: Option<string>,
    catId: Option<Id>,
    recognized: bool,
    confidence: Option<real>,
    triggeredAtUtc: Option<int>,
    snapshotImageId: Option<Id>)

  datatype AllowResponse = AllowResponse(
    allowed: bool,
    reason: string,
    logId: Option<Id>,
    cooldownRemainingSeconds: int,
    dailyRemainingCount: int,
    dailyLimitCount: int,
    cooldownSeconds: int)

  datatype ReportRequest = ReportRequest(
    logId: Id,
    deviceCode: Option<string>,
    result: FeedResult,
    reportedAtUtc: Option<int>,
    portionGrams: Option<int>,
    note: Option<string>)

  /** TerminalHeartbeatRequest; the pairing code and food counters are not read by the action. */
  datatype HeartbeatRequest = HeartbeatRequest(
    deviceCode: Option<string>,
    status: DeviceStatus,
    batteryPercent: Option<int>,
    signalStrength: Option<int>,
    ipAddress: Option<string>,
    firmwareVersion: Option<string>,
    timestampUtc: Option<int>,
    note: Option<string>)

  // ------------------------------------------------------- device lookup

  /**
   * The lookup the terminal actions evidently intend: the first device
   * registered under the trimmed code.
   */
  function DeviceByCode(devices: seq<Device>, code: string): (r: Option<nat>)
    ensures r.None? <==> forall j :: 0 <= j < |devices| ==> devices[j].deviceCode != Trim(code)
    ensures r.Some? ==> r.value < |devices| && devices[r.value].deviceCode == Trim(code)
    ensures r.Some? ==> forall j :: 0 <= j < r.value ==> devices[j].deviceCode != Trim(code)
  {
    Find(devices, DeviceCodeOf, Trim(code))
  }

  /**
   * The code as sent names no device but its trimmed form does. The
   * actions as written then register the trimmed code a second time, and
   * the DeviceCode unique index rejects the save.
   */
  predicate PaddedDuplicate(devices: seq<Device>, code: string) {
    && (forall j :: 0 <= j < |devices| ==> devices[j].deviceCode != code)
    && (exists j :: 0 <= j < |devices| && devices[j].deviceCode == Trim(code))
  }

  /** The two lookups that detect a padded duplicate. */
  lemma PaddedDuplicateByLookups(devices: seq<Device>, code: string)
    ensures PaddedDuplicate(devices, code)
      <==> Find(devices, DeviceCodeOf, code).None? && Find(devices, DeviceCodeOf, Trim(code)).Some?
  {
    var t := Trim(code);
    var found := Find(devices, DeviceCodeOf, t);
    if found.Some? {
      assert devices[found.value].deviceCode == t;
    }
  }

  /** A device registered on first contact: the trimmed code is both its code and its name. */
  function NewTerminalDevice(id: Id, code: string, nowUtc: int, status: DeviceStatus): (d: Device)
    ensures d.id == id && d.deviceCode == Trim(code) && d.name == Trim(code)
    ensures d.isActive && d.status == status && d.lastSeenAtUtc == Some(nowUtc)
  {
    NewDevice(id, Trim(code), Trim(code), nowUtc).(status := status)
  }

  function Touched(d: Device, nowUtc: int): Device {
    d.(lastSeenAtUtc := Some(nowUtc), updatedAtUtc := nowUtc)
  }

  /**
   * The device step of an allow request once the lookup has run: the
   * device found is touched, or a new one is registered under the trimmed
   * code. The second component is the requesting device's position.
   */
  function TouchOrRegister(devices: seq<Device>, found: Option<nat>, code: string, newId: Id, nowUtc: int)
    : (r: (seq<Device>, nat))
    requires found.Some? ==> found.value < |devices|
    ensures r.1 < |r.0|
  {
    if found.Some? then (devices[found.value := Touched(devices[found.value], nowUtc)], found.value)
    else (devices + [NewTerminalDevice(newId, code, nowUtc, Online)], |devices|)
  }

  /** The device step as AllowFeed writes it: lookup by the code as sent. */
  function AllowDevicesAsWritten(devices: seq<Device>, code: string, newId: Id, nowUtc: int): (r: (seq<Device>, nat))
    ensures r.1 < |r.0| && (r.0[r.1].deviceCode == code || r.0[r.1].deviceCode == Trim(code))
  {
    TouchOrRegister(devices, Find(devices, DeviceCodeOf, code), code, newId, nowUtc)
  }

  /** The device step with the intended lookup by the trimmed code. */
  function AllowDevices(devices: seq<Device>, code: string, newId: Id, nowUtc: int): (r: (seq<Device>, nat))
    ensures r.1 < |r.0| && r.0[r.1].deviceCode == Trim(code)
  {
    TouchOrRegister(devices, DeviceByCode(devices, code), code, newId, nowUtc)
  }

  /**
   * The step as written keeps device Ids unique, and keeps codes unique
   * exactly when the code is not a padded duplicate.
   */
  lemma {:induction false} AllowDevicesAsWrittenIndex(devices: seq<Device>, code: string, newId: Id, nowUtc: int)
    requires DevicesValid(devices) && Find(devices, DeviceIdOf, newId).None?
    ensures var after := AllowDevicesAsWritten(devices, code, newId, nowUtc).0;
      UniqueBy(after, DeviceIdOf) && (UniqueBy(after, DeviceCodeOf) <==> !PaddedDuplicate(devices, code))
  {
    var found := Find(devices, DeviceCodeOf, code);
    if found.Some? {
      var i := found.value;
      UniqueUpdate(devices, DeviceIdOf, i, Touched(devices[i], nowUtc));
      UniqueUpdate(devices, DeviceCodeOf, i, Touched(devices[i], nowUtc));
      assert devices[i].deviceCode == code;
    } else {
      var d := NewTerminalDevice(newId, code, nowUtc, Online);
      var after := devices + [d];
      UniqueAppend(devices, DeviceIdOf, d);
      var other := Find(devices, DeviceCodeOf, Trim(code));
      if other.Some? {
        assert after[other.value].deviceCode == after[|devices|].deviceCode;
      } else {
        UniqueAppend(devices, DeviceCodeOf, d);
      }
    }
  }

  /** Registration by the trimmed code keeps Ids and device codes unique. */
  lemma {:induction false} AllowDevicesKeepKeys(devices: seq<Device>, code: string, newId: Id, nowUtc: int)
    requires DevicesValid(devices)
    requires Find(devices, DeviceIdOf, newId).None?
    ensures DevicesValid(AllowDevices(devices, code, newId, nowUtc).0)
  {
    var found := DeviceByCode(devices, code);
    if found.Some? {
      var i := found.value;
      UniqueUpdate(devices, DeviceIdOf, i, Touched(devices[i], nowUtc));
      UniqueUpdate(devices, DeviceCodeOf, i, Touched(devices[i], nowUtc));
    } else {
      var d := NewTerminalDevice(newId, code, nowUtc, Online);
      UniqueAppend(devices, DeviceIdOf, d);
      UniqueAppend(devices, DeviceCodeOf, d);
    }
  }

  /** "RPI-001 " trims to "RPI-001". */
  lemma PaddedExampleTrims()
    ensures Trim("RPI-001 ") == "RPI-001"
  {
    var code := "RPI-001 ";
    assert Lead(code) == 0 && code[0..] == code;
    assert Body(code[..7]) == 7;
    assert Trim(code) == code[..7] == "RPI-001";
  }

  // ----------------------------------------------------------- allow feed

  /**
   * The log an allow request appends. `verdict` is the engine's answer, or
   * None for an inactive device, which the engine is never asked about.
   */
  function AllowLog(logId: Id, deviceId: Id, req: AllowRequest, nowUtc: int, verdict: Option<FeedDecisionResult>): FeedLog {
    var log := FeedLog(logId, deviceId, req.catId, req.recognized, req.confidence, req.snapshotImageId,
      Denied, "", NotReported, nowUtc, Some(req.triggeredAtUtc.GetOr(nowUtc)), nowUtc, None,
      0, 0, None, "", nowUtc, nowUtc);
    match verdict
    case None => log.(decision := Denied, denyReason := "DeviceInactive")
    case Some(v) => log.(
      decision := if v.allowed then Allowed else Denied,
      denyReason := if v.allowed then "" else v.reason,
      dailyLimitCountSnapshot := v.dailyLimitCount,
      cooldownSecondsSnapshot := v.cooldownSeconds)
  }

  function AllowResponseFor(logId: Id, verdict: Option<FeedDecisionResult>): AllowResponse {
    match verdict
    case None => AllowResponse(false, "DeviceInactive", Some(logId), 0, 0, 0, 0)
    case Some(v) => AllowResponse(v.allowed, v.reason, Some(logId), v.cooldownRemainingSeconds,
      v.dailyRemainingCount, v.dailyLimitCount, v.cooldownSeconds)
  }

  /**
   * The rest of an allow request once the requesting device is at `k`: the
   * engine's verdict at the trigger instant (or `nowUtc` when the terminal
   * sends none; none at all for an inactive device), the log appended and
   * the reply.
   */
  function AllowAt(devices: seq<Device>, k: nat, rules: seq<FeedRule>, logs: seq<FeedLog>, req: AllowRequest,
                   nowUtc: int, newLogId: Id, offset: int)
    : (r: (seq<Device>, seq<FeedLog>, Reply<AllowResponse>))
    requires k < |devices|
  {
    var device := devices[k];
    var verdict :=
      if device.isActive then
        Some(Verdict(ResolveRule(rules, device.id, req.catId), SuccessReports(logs, device.id),
                     req.triggeredAtUtc.GetOr(nowUtc), offset))
      else None;
    (devices, logs + [AllowLog(newLogId, device.id, req, nowUtc, verdict)], Ok(AllowResponseFor(newLogId, verdict)))
  }

  /**
   * AllowFeed as written, as a function of the tables it reads: the new
   * Devices and FeedLogs tables and the reply. The device is looked up by
   * the code as sent; a padded duplicate fails on the unique index when
   * saved, and nothing is stored.
   */
  function AllowFeedSpec(devices: seq<Device>, rules: seq<FeedRule>, logs: seq<FeedLog>, req: AllowRequest,
                         nowUtc: int, newDeviceId: Id, newLogId: Id, offset: int)
    : (r: (seq<Device>, seq<FeedLog>, Reply<AllowResponse>))
  {
    if IsNullOrWhiteSpace(req.deviceCode) then (devices, logs, BadRequest("DeviceCodeRequired"))
    else if PaddedDuplicate(devices, req.deviceCode.value) then (devices, logs, Failed("UniqueViolation"))
    else
      var (after, k) := AllowDevicesAsWritten(devices, req.deviceCode.value, newDeviceId, nowUtc);
      AllowAt(after, k, rules, logs, req, nowUtc, newLogId, offset)
  }

  /** AllowFeed with the intended lookup by the trimmed code. */
  function AllowFeedIntended(devices: seq<Device>, rules: seq<FeedRule>, logs: seq<FeedLog>, req: AllowRequest,
                             nowUtc: int, newDeviceId: Id, newLogId: Id, offset: int)
    : (r: (seq<Device>, seq<FeedLog>, Reply<AllowResponse>))
  {
    if IsNullOrWhiteSpace(req.deviceCode) then (devices, logs, BadRequest("DeviceCodeRequired"))
    else
      var (after, k) := AllowDevices(devices, req.deviceCode.value, newDeviceId, nowUtc);
      AllowAt(after, k, rules, logs, req, nowUtc, newLogId, offset)
  }

  /**
   * With the intended lookup every request with a code is accepted, device
   * codes stay unique, and a code already registered in trimmed form adds
   * no device; the log is for the device registered under the trimmed code.
   */
  lemma {:induction false} AllowFeedIntendedKeepsKeys(devices: seq<Device>, rules: seq<FeedRule>, logs: seq<FeedLog>,
                                                      req: AllowRequest, nowUtc: int, newDeviceId: Id, newLogId: Id, offset: int)
    requires DevicesValid(devices) && Find(devices, DeviceIdOf, newDeviceId).None?
    requires !IsNullOrWhiteSpace(req.deviceCode)
    ensures var (devices', logs', reply) := AllowFeedIntended(devices, rules, logs, req, nowUtc, newDeviceId, newLogId, offset);
      && reply.Ok? && DevicesValid(devices') && |logs'| == |logs| + 1
      && ((exists j :: 0 <= j < |devices| && devices[j].deviceCode == Trim(req.deviceCode.value)) ==> |devices'| == |devices|)
      && exists k :: 0 <= k < |devices'| && devices'[k].id == logs'[|logs|].deviceId
           && devices'[k].deviceCode == Trim(req.deviceCode.value)
  {
    var code := req.deviceCode.value;
    AllowDevicesKeepKeys(devices, code, newDeviceId, nowUtc);
    var (after, k) := AllowDevices(devices, code, newDeviceId, nowUtc);
    var logs' := AllowFeedIntended(devices, rules, logs, req, nowUtc, newDeviceId, newLogId, offset).1;
    assert logs'[|logs|].deviceId == after[k].id;
  }

  /**
   * A terminal registered as "RPI-001" that sends "RPI-001 ": as written the
   * step registers the code a second time and the request fails; with the
   * intended lookup the same request is accepted and adds no device.
   */
  lemma AsWrittenLookupDuplicatesCode(rules: seq<FeedRule>, logs: seq<FeedLog>, req: AllowRequest,
                                      nowUtc: int, newLogId: Id, offset: int)
    requires req.deviceCode == Some("RPI-001 ")
    ensures var devices := [NewDevice(1, "RPI-001", "RPI-001", 0)];
      && UniqueBy(devices, DeviceCodeOf)
      && !UniqueBy(AllowDevicesAsWritten(devices, "RPI-001 ", 2, nowUtc).0, DeviceCodeOf)
      && AllowFeedSpec(devices, rules, logs, req, nowUtc, 2, newLogId, offset) == (devices, logs, Failed("UniqueViolation"))
      && var (devices', _, reply) := AllowFeedIntended(devices, rules, logs, req, nowUtc, 2, newLogId, offset);
         reply.Ok? && |devices'| == 1
  {
    var devices := [NewDevice(1, "RPI-001", "RPI-001", 0)];
    PaddedExampleTrims();
    assert devices[0].deviceCode == Trim("RPI-001 ");
    assert PaddedDuplicate(devices, "RPI-001 ");
    AllowDevicesAsWrittenIndex(devices, "RPI-001 ", 2, nowUtc);
    AllowFeedIntendedKeepsKeys(devices, rules, logs, req, nowUtc, 2, newLogId, offset);
  }

  /**
   * The part of AllowFeed after the device step: an inactive device is
   * denied without the engine, an active one gets the engine's verdict at
   * the trigger instant; the log records it and the reply carries it. The
   * reply's log id is filled in once the log is saved.
   */
  method DecideAndLog(rules: seq<FeedRule>, logs: seq<FeedLog>, device: Device, req: AllowRequest, nowUtc: int, newLogId: Id,
                      businessTimeZone: Option<string>, tzdb: map<string, int>)
    returns (log: FeedLog, response: AllowResponse)
    ensures var verdict :=
        if device.isActive then
          Some(Verdict(ResolveRule(rules, device.id, req.catId), SuccessReports(logs, device.id),
                       req.triggeredAtUtc.GetOr(nowUtc), ZoneOffset(businessTimeZone, tzdb)))
        else None;
      && log == AllowLog(newLogId, device.id, req, nowUtc, verdict)
      && response.(logId := Some(newLogId)) == AllowResponseFor(newLogId, verdict)
  {
    var triggeredAtUtc := req.triggeredAtUtc.GetOr(nowUtc);
    ghost var verdict: Option<FeedDecisionResult> := None;
    response := AllowResponse(false, "", None, 0, 0, 0, 0);
    log := FeedLog(newLogId, device.id, req.catId, req.recognized, req.confidence, req.snapshotImageId,
      Denied, "", NotReported, nowUtc, Some(triggeredAtUtc), nowUtc, None, 0, 0, None, "", nowUtc, nowUtc);
    if !device.isActive {
      log := log.(decision := Denied, denyReason := "DeviceInactive");
      response := response.(allowed := false, reason := log.denyReason);
    } else {
      var decision := Decide(rules, logs, device.id, req.catId, Some(triggeredAtUtc), nowUtc, businessTimeZone, tzdb);
      response := response.(allowed := decision.allowed, reason := decision.reason,
        cooldownRemainingSeconds := decision.cooldownRemainingSeconds,
        dailyRemainingCount := decision.dailyRemainingCount,
        dailyLimitCount := decision.dailyLimitCount, cooldownSeconds := decision.cooldownSeconds);
      log := log.(decision := if decision.allowed then Allowed else Denied,
        denyReason := if decision.allowed then "" else decision.reason,
        dailyLimitCountSnapshot := decision.dailyLimitCount,
        cooldownSecondsSnapshot := decision.cooldownSeconds);
      verdict := Some(decision);
    }
    assert log == AllowLog(newLogId, device.id, req, nowUtc, verdict);
    assert response.(logId := Some(newLogId)) == AllowResponseFor(newLogId, verdict);
  }

  /** AllowFeed. The clock, the two new Guids and the time-zone table are parameters. */
  method AllowFeed(db: Db, req: AllowRequest, nowUtc: int, newDeviceId: Id, newLogId: Id,
                   businessTimeZone: Option<string>, tzdb: map<string, int>)
    returns (reply: Reply<AllowResponse>)
    requires db.Valid()
    requires Find(db.devices, DeviceIdOf, newDeviceId).None? && Find(db.logs, LogIdOf, newLogId).None?
    modifies db`devices, db`logs
    ensures db.Valid()
    ensures (db.devices, db.logs, reply)
      == AllowFeedSpec(old(db.devices), db.rules, old(db.logs), req, nowUtc, newDeviceId, newLogId,
                       ZoneOffset(businessTimeZone, tzdb))
  {
    if IsNullOrWhiteSpace(req.deviceCode) {
      return BadRequest("DeviceCodeRequired");
    }
    var code := req.deviceCode.value;
    // The new and touched rows are staged and saved together, as SaveChangesAsync does.
    var devices := db.devices;
    var found := Find(devices, DeviceCodeOf, code);
    var k: nat;
    if found.None? {
      k := |devices|;
      devices := devices + [NewTerminalDevice(newDeviceId, code, nowUtc, Online)];
    } else {
      k := found.value;
      devices := devices[k := Touched(devices[k], nowUtc)];
    }
    var device := devices[k];
    assert (devices, k) == AllowDevicesAsWritten(db.devices, code, newDeviceId, nowUtc);
    // A second device under the trimmed code, which the DeviceCode index rejects on saving.
    var duplicate := found.None? && Find(db.devices, DeviceCodeOf, Trim(code)).Some?;
    PaddedDuplicateByLookups(db.devices, code);

    var log, response := DecideAndLog(db.rules, db.logs, device, req, nowUtc, newLogId, businessTimeZone, tzdb);
    if duplicate {
      return Failed("UniqueViolation");
    }
    response := response.(logId := Some(log.id));
    assert (devices, db.logs + [log], Ok(response))
      == AllowAt(devices, k, db.rules, db.logs, req, nowUtc, newLogId, ZoneOffset(businessTimeZone, tzdb));
    assert (devices, db.logs + [log], Ok(response))
      == AllowFeedSpec(db.devices, db.rules, db.logs, req, nowUtc, newDeviceId, newLogId, ZoneOffset(businessTimeZone, tzdb));

    AllowStagedTablesValid(db.devices, db.cats, db.rules, db.logs, db.users, db.roles, db.userRoles,
                           code, newDeviceId, nowUtc, log);
    ghost var tables := (devices, db.cats, db.rules, db.logs + [log], db.users, db.roles, db.userRoles);
    db.devices, db.logs := devices, db.logs + [log];
    assert (db.devices, db.cats, db.rules, db.logs, db.users, db.roles, db.userRoles) == tables;
    reply := Ok(response);
  }

  /** The staged Devices and FeedLogs tables of an accepted allow keep every unique index. */
  lemma AllowStagedTablesValid(devices: seq<Device>, cats: seq<Cat>, rules: seq<FeedRule>, logs: seq<FeedLog>,
                               users: seq<User>, roles: seq<Role>, userRoles: seq<UserRole>,
                               code: string, newDeviceId: Id, nowUtc: int, log: FeedLog)
    requires TablesValid(devices, cats, rules, logs, users, roles, userRoles)
    requires Find(devices, DeviceIdOf, newDeviceId).None? && Find(logs, LogIdOf, log.id).None?
    requires !PaddedDuplicate(devices, code)
    ensures TablesValid(AllowDevicesAsWritten(devices, code, newDeviceId, nowUtc).0, cats, rules, logs + [log],
                        users, roles, userRoles)
  {
    AllowDevicesAsWrittenIndex(devices, code, newDeviceId, nowUtc);
    UniqueAppend(logs, LogIdOf, log);
  }

  /** A blank or missing device code is refused and nothing is stored. */
  lemma AllowBlankCodeStoresNothing(devices: seq<Device>, rules: seq<FeedRule>, logs: seq<FeedLog>, req: AllowRequest,
                                    nowUtc: int, newDeviceId: Id, newLogId: Id, offset: int)
    requires IsNullOrWhiteSpace(req.deviceCode)
    ensures AllowFeedSpec(devices, rules, logs, req, nowUtc, newDeviceId, newLogId, offset)
      == (devices, logs, BadRequest("DeviceCodeRequired"))
  {
  }

  /**
   * An allow request with a code fails, storing nothing, exactly for a
   * padded duplicate. Otherwise it appends exactly one log: not reported
   * yet, requested now, for the device registered under the code as sent or
   * its trimmed form, and its id is the one the reply returns. The log's
   * decision and deny reason agree with the reply.
   */
  lemma {:induction false} AllowAppendsOneLog(devices: seq<Device>, rules: seq<FeedRule>, logs: seq<FeedLog>, req: AllowRequest,
                                              nowUtc: int, newDeviceId: Id, newLogId: Id, offset: int)
    requires !IsNullOrWhiteSpace(req.deviceCode)
    ensures var code := req.deviceCode.value;
      var (devices', logs', reply) := AllowFeedSpec(devices, rules, logs, req, nowUtc, newDeviceId, newLogId, offset);
      && (reply.Failed? <==> PaddedDuplicate(devices, code))
      && (reply.Failed? ==> devices' == devices && logs' == logs)
      && (!reply.Failed? ==>
            && |logs'| == |logs| + 1 && logs'[..|logs|] == logs
            && var log := logs'[|logs|];
            && log.id == newLogId && log.result == NotReported && log.reportedAtUtc == None
            && log.requestedAtUtc == nowUtc && log.triggeredAtUtc == Some(req.triggeredAtUtc.GetOr(nowUtc))
            && (exists k :: 0 <= k < |devices'| && devices'[k].id == log.deviceId
                  && (devices'[k].deviceCode == code || devices'[k].deviceCode == Trim(code)))
            && reply.Ok? && reply.value.logId == Some(newLogId)
            && (log.decision == Allowed <==> reply.value.allowed)
            && log.denyReason == reply.value.reason
            && log.dailyLimitCountSnapshot == reply.value.dailyLimitCount
            && log.cooldownSecondsSnapshot == reply.value.cooldownSeconds)
  {
    var code := req.deviceCode.value;
    if !PaddedDuplicate(devices, code) {
      var (after, k) := AllowDevicesAsWritten(devices, code, newDeviceId, nowUtc);
      var logs' := AllowFeedSpec(devices, rules, logs, req, nowUtc, newDeviceId, newLogId, offset).1;
      assert logs' == logs + [logs'[|logs|]];
      assert logs'[..|logs|] == logs;
      assert logs'[|logs|].deviceId == after[k].id;
    }
  }

  /** A code registered neither as sent nor trimmed registers a new device under the trimmed code, active and Online. */
  lemma {:induction false} AllowRegistersUnknownDevice(devices: seq<Device>, rules: seq<FeedRule>, logs: seq<FeedLog>, req: AllowRequest,
                                                       nowUtc: int, newDeviceId: Id, newLogId: Id, offset: int)
    requires !IsNullOrWhiteSpace(req.deviceCode)
    requires forall j :: 0 <= j < |devices| ==>
      devices[j].deviceCode != req.deviceCode.value && devices[j].deviceCode != Trim(req.deviceCode.value)
    ensures AllowFeedSpec(devices, rules, logs, req, nowUtc, newDeviceId, newLogId, offset).0
      == devices + [NewTerminalDevice(newDeviceId, req.deviceCode.value, nowUtc, Online)]
  {
    assert Find(devices, DeviceCodeOf, req.deviceCode.value).None?;
    assert !PaddedDuplicate(devices, req.deviceCode.value);
  }

  /** A code registered as sent changes only that device's LastSeenAtUtc and UpdatedAtUtc. */
  lemma {:induction false} AllowTouchesKnownDevice(devices: seq<Device>, rules: seq<FeedRule>, logs: seq<FeedLog>, req: AllowRequest,
                                                   nowUtc: int, newDeviceId: Id, newLogId: Id, offset: int, i: nat)
    requires UniqueBy(devices, DeviceCodeOf)
    requires !IsNullOrWhiteSpace(req.deviceCode)
    requires i < |devices| && devices[i].deviceCode == req.deviceCode.value
    ensures AllowFeedSpec(devices, rules, logs, req, nowUtc, newDeviceId, newLogId, offset).0
      == devices[i := devices[i].(lastSeenAtUtc := Some(nowUtc), updatedAtUtc := nowUtc)]
  {
    FindUnique(devices, DeviceCodeOf, req.deviceCode.value, i);
  }

  /** An inactive device is denied "DeviceInactive" without consulting the engine; its snapshots stay 0. */
  lemma {:induction false} AllowInactiveDevice(devices: seq<Device>, rules: seq<FeedRule>, logs: seq<FeedLog>, req: AllowRequest,
                                               nowUtc: int, newDeviceId: Id, newLogId: Id, offset: int, i: nat)
    requires UniqueBy(devices, DeviceCodeOf)
    requires !IsNullOrWhiteSpace(req.deviceCode)
    requires i < |devices| && devices[i].deviceCode == req.deviceCode.value && !devices[i].isActive
    ensures var (_, logs', reply) := AllowFeedSpec(devices, rules, logs, req, nowUtc, newDeviceId, newLogId, offset);
      && reply == Ok(AllowResponse(false, "DeviceInactive", Some(newLogId), 0, 0, 0, 0))
      && logs' == logs + [AllowLog(newLogId, devices[i].id, req, nowUtc, None)]
      && logs'[|logs|].decision == Denied && logs'[|logs|].denyReason == "DeviceInactive"
      && logs'[|logs|].dailyLimitCountSnapshot == 0 && logs'[|logs|].cooldownSecondsSnapshot == 0
  {
    FindUnique(devices, DeviceCodeOf, req.deviceCode.value, i);
  }

  /**
   * For an active device the reply mirrors the engine's verdict for that
   * device at the trigger instant, over the history before this request.
   */
  lemma {:induction false} AllowActiveMirrorsVerdict(devices: seq<Device>, rules: seq<FeedRule>, logs: seq<FeedLog>, req: AllowRequest,
                                                     nowUtc: int, newDeviceId: Id, newLogId: Id, offset: int, i: nat)
    requires UniqueBy(devices, DeviceCodeOf)
    requires !IsNullOrWhiteSpace(req.deviceCode)
    requires i < |devices| && devices[i].deviceCode == req.deviceCode.value && devices[i].isActive
    ensures var (_, _, reply) := AllowFeedSpec(devices, rules, logs, req, nowUtc, newDeviceId, newLogId, offset);
      var v := Verdict(ResolveRule(rules, devices[i].id, req.catId), SuccessReports(logs, devices[i].id),
                       req.triggeredAtUtc.GetOr(nowUtc), offset);
      && reply.Ok? && reply.value.allowed == v.allowed && reply.value.reason == v.reason
      && reply.value.cooldownRemainingSeconds == v.cooldownRemainingSeconds
      && reply.value.dailyRemainingCount == v.dailyRemainingCount
      && reply.value.dailyLimitCount == v.dailyLimitCount && reply.value.cooldownSeconds == v.cooldownSeconds
  {
    FindUnique(devices, DeviceCodeOf, req.deviceCode.value, i);
  }

  /**
   * The log an allow request appends is never a reported success, so no
   * device's history, and hence no later verdict, changes.
   */
  lemma {:induction false} AllowKeepsHistory(devices: seq<Device>, rules: seq<FeedRule>, logs: seq<FeedLog>, req: AllowRequest,
                                             nowUtc: int, newDeviceId: Id, newLogId: Id, offset: int, deviceId: Id)
    ensures var logs' := AllowFeedSpec(devices, rules, logs, req, nowUtc, newDeviceId, newLogId, offset).1;
      SuccessReports(logs', deviceId) == SuccessReports(logs, deviceId)
  {
    var logs' := AllowFeedSpec(devices, rules, logs, req, nowUtc, newDeviceId, newLogId, offset).1;
    if logs' != logs {
      var l := logs'[|logs|];
      assert logs' == logs + [l];
      SuccessReportsAppend(logs, l, deviceId);
      assert SuccessReports(logs, deviceId) + [] == SuccessReports(logs, deviceId);
    }
  }

  // ---------------------------------------------------------- report feed

  function LogOwnerKey(l: FeedLog): (Id, Id) { (l.id, l.deviceId) }

  /** The log after a successful report at `reportedAtUtc`. */
  function Reported(l: FeedLog, req: ReportRequest, reportedAtUtc: int): FeedLog {
    l.(result := req.result, reportedAtUtc := Some(reportedAtUtc), portionGrams := req.portionGrams,
       note := req.note.GetOr(""), updatedAtUtc := reportedAtUtc)
  }

  /**
   * ReportFeed as a function of the tables: the checks run in order
   * DeviceCodeRequired, DeviceNotFound, LogNotFound, LogNotAllowed,
   * ResultRequired; the device is looked up by the code as sent.
   */
  function ReportFeedSpec(devices: seq<Device>, logs: seq<FeedLog>, req: ReportRequest, clockUtc: int)
    : (r: (seq<Device>, seq<FeedLog>, Reply<()>))
  {
    if IsNullOrWhiteSpace(req.deviceCode) then (devices, logs, BadRequest("DeviceCodeRequired"))
    else match Find(devices, DeviceCodeOf, req.deviceCode.value)
      case None => (devices, logs, NotFound("DeviceNotFound"))
      case Some(d) =>
        match Find(logs, LogOwnerKey, (req.logId, devices[d].id))
        case None => (devices, logs, NotFound("LogNotFound"))
        case Some(i) =>
          if logs[i].decision != Allowed then (devices, logs, Conflict("LogNotAllowed"))
          else if req.result == NotReported then (devices, logs, BadRequest("ResultRequired"))
          else
            var t := req.reportedAtUtc.GetOr(clockUtc);
            (devices[d := Touched(devices[d], t)], logs[i := Reported(logs[i], req, t)], Ok(()))
  }

  method ReportFeed(db: Db, req: ReportRequest, clockUtc: int) returns (reply: Reply<()>)
    requires db.Valid()
    modifies db`devices, db`logs
    ensures db.Valid()
    ensures (db.devices, db.logs, reply) == ReportFeedSpec(old(db.devices), old(db.logs), req, clockUtc)
  {
    if IsNullOrWhiteSpace(req.deviceCode) {
      return BadRequest("DeviceCodeRequired");
    }
    var device := Find(db.devices, DeviceCodeOf, req.deviceCode.value);
    if device.None? {
      return NotFound("DeviceNotFound");
    }
    var d := device.value;
    var log := Find(db.logs, LogOwnerKey, (req.logId, db.devices[d].id));
    if log.None? {
      return NotFound("LogNotFound");
    }
    var i := log.value;
    if db.logs[i].decision != Allowed {
      return Conflict("LogNotAllowed");
    }
    if req.result == NotReported {
      return BadRequest("ResultRequired");
    }
    var nowUtc := req.reportedAtUtc.GetOr(clockUtc);
    UniqueUpdate(db.logs, LogIdOf, i, Reported(db.logs[i], req, nowUtc));
    db.logs := db.logs[i := Reported(db.logs[i], req, nowUtc)];
    UniqueUpdate(db.devices, DeviceIdOf, d, Touched(db.devices[d], nowUtc));
    UniqueUpdate(db.devices, DeviceCodeOf, d, Touched(db.devices[d], nowUtc));
    db.devices := db.devices[d := Touched(db.devices[d], nowUtc)];
    reply := Ok(());
  }

  /**
   * A report succeeds exactly when the code names a device that owns the
   * log, the log was allowed and a result is given; every refusal leaves
   * both tables as they were. A success writes the result, the report
   * instant (the terminal's or the clock's), the portion and the note into
   * that log, marks the device seen at that instant, and changes no other
   * row or field.
   */
  lemma {:induction false} ReportOutcome(devices: seq<Device>, logs: seq<FeedLog>, req: ReportRequest, clockUtc: int)
    requires UniqueBy(devices, DeviceCodeOf) && UniqueBy(logs, LogIdOf)
    ensures var (devices', logs', reply) := ReportFeedSpec(devices, logs, req, clockUtc);
      && (!reply.Ok? ==> devices' == devices && logs' == logs)
      && (reply.Ok? <==>
          && !IsNullOrWhiteSpace(req.deviceCode)
          && req.result != NotReported
          && exists d, i :: 0 <= d < |devices| && 0 <= i < |logs|
               && devices[d].deviceCode == req.deviceCode.value
               && logs[i].id == req.logId && logs[i].deviceId == devices[d].id && logs[i].decision == Allowed)
      && (reply.Ok? ==>
            var t := req.reportedAtUtc.GetOr(clockUtc);
            exists d, i :: 0 <= d < |devices| && 0 <= i < |logs|
              && devices[d].deviceCode == req.deviceCode.value
              && logs[i].id == req.logId && logs[i].deviceId == devices[d].id
              && devices' == devices[d := devices[d].(lastSeenAtUtc := Some(t), updatedAtUtc := t)]
              && logs' == logs[i := logs[i].(result := req.result, reportedAtUtc := Some(t), portionGrams := req.portionGrams,
                                             note := req.note.GetOr(""), updatedAtUtc := t)])
  {
    var reply := ReportFeedSpec(devices, logs, req, clockUtc).2;
    if reply.Ok? {
      var d := Find(devices, DeviceCodeOf, req.deviceCode.value).value;
      var i := Find(logs, LogOwnerKey, (req.logId, devices[d].id)).value;
      assert logs[i].id == req.logId && logs[i].deviceId == devices[d].id && logs[i].decision == Allowed;
      var t := req.reportedAtUtc.GetOr(clockUtc);
      assert ReportFeedSpec(devices, logs, req, clockUtc)
        == (devices[d := Touched(devices[d], t)], logs[i := Reported(logs[i], req, t)], Ok(()));
    }
    if !IsNullOrWhiteSpace(req.deviceCode) && req.result != NotReported
       && exists d, i :: 0 <= d < |devices| && 0 <= i < |logs|
            && devices[d].deviceCode == req.deviceCode.value
            && logs[i].id == req.logId && logs[i].deviceId == devices[d].id && logs[i].decision == Allowed
    {
      var d, i :| 0 <= d < |devices| && 0 <= i < |logs|
            && devices[d].deviceCode == req.deviceCode.value
            && logs[i].id == req.logId && logs[i].deviceId == devices[d].id && logs[i].decision == Allowed;
      FindUnique(devices, DeviceCodeOf, req.deviceCode.value, d);
      assert UniqueBy(logs, LogOwnerKey);
      FindUnique(logs, LogOwnerKey, (req.logId, devices[d].id), i);
    }
  }

  /** The log at `i` carries the Id and belongs to the device at `d`, which has the code. */
  predicate OwnedLog(devices: seq<Device>, logs: seq<FeedLog>, code: string, logId: Id, d: int, i: int) {
    && 0 <= d < |devices| && 0 <= i < |logs|
    && devices[d].deviceCode == code && logs[i].id == logId && logs[i].deviceId == devices[d].id
  }

  /**
   * Each refusal of a report, with the code it answers, in the order they
   * are checked: a blank code, an unknown device, a log that is not the
   * device's, a log that was not allowed, and a missing result.
   */
  lemma {:induction false} ReportRefusalCodes(devices: seq<Device>, logs: seq<FeedLog>, req: ReportRequest, clockUtc: int)
    requires UniqueBy(devices, DeviceCodeOf) && UniqueBy(logs, LogIdOf)
    ensures var reply := ReportFeedSpec(devices, logs, req, clockUtc).2;
      && (reply == BadRequest("DeviceCodeRequired") <==> IsNullOrWhiteSpace(req.deviceCode))
      && (reply == NotFound("DeviceNotFound") <==>
            !IsNullOrWhiteSpace(req.deviceCode) && forall d :: 0 <= d < |devices| ==> devices[d].deviceCode != req.deviceCode.value)
      && (reply == NotFound("LogNotFound") <==>
            && !IsNullOrWhiteSpace(req.deviceCode)
            && (exists d :: 0 <= d < |devices| && devices[d].deviceCode == req.deviceCode.value)
            && forall d, i :: !OwnedLog(devices, logs, req.deviceCode.value, req.logId, d, i))
      && (reply == Conflict("LogNotAllowed") <==>
            && !IsNullOrWhiteSpace(req.deviceCode)
            && exists d, i :: OwnedLog(devices, logs, req.deviceCode.value, req.logId, d, i) && logs[i].decision != Allowed)
      && (reply == BadRequest("ResultRequired") <==>
            && !IsNullOrWhiteSpace(req.deviceCode) && req.result == NotReported
            && exists d, i :: OwnedLog(devices, logs, req.deviceCode.value, req.logId, d, i) && logs[i].decision == Allowed)
  {
    if !IsNullOrWhiteSpace(req.deviceCode) {
      var code := req.deviceCode.value;
      match Find(devices, DeviceCodeOf, code)
      case None =>
      case Some(d) =>
        assert UniqueBy(logs, LogOwnerKey);
        forall d', i' | OwnedLog(devices, logs, code, req.logId, d', i')
          ensures d' == d && Find(logs, LogOwnerKey, (req.logId, devices[d].id)) == Some(i')
        {
          FindUnique(devices, DeviceCodeOf, code, d');
          FindUnique(logs, LogOwnerKey, (req.logId, devices[d].id), i');
        }
        match Find(logs, LogOwnerKey, (req.logId, devices[d].id))
        case None =>
        case Some(i) =>
          assert OwnedLog(devices, logs, code, req.logId, d, i);
    }
  }

  /**
   * A successful Success report puts the reporting device in cooldown: at
   * any instant less than the rule's cooldown after the report instant, the
   * engine denies it with "Cooldown".
   */
  lemma {:induction false} ReportedSuccessStartsCooldown(devices: seq<Device>, logs: seq<FeedLog>, req: ReportRequest, clockUtc: int,
                                                         d: nat, rule: FeedRule, nowUtc: int, offset: int)
    requires UniqueBy(devices, DeviceCodeOf)
    requires ReportFeedSpec(devices, logs, req, clockUtc).2.Ok? && req.result == Success
    requires d < |devices| && devices[d].deviceCode == req.deviceCode.value
    requires nowUtc - req.reportedAtUtc.GetOr(clockUtc) < rule.cooldownSeconds * TicksPerSecond
    ensures var logs' := ReportFeedSpec(devices, logs, req, clockUtc).1;
      Verdict(rule, SuccessReports(logs', devices[d].id), nowUtc, offset).reason == "Cooldown"
  {
    FindUnique(devices, DeviceCodeOf, req.deviceCode.value, d);
    var deviceId := devices[d].id;
    var i := Find(logs, LogOwnerKey, (req.logId, deviceId)).value;
    var t := req.reportedAtUtc.GetOr(clockUtc);
    var reported := Reported(logs[i], req, t);
    var logs' := ReportFeedSpec(devices, logs, req, clockUtc).1;
    assert logs' == logs[i := reported];
    SuccessReportsUpdate(logs, i, reported, deviceId);
    assert Contribution(reported, deviceId) == [t];
    var reports := SuccessReports(logs', deviceId);
    assert t in reports;
    assert CoolingDown(reports, nowUtc, rule.cooldownSeconds);
  }

  /**
   * The daily-limit side of a success report: reported inside a business
   * day, it raises that day's count of the device's successes by one, less
   * the earlier success of the same log it replaces, if that one fell in
   * the day too; a log not yet counted raises it by exactly one.
   */
  lemma {:induction false} ReportedSuccessCountsToday(devices: seq<Device>, logs: seq<FeedLog>, req: ReportRequest, clockUtc: int,
                                                      d: nat, i: nat, nowUtc: int, offset: int)
    requires UniqueBy(devices, DeviceCodeOf)
    requires ReportFeedSpec(devices, logs, req, clockUtc).2.Ok? && req.result == Success
    requires d < |devices| && devices[d].deviceCode == req.deviceCode.value
    requires i < |logs| && LogOwnerKey(logs[i]) == (req.logId, devices[d].id)
    requires forall j :: 0 <= j < i ==> LogOwnerKey(logs[j]) != (req.logId, devices[d].id)
    requires var w := BusinessDayRange(nowUtc, offset);
      w.0 <= req.reportedAtUtc.GetOr(clockUtc) < w.1
    ensures var logs' := ReportFeedSpec(devices, logs, req, clockUtc).1;
      var w := BusinessDayRange(nowUtc, offset);
      var before := CountInWindow(SuccessReports(logs, devices[d].id), w.0, w.1);
      var after := CountInWindow(SuccessReports(logs', devices[d].id), w.0, w.1);
      && after == before + 1 - CountInWindow(Contribution(logs[i], devices[d].id), w.0, w.1)
      && (!CountsToward(logs[i], devices[d].id) ==> after == before + 1)
  {
    FindUnique(devices, DeviceCodeOf, req.deviceCode.value, d);
    var deviceId := devices[d].id;
    assert Find(logs, LogOwnerKey, (req.logId, deviceId)) == Some(i);
    var t := req.reportedAtUtc.GetOr(clockUtc);
    var w := BusinessDayRange(nowUtc, offset);
    var reported := Reported(logs[i], req, t);
    var logs' := ReportFeedSpec(devices, logs, req, clockUtc).1;
    assert logs' == logs[i := reported];
    SuccessReportsUpdate(logs, i, reported, deviceId);
    assert Contribution(reported, deviceId) == [t];
    var pre := SuccessReports(logs[..i], deviceId);
    var post := SuccessReports(logs[i + 1..], deviceId);
    CountInWindowConcat(pre + Contribution(logs[i], deviceId), post, w.0, w.1);
    CountInWindowConcat(pre, Contribution(logs[i], deviceId), w.0, w.1);
    CountInWindowConcat(pre + [t], post, w.0, w.1);
    CountInWindowAppend(pre, t, w.0, w.1);
  }

  // ------------------------------------------------------------ heartbeat

  /** The device after a heartbeat: status, telemetry and note overwritten, seen now. */
  function Beat(d: Device, req: HeartbeatRequest, nowUtc: int): Device {
    d.(status := req.status, batteryPercent := req.batteryPercent, signalStrength := req.signalStrength,
       ipAddress := req.ipAddress.GetOr(""), firmwareVersion := req.firmwareVersion.GetOr(""),
       note := req.note.GetOr(""), lastSeenAtUtc := Some(nowUtc), updatedAtUtc := nowUtc)
  }

  /**
   * The heartbeat's device step once the lookup has run: the device found,
   * or a new one registered under the trimmed code, takes the beat.
   */
  function BeatAt(devices: seq<Device>, found: Option<nat>, req: HeartbeatRequest, code: string, nowUtc: int, newId: Id)
    : (r: seq<Device>)
    requires found.Some? ==> found.value < |devices|
  {
    if found.Some? then devices[found.value := Beat(devices[found.value], req, nowUtc)]
    else devices + [Beat(NewTerminalDevice(newId, code, nowUtc, Unknown), req, nowUtc)]
  }

  /**
   * Heartbeat as written, as a function of the Devices table, at the
   * terminal's timestamp or the clock reading. The device is looked up by
   * the code as sent; a padded duplicate fails on the unique index.
   */
  function HeartbeatSpec(devices: seq<Device>, req: HeartbeatRequest, clockUtc: int, newId: Id): (r: (seq<Device>, Reply<()>))
  {
    if IsNullOrWhiteSpace(req.deviceCode) then (devices, BadRequest("DeviceCodeRequired"))
    else if PaddedDuplicate(devices, req.deviceCode.value) then (devices, Failed("UniqueViolation"))
    else
      var code := req.deviceCode.value;
      (BeatAt(devices, Find(devices, DeviceCodeOf, code), req, code, req.timestampUtc.GetOr(clockUtc), newId), Ok(()))
  }

  /** Heartbeat with the intended lookup by the trimmed code. */
  function HeartbeatIntended(devices: seq<Device>, req: HeartbeatRequest, clockUtc: int, newId: Id): (r: (seq<Device>, Reply<()>))
  {
    if IsNullOrWhiteSpace(req.deviceCode) then (devices, BadRequest("DeviceCodeRequired"))
    else
      var code := req.deviceCode.value;
      (BeatAt(devices, DeviceByCode(devices, code), req, code, req.timestampUtc.GetOr(clockUtc), newId), Ok(()))
  }

  method Heartbeat(db: Db, req: HeartbeatRequest, clockUtc: int, newDeviceId: Id) returns (reply: Reply<()>)
    requires db.Valid()
    requires Find(db.devices, DeviceIdOf, newDeviceId).None?
    modifies db`devices
    ensures db.Valid()
    ensures (db.devices, reply) == HeartbeatSpec(old(db.devices), req, clockUtc, newDeviceId)
  {
    if IsNullOrWhiteSpace(req.deviceCode) {
      return BadRequest("DeviceCodeRequired");
    }
    var nowUtc := req.timestampUtc.GetOr(clockUtc);
    var code := req.deviceCode.value;
    var found := Find(db.devices, DeviceCodeOf, code);
    var devices: seq<Device>;
    if found.None? {
      devices := db.devices + [Beat(NewTerminalDevice(newDeviceId, code, nowUtc, Unknown), req, nowUtc)];
    } else {
      var k := found.value;
      devices := db.devices[k := Beat(db.devices[k], req, nowUtc)];
    }
    // Saving: the DeviceCode index rejects a second device under the trimmed code.
    PaddedDuplicateByLookups(db.devices, code);
    if found.None? && Find(db.devices, DeviceCodeOf, Trim(code)).Some? {
      return Failed("UniqueViolation");
    }
    assert devices == HeartbeatSpec(db.devices, req, clockUtc, newDeviceId).0;
    HeartbeatKeepsKeys(db.devices, req, clockUtc, newDeviceId);
    assert TablesValid(devices, db.cats, db.rules, db.logs, db.users, db.roles, db.userRoles);
    ghost var tables := (devices, db.cats, db.rules, db.logs, db.users, db.roles, db.userRoles);
    db.devices := devices;
    assert (db.devices, db.cats, db.rules, db.logs, db.users, db.roles, db.userRoles) == tables;
    reply := Ok(());
  }

  /** A heartbeat as written keeps device Ids and codes unique: a padded duplicate stores nothing. */
  lemma {:induction false} HeartbeatKeepsKeys(devices: seq<Device>, req: HeartbeatRequest, clockUtc: int, newId: Id)
    requires DevicesValid(devices) && Find(devices, DeviceIdOf, newId).None?
    ensures DevicesValid(HeartbeatSpec(devices, req, clockUtc, newId).0)
  {
    if !IsNullOrWhiteSpace(req.deviceCode) && !PaddedDuplicate(devices, req.deviceCode.value) {
      var code := req.deviceCode.value;
      var nowUtc := req.timestampUtc.GetOr(clockUtc);
      var found := Find(devices, DeviceCodeOf, code);
      if found.Some? {
        var i := found.value;
        UniqueUpdate(devices, DeviceIdOf, i, Beat(devices[i], req, nowUtc));
        UniqueUpdate(devices, DeviceCodeOf, i, Beat(devices[i], req, nowUtc));
      } else {
        var d := Beat(NewTerminalDevice(newId, code, nowUtc, Unknown), req, nowUtc);
        assert Find(devices, DeviceCodeOf, Trim(code)).None?;
        UniqueAppend(devices, DeviceIdOf, d);
        UniqueAppend(devices, DeviceCodeOf, d);
      }
    }
  }

  /**
   * With the intended lookup every heartbeat with a code is accepted and
   * device Ids and codes stay unique; a code already registered in trimmed
   * form adds no device.
   */
  lemma {:induction false} HeartbeatIntendedKeepsKeys(devices: seq<Device>, req: HeartbeatRequest, clockUtc: int, newId: Id)
    requires DevicesValid(devices) && Find(devices, DeviceIdOf, newId).None?
    requires !IsNullOrWhiteSpace(req.deviceCode)
    ensures var (devices', reply) := HeartbeatIntended(devices, req, clockUtc, newId);
      && reply == Ok(()) && DevicesValid(devices')
      && ((exists j :: 0 <= j < |devices| && devices[j].deviceCode == Trim(req.deviceCode.value)) ==> |devices'| == |devices|)
  {
    var code := req.deviceCode.value;
    var nowUtc := req.timestampUtc.GetOr(clockUtc);
    var found := DeviceByCode(devices, code);
    if found.Some? {
      var i := found.value;
      UniqueUpdate(devices, DeviceIdOf, i, Beat(devices[i], req, nowUtc));
      UniqueUpdate(devices, DeviceCodeOf, i, Beat(devices[i], req, nowUtc));
    } else {
      var d := Beat(NewTerminalDevice(newId, code, nowUtc, Unknown), req, nowUtc);
      UniqueAppend(devices, DeviceIdOf, d);
      UniqueAppend(devices, DeviceCodeOf, d);
    }
  }

  /**
   * The padded code "RPI-001 " of a terminal registered as "RPI-001": the
   * heartbeat as written fails and stores nothing; with the intended lookup
   * it is accepted and adds no device.
   */
  lemma AsWrittenHeartbeatRejectsPaddedCode(req: HeartbeatRequest, clockUtc: int)
    requires req.deviceCode == Some("RPI-001 ")
    ensures var devices := [NewDevice(1, "RPI-001", "RPI-001", 0)];
      && HeartbeatSpec(devices, req, clockUtc, 2) == (devices, Failed("UniqueViolation"))
      && var (devices', reply) := HeartbeatIntended(devices, req, clockUtc, 2);
         reply == Ok(()) && |devices'| == 1
  {
    var devices := [NewDevice(1, "RPI-001", "RPI-001", 0)];
    PaddedExampleTrims();
    assert devices[0].deviceCode == Trim("RPI-001 ");
    assert PaddedDuplicate(devices, "RPI-001 ");
    HeartbeatIntendedKeepsKeys(devices, req, clockUtc, 2);
  }

  /**
   * A heartbeat with a code fails, storing nothing, exactly for a padded
   * duplicate. Otherwise the device registered under the code as sent, or
   * a new one under its trimmed form, carries exactly the reported status,
   * telemetry and note (the admin's note is overwritten too), and no other
   * device changes.
   */
  lemma {:induction false} HeartbeatOverwritesStatus(devices: seq<Device>, req: HeartbeatRequest, clockUtc: int, newId: Id)
    requires !IsNullOrWhiteSpace(req.deviceCode)
    ensures var code := req.deviceCode.value;
      var (devices', reply) := HeartbeatSpec(devices, req, clockUtc, newId);
      && (reply.Failed? <==> PaddedDuplicate(devices, code))
      && (reply.Failed? ==> devices' == devices)
      && (!reply.Failed? ==>
            && reply == Ok(())
            && |devices| <= |devices'| <= |devices| + 1
            && (|devices'| == |devices| + 1 <==> forall j :: 0 <= j < |devices| ==> devices[j].deviceCode != code)
            && exists k ::
                 && 0 <= k < |devices'|
                 && (devices'[k].deviceCode == code || devices'[k].deviceCode == Trim(code))
                 && devices'[k].status == req.status
                 && devices'[k].batteryPercent == req.batteryPercent && devices'[k].signalStrength == req.signalStrength
                 && devices'[k].ipAddress == req.ipAddress.GetOr("") && devices'[k].firmwareVersion == req.firmwareVersion.GetOr("")
                 && devices'[k].note == req.note.GetOr("")
                 && devices'[k].lastSeenAtUtc == Some(req.timestampUtc.GetOr(clockUtc))
                 && (forall j :: 0 <= j < |devices| && j != k ==> devices'[j] == devices[j]))
  {
    var code := req.deviceCode.value;
    if !PaddedDuplicate(devices, code) {
      var devices' := HeartbeatSpec(devices, req, clockUtc, newId).0;
      var found := Find(devices, DeviceCodeOf, code);
      if found.Some? {
        assert devices'[found.value].deviceCode == code;
      } else {
        assert devices'[|devices|].deviceCode == Trim(code);
      }
    }
  }

  /**
   * A code registered neither as sent nor trimmed adds one device: the
   * trimmed code as code and name, active, created, updated and seen at the
   * heartbeat instant, carrying the reported status, telemetry and note.
   */
  lemma {:induction false} HeartbeatRegistersUnknownDevice(devices: seq<Device>, req: HeartbeatRequest, clockUtc: int, newId: Id)
    requires !IsNullOrWhiteSpace(req.deviceCode)
    requires forall j :: 0 <= j < |devices| ==>
      devices[j].deviceCode != req.deviceCode.value && devices[j].deviceCode != Trim(req.deviceCode.value)
    ensures var code := Trim(req.deviceCode.value);
      var t := req.timestampUtc.GetOr(clockUtc);
      var (devices', reply) := HeartbeatSpec(devices, req, clockUtc, newId);
      && reply == Ok(())
      && |devices'| == |devices| + 1 && devices'[..|devices|] == devices
      && devices'[|devices|] == Device(newId, code, code, "", true, req.status, req.batteryPercent, req.signalStrength,
                                       req.ipAddress.GetOr(""), req.firmwareVersion.GetOr(""), Some(t), req.note.GetOr(""), t, t)
  {
    var devices' := HeartbeatSpec(devices, req, clockUtc, newId).0;
    assert !PaddedDuplicate(devices, req.deviceCode.value);
    assert devices'[..|devices|] == devices;
  }

  /**
   * The first device registered under the code as sent takes the
   * heartbeat in place: its status, telemetry, note, last-seen and update
   * times change and every other field and device stays.
   */
  lemma {:induction false} HeartbeatUpdatesKnownDevice(devices: seq<Device>, req: HeartbeatRequest, clockUtc: int, newId: Id, i: nat)
    requires !IsNullOrWhiteSpace(req.deviceCode)
    requires i < |devices| && devices[i].deviceCode == req.deviceCode.value
    requires forall j :: 0 <= j < i ==> devices[j].deviceCode != req.deviceCode.value
    ensures var t := req.timestampUtc.GetOr(clockUtc);
      HeartbeatSpec(devices, req, clockUtc, newId)
        == (devices[i := devices[i].(status := req.status, batteryPercent := req.batteryPercent,
                                     signalStrength := req.signalStrength, ipAddress := req.ipAddress.GetOr(""),
                                     firmwareVersion := req.firmwareVersion.GetOr(""), note := req.note.GetOr(""),
                                     lastSeenAtUtc := Some(t), updatedAtUtc := t)],
            Ok(()))
  {
    assert !PaddedDuplicate(devices, req.deviceCode.value);
    assert Find(devices, DeviceCodeOf, req.deviceCode.value) == Some(i);
  }
}
