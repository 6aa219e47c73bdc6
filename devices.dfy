/**
 * DevicesController: the admin device inventory. The list is ordered by
 * device code; an update overwrites the editable fields of one device and
 * leaves the telemetry the terminal reports untouched.
 */
module DevicesController {
  import opened Common
  import opened Models
  import opened Ordering
  import opened Store

  /** DeviceUpdateRequest; a JSON null string is None. */
  datatype DeviceUpdateRequest = DeviceUpdateRequest(
    name: Option<string>,
    location: Option<string>,
    isActive: bool,
    note: Option<string>)

  predicate CodeOrder(a: Device, b: Device) {
    StrLe(a.deviceCode, b.deviceCode)
  }

  lemma {:induction false} CodeOrderIsTotalPreorder()
    ensures TotalPreorder(CodeOrder)
  {
    forall a: Device, b: Device ensures CodeOrder(a, b) || CodeOrder(b, a) {
      StrLeTotal(a.deviceCode, b.deviceCode);
    }
    forall a: Device, b: Device, c: Device | CodeOrder(a, b) && CodeOrder(b, c) ensures CodeOrder(a, c) {
      StrLeTransitive(a.deviceCode, b.deviceCode, c.deviceCode);
    }
  }

  /** GetDevices: every device, ordered by DeviceCode. */
  function GetDevices(devices: seq<Device>): (r: seq<Device>)
    ensures multiset(r) == multiset(devices)
    ensures forall i, j :: 0 <= i < j < |r| ==> StrLe(r[i].deviceCode, r[j].deviceCode)
  {
    CodeOrderIsTotalPreorder();
    SortBy(devices, CodeOrder)
  }

  /** Under the unique DeviceCode index the list is strictly increasing by code. */
  lemma {:induction false} GetDevicesStrictlyOrdered(devices: seq<Device>)
    requires UniqueBy(devices, DeviceCodeOf)
    ensures var r := GetDevices(devices);
      forall i, j :: 0 <= i < j < |r| ==> StrLe(r[i].deviceCode, r[j].deviceCode) && r[i].deviceCode != r[j].deviceCode
  {
    var r := GetDevices(devices);
    forall i, j | 0 <= i < j < |r| ensures r[i].deviceCode != r[j].deviceCode {
      assert r[i] in multiset(devices) && r[j] in multiset(devices);
      var a :| 0 <= a < |devices| && devices[a] == r[i];
      var b :| 0 <= b < |devices| && devices[b] == r[j];
      if a == b {
        // the same row cannot occur twice in r, because it occurs once in devices
        assert multiset(r)[r[i]] >= 2 by {
          assert r[i] == r[j];
          assert multiset(r[..j]) + multiset(r[j..]) == multiset(r) by { assert r == r[..j] + r[j..]; }
          assert r[i] in multiset(r[..j]) by { assert r[..j][i] == r[i]; }
          assert r[j] in multiset(r[j..]) by { assert r[j..][0] == r[j]; }
        }
        OccursOnce(devices, a);
      } else {
        assert DeviceCodeOf(devices[a]) != DeviceCodeOf(devices[b]);
      }
    }
  }

  /** Under a unique key, every row occurs once. */
  lemma {:induction false} OccursOnce(devices: seq<Device>, a: nat)
    requires UniqueBy(devices, DeviceCodeOf) && a < |devices|
    ensures multiset(devices)[devices[a]] == 1
  {
    var rest := devices[1..];
    assert devices == [devices[0]] + rest;
    if a == 0 {
      assert devices[0] !in rest;
    } else {
      assert UniqueBy(rest, DeviceCodeOf) by {
        assert forall i :: 0 <= i < |rest| ==> rest[i] == devices[i + 1];
      }
      OccursOnce(rest, a - 1);
      assert DeviceCodeOf(devices[0]) != DeviceCodeOf(devices[a]);
    }
  }

  /** GetDevice: the device with the Id, or NotFound. */
  function GetDevice(devices: seq<Device>, id: Id): (r: Reply<Device>)
    ensures r.Ok? || r.NotFound?
    ensures r.NotFound? <==> forall i :: 0 <= i < |devices| ==> devices[i].id != id
    ensures r.Ok? ==> r.value in devices && r.value.id == id
  {
    match Find(devices, DeviceIdOf, id)
    case None => NotFound("")
    case Some(i) => Ok(devices[i])
  }

  /** The device after an admin edit: null strings become empty. */
  function Edited(d: Device, req: DeviceUpdateRequest, nowUtc: int): Device {
    d.(name := req.name.GetOr(""),
       location := req.location.GetOr(""),
       isActive := req.isActive,
       note := req.note.GetOr(""),
       updatedAtUtc := nowUtc)
  }

  /** The Devices table and the reply after UpdateDevice. */
  function UpdateDeviceSpec(devices: seq<Device>, id: Id, req: DeviceUpdateRequest, nowUtc: int): (seq<Device>, Reply<()>) {
    match Find(devices, DeviceIdOf, id)
    case None => (devices, NotFound(""))
    case Some(i) => (devices[i := Edited(devices[i], req, nowUtc)], Ok(()))
  }

  /** UpdateDevice. */
  method UpdateDevice(db: Db, id: Id, req: DeviceUpdateRequest, nowUtc: int) returns (reply: Reply<()>)
    requires db.Valid()
    modifies db`devices
    ensures db.Valid()
    ensures (db.devices, reply) == UpdateDeviceSpec(old(db.devices), id, req, nowUtc)
  {
    var found := Find(db.devices, DeviceIdOf, id);
    if found.None? {
      return NotFound("");
    }
    var i := found.value;
    var d := Edited(db.devices[i], req, nowUtc);
    UniqueUpdate(db.devices, DeviceIdOf, i, d);
    UniqueUpdate(db.devices, DeviceCodeOf, i, d);
    var devices := db.devices[i := d];
    assert TablesValid(devices, db.cats, db.rules, db.logs, db.users, db.roles, db.userRoles);
    ghost var tables := (devices, db.cats, db.rules, db.logs, db.users, db.roles, db.userRoles);
    db.devices := devices;
    assert (db.devices, db.cats, db.rules, db.logs, db.users, db.roles, db.userRoles) == tables;
    reply := Ok(());
  }

  /**
   * An unknown Id changes nothing and answers NotFound. Otherwise only that
   * device changes: its name, location, note and active flag come from the
   * request (null as empty), and its code, status and telemetry are kept.
   */
  lemma {:induction false} UpdateDeviceEffect(devices: seq<Device>, id: Id, req: DeviceUpdateRequest, nowUtc: int)
    ensures var (devices', reply) := UpdateDeviceSpec(devices, id, req, nowUtc);
      && (reply.Ok? || reply.NotFound?)
      && (reply.NotFound? <==> forall i :: 0 <= i < |devices| ==> devices[i].id != id)
      && (reply.NotFound? ==> devices' == devices)
      && (reply.Ok? ==>
            && |devices'| == |devices|
            && exists i ::
                 && 0 <= i < |devices|
                 && devices[i].id == id
                 && (forall j :: 0 <= j < |devices| && j != i ==> devices'[j] == devices[j])
                 && devices'[i].name == req.name.GetOr("")
                 && devices'[i].location == req.location.GetOr("")
                 && devices'[i].note == req.note.GetOr("")
                 && devices'[i].isActive == req.isActive
                 && devices'[i].updatedAtUtc == nowUtc
                 && devices'[i].(name := devices[i].name, location := devices[i].location, note := devices[i].note,
                                 isActive := devices[i].isActive, updatedAtUtc := devices[i].updatedAtUtc) == devices[i])
  {
    match Find(devices, DeviceIdOf, id)
    case None =>
    case Some(i) =>
      var devices' := devices[i := Edited(devices[i], req, nowUtc)];
      assert devices'[i] == Edited(devices[i], req, nowUtc);
  }
}
