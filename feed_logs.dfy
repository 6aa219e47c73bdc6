/**
 * FeedLogsController: the admin view of the feeding history. Optional
 * filters are composed into one conjunction; the matching logs come out
 * newest first, at most 500 of them, each with its device's code.
 */
module FeedLogsController {
  import opened Common
  import opened Models
  import opened Ordering
  import opened Store

  /** The query string of GetLogs; an absent parameter is None. */
  datatype LogQuery = LogQuery(
    deviceId: Option<Id>,
    deviceCode: Option<string>,
    fromUtc: Option<int>,
    toUtc: Option<int>,
    result: Option<FeedResult>,
    decision: Option<DecisionStatus>)

  /** One row of the answer: the log and its device's code, empty when the device is gone. */
  datatype LogRow = LogRow(log: FeedLog, deviceCode: string)

  /** The cap on the number of rows returned. */
  const MaxRows: nat := 500

  /** The code of the log's device, if the device exists. */
  function CodeOfDevice(devices: seq<Device>, deviceId: Id): (r: Option<string>)
    ensures r.None? <==> forall i :: 0 <= i < |devices| ==> devices[i].id != deviceId
    ensures r.Some? ==> exists i :: 0 <= i < |devices| && devices[i].id == deviceId && devices[i].deviceCode == r.value
  {
    match Find(devices, DeviceIdOf, deviceId)
    case None => None
    case Some(i) => Some(devices[i].deviceCode)
  }

  /**
   * The device filter: a device Id wins; otherwise a non-blank code must
   * equal the log's device's code exactly; otherwise every log passes.
   */
  predicate DeviceFilter(devices: seq<Device>, l: FeedLog, q: LogQuery) {
    if q.deviceId.Some? then l.deviceId == q.deviceId.value
    else if !IsNullOrWhiteSpace(q.deviceCode) then CodeOfDevice(devices, l.deviceId) == q.deviceCode
    else true
  }

  /** Every filter the query sets; the time bounds are inclusive. */
  predicate Matches(devices: seq<Device>, l: FeedLog, q: LogQuery) {
    && DeviceFilter(devices, l, q)
    && (q.fromUtc.Some? ==> l.requestedAtUtc >= q.fromUtc.value)
    && (q.toUtc.Some? ==> l.requestedAtUtc <= q.toUtc.value)
    && (q.result.Some? ==> l.result == q.result.value)
    && (q.decision.Some? ==> l.decision == q.decision.value)
  }

  /** `OrderByDescending(RequestedAtUtc)`. */
  predicate NewerFirst(a: FeedLog, b: FeedLog) {
    a.requestedAtUtc >= b.requestedAtUtc
  }

  lemma NewerFirstIsTotalPreorder()
    ensures TotalPreorder(NewerFirst)
  {
  }

  /** The logs that pass every filter, in table order. */
  function Matching(devices: seq<Device>, logs: seq<FeedLog>, q: LogQuery): (r: seq<FeedLog>)
    ensures |r| <= |logs|
    ensures forall l :: l in r <==> l in logs && Matches(devices, l, q)
  {
    if logs == [] then []
    else
      var rest := Matching(devices, logs[1..], q);
      assert forall l :: l in logs <==> l == logs[0] || l in logs[1..];
      if Matches(devices, logs[0], q) then [logs[0]] + rest else rest
  }

  /** The matching logs, newest first. */
  function SortedMatching(devices: seq<Device>, logs: seq<FeedLog>, q: LogQuery): (r: seq<FeedLog>)
    ensures multiset(r) == multiset(Matching(devices, logs, q))
    ensures Sorted(r, NewerFirst)
  {
    NewerFirstIsTotalPreorder();
    SortBy(Matching(devices, logs, q), NewerFirst)
  }

  /**
   * A prefix of the newest-first matching logs holds only matching logs,
   * none more often than it matches, newest first.
   */
  lemma {:induction false} NewestPrefix(devices: seq<Device>, logs: seq<FeedLog>, q: LogQuery, k: nat)
    requires k <= |Matching(devices, logs, q)|
    ensures |SortedMatching(devices, logs, q)| == |Matching(devices, logs, q)|
    ensures var p := SortedMatching(devices, logs, q)[..k];
      && multiset(p) <= multiset(Matching(devices, logs, q))
      && (forall i :: 0 <= i < k ==> p[i] in logs && Matches(devices, p[i], q))
      && (forall i, j :: 0 <= i < j < k ==> p[i].requestedAtUtc >= p[j].requestedAtUtc)
  {
    var matching := Matching(devices, logs, q);
    var sorted := SortedMatching(devices, logs, q);
    assert |sorted| == |multiset(sorted)| == |matching|;
    assert sorted == sorted[..k] + sorted[k..];
    forall i | 0 <= i < k ensures sorted[i] in matching {
      assert sorted[i] in multiset(sorted);
    }
  }

  /**
   * The matching logs, newest first, cut to MaxRows: as many rows as match,
   * up to MaxRows, and no log more often than it matches.
   */
  function Newest(devices: seq<Device>, logs: seq<FeedLog>, q: LogQuery): (r: seq<FeedLog>)
    ensures |r| == if |Matching(devices, logs, q)| <= MaxRows then |Matching(devices, logs, q)| else MaxRows
    ensures multiset(r) <= multiset(Matching(devices, logs, q))
    ensures forall i :: 0 <= i < |r| ==> r[i] in logs && Matches(devices, r[i], q)
    ensures forall i, j :: 0 <= i < j < |r| ==> r[i].requestedAtUtc >= r[j].requestedAtUtc
  {
    var n := |Matching(devices, logs, q)|;
    var k := if n <= MaxRows then n else MaxRows;
    NewestPrefix(devices, logs, q, k);
    SortedMatching(devices, logs, q)[..k]
  }

  /** The logs a list of rows shows, in order. */
  function LogsOf(rows: seq<LogRow>): (r: seq<FeedLog>)
    ensures |r| == |rows| && forall i :: 0 <= i < |rows| ==> r[i] == rows[i].log
  {
    seq(|rows|, i requires 0 <= i < |rows| => rows[i].log)
  }

  function RowsOf(devices: seq<Device>, logs: seq<FeedLog>): (r: seq<LogRow>)
    ensures |r| == |logs|
    ensures forall i :: 0 <= i < |logs| ==> r[i].log == logs[i]
  {
    seq(|logs|, i requires 0 <= i < |logs| => LogRow(logs[i], CodeOfDevice(devices, logs[i].deviceId).GetOr("")))
  }

  /** GetLogs. */
  function GetLogs(devices: seq<Device>, logs: seq<FeedLog>, q: LogQuery): (r: seq<LogRow>)
    ensures |r| <= MaxRows
    ensures multiset(LogsOf(r)) <= multiset(Matching(devices, logs, q))
    ensures forall i :: 0 <= i < |r| ==> r[i].log in logs && Matches(devices, r[i].log, q)
    ensures forall i, j :: 0 <= i < j < |r| ==> r[i].log.requestedAtUtc >= r[j].log.requestedAtUtc
    ensures forall i :: 0 <= i < |r| ==> r[i].deviceCode == CodeOfDevice(devices, r[i].log.deviceId).GetOr("")
  {
    var rows := RowsOf(devices, Newest(devices, logs, q));
    assert LogsOf(rows) == Newest(devices, logs, q);
    rows
  }

  /** A matching log left out of Newest means Newest is full of logs at least as recent. */
  lemma {:induction false} NewestKeepsNewest(devices: seq<Device>, logs: seq<FeedLog>, q: LogQuery, l: FeedLog)
    requires l in logs && Matches(devices, l, q) && l !in Newest(devices, logs, q)
    ensures |Newest(devices, logs, q)| == MaxRows
    ensures forall i :: 0 <= i < MaxRows ==> Newest(devices, logs, q)[i].requestedAtUtc >= l.requestedAtUtc
  {
    var sorted := SortedMatching(devices, logs, q);
    var r := Newest(devices, logs, q);
    assert l in multiset(sorted) by { assert l in Matching(devices, logs, q); }
    var k :| 0 <= k < |sorted| && sorted[k] == l;
    assert r == sorted[..|r|];
    assert k >= |r|;
    forall i | 0 <= i < MaxRows ensures r[i].requestedAtUtc >= l.requestedAtUtc {
      assert r[i] == sorted[i];
    }
  }

  /**
   * Nothing newer is cut: a matching log left out of the answer means the
   * answer is full and every row in it is at least as recent.
   */
  lemma {:induction false} GetLogsKeepsNewest(devices: seq<Device>, logs: seq<FeedLog>, q: LogQuery, l: FeedLog)
    requires l in logs && Matches(devices, l, q)
    requires forall i :: 0 <= i < |GetLogs(devices, logs, q)| ==> GetLogs(devices, logs, q)[i].log != l
    ensures |GetLogs(devices, logs, q)| == MaxRows
    ensures forall i :: 0 <= i < MaxRows ==> GetLogs(devices, logs, q)[i].log.requestedAtUtc >= l.requestedAtUtc
  {
    var r := GetLogs(devices, logs, q);
    var newest := Newest(devices, logs, q);
    assert |r| == |newest| && forall i :: 0 <= i < |r| ==> r[i].log == newest[i];
    NewestKeepsNewest(devices, logs, q, l);
  }

  /** The answer holds every matching log when fewer than MaxRows match. */
  lemma {:induction false} GetLogsComplete(devices: seq<Device>, logs: seq<FeedLog>, q: LogQuery, l: FeedLog)
    requires l in logs && Matches(devices, l, q)
    requires |Matching(devices, logs, q)| < MaxRows
    ensures exists i :: 0 <= i < |GetLogs(devices, logs, q)| && GetLogs(devices, logs, q)[i].log == l
  {
    var sorted := SortedMatching(devices, logs, q);
    assert |sorted| == |multiset(sorted)| == |Matching(devices, logs, q)|;
    assert l in multiset(sorted) by { assert l in Matching(devices, logs, q); }
    var k :| 0 <= k < |sorted| && sorted[k] == l;
    assert GetLogs(devices, logs, q)[k].log == l;
  }

  /** Queries whose filters agree on every log match the same logs. */
  lemma {:induction false} MatchingAgrees(devices: seq<Device>, logs: seq<FeedLog>, q: LogQuery, q': LogQuery)
    requires forall l :: l in logs ==> Matches(devices, l, q) == Matches(devices, l, q')
    ensures Matching(devices, logs, q) == Matching(devices, logs, q')
  {
    if logs != [] {
      MatchingAgrees(devices, logs[1..], q, q');
    }
  }

  /** A device Id makes the device code irrelevant. */
  lemma {:induction false} DeviceIdOverridesCode(devices: seq<Device>, logs: seq<FeedLog>, q: LogQuery, code: Option<string>)
    requires q.deviceId.Some?
    ensures GetLogs(devices, logs, q) == GetLogs(devices, logs, q.(deviceCode := code))
  {
    MatchingAgrees(devices, logs, q, q.(deviceCode := code));
  }

  /** A blank device code is the same as none. */
  lemma {:induction false} BlankCodeIgnored(devices: seq<Device>, logs: seq<FeedLog>, q: LogQuery)
    requires IsNullOrWhiteSpace(q.deviceCode)
    ensures GetLogs(devices, logs, q) == GetLogs(devices, logs, q.(deviceCode := None))
  {
    MatchingAgrees(devices, logs, q, q.(deviceCode := None));
  }
}
