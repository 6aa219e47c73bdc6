/**
 * FeedDecisionService: the policy engine that decides whether a device may
 * feed at a given instant. A decision resolves one rule (cat, then device,
 * then the oldest global rule, then a built-in default), denies while the
 * rule's cooldown since the device's latest reported success has not
 * elapsed, and otherwise denies once the successes reported in the current
 * business day reach the rule's daily limit.
 *
 * The FeedRules and FeedLogs tables are read as sequences. The business time
 * zone is a fixed UTC offset in ticks, looked up by id in a time-zone table.
 */
module FeedDecisionService {
  import opened Common
  import opened Models

  /** FeedDecisionResult; `reason` is "" unless the request is denied. */
  datatype FeedDecisionResult = FeedDecisionResult(
    allowed: bool,
    reason: string,
    cooldownRemainingSeconds: int,
    dailyRemainingCount: int,
    dailyLimitCount: int,
    cooldownSeconds: int)

  const DefaultTimeZoneId: string := "Asia/Shanghai"

  /** The rule used when the FeedRules table has no applicable active rule. */
  function FallbackRule(): (r: FeedRule)
    ensures r.scopeType == GlobalScope && r.scopeId == None && r.isActive
    ensures r.dailyLimitCount == 10 && r.cooldownSeconds == 900 && r.name == "default"
  {
    FeedRule(0, GlobalScope, None, true, 10, 900, "default", 0, 0)
  }

  // ---------------------------------------------------------------- rules

  /** The filter of the cat and device rule queries. */
  predicate ActiveRuleFor(r: FeedRule, scope: RuleScope, scopeId: Id) {
    r.isActive && r.scopeType == scope && r.scopeId == Some(scopeId)
  }

  predicate ActiveGlobal(r: FeedRule) {
    r.isActive && r.scopeType == GlobalScope
  }

  ghost predicate HasActiveRuleFor(rules: seq<FeedRule>, scope: RuleScope, scopeId: Id) {
    exists i :: 0 <= i < |rules| && ActiveRuleFor(rules[i], scope, scopeId)
  }

  ghost predicate HasActiveGlobal(rules: seq<FeedRule>) {
    exists i :: 0 <= i < |rules| && ActiveGlobal(rules[i])
  }

  /** A cat id is given and some active rule is scoped to that cat. */
  ghost predicate CatRuleApplies(rules: seq<FeedRule>, catId: Option<Id>) {
    catId.Some? && HasActiveRuleFor(rules, CatScope, catId.value)
  }

  /** `Where(filter).FirstOrDefault()`: the position of the first matching rule, if any. */
  function FirstActiveRuleFor(rules: seq<FeedRule>, scope: RuleScope, scopeId: Id): (r: Option<nat>)
    ensures r.Some? ==> r.value < |rules| && ActiveRuleFor(rules[r.value], scope, scopeId)
    ensures r.Some? ==> forall j :: 0 <= j < r.value ==> !ActiveRuleFor(rules[j], scope, scopeId)
    ensures r.None? <==> !HasActiveRuleFor(rules, scope, scopeId)
  {
    if rules == [] then None
    else if ActiveRuleFor(rules[0], scope, scopeId) then Some(0)
    else
      var rest := FirstActiveRuleFor(rules[1..], scope, scopeId);
      assert forall j :: 1 <= j < |rules| ==> rules[j] == rules[1..][j - 1];
      if rest.Some? then Some(rest.value + 1) else None
  }

  /** `Where(active global).OrderBy(CreatedAtUtc).FirstOrDefault()`: the position of an oldest active global rule. */
  function OldestActiveGlobal(rules: seq<FeedRule>): (r: Option<nat>)
    ensures r.Some? ==> r.value < |rules| && ActiveGlobal(rules[r.value])
    ensures r.Some? ==> forall j :: 0 <= j < |rules| && ActiveGlobal(rules[j]) ==>
      rules[r.value].createdAtUtc <= rules[j].createdAtUtc
    ensures r.None? <==> !HasActiveGlobal(rules)
  {
    if rules == [] then None
    else
      var rest := OldestActiveGlobal(rules[1..]);
      assert forall j :: 1 <= j < |rules| ==> rules[j] == rules[1..][j - 1];
      if !ActiveGlobal(rules[0]) then
        (if rest.Some? then Some(rest.value + 1) else None)
      else if rest.Some? && rules[rest.value + 1].createdAtUtc < rules[0].createdAtUtc then
        Some(rest.value + 1)
      else
        Some(0)
  }

  /**
   * ResolveRuleAsync: an active rule for the cat if a cat is given and has
   * one, else an active rule for the device, else an oldest active global
   * rule, else the fallback rule.
   */
  function ResolveRule(rules: seq<FeedRule>, deviceId: Id, catId: Option<Id>): (r: FeedRule)
    ensures r.isActive
    ensures r in rules || r == FallbackRule()
    ensures CatRuleApplies(rules, catId) ==>
      r in rules && ActiveRuleFor(r, CatScope, catId.value)
    ensures !CatRuleApplies(rules, catId) && HasActiveRuleFor(rules, DeviceScope, deviceId) ==>
      r in rules && ActiveRuleFor(r, DeviceScope, deviceId)
    ensures (!CatRuleApplies(rules, catId) && !HasActiveRuleFor(rules, DeviceScope, deviceId)
             && HasActiveGlobal(rules)) ==>
      r in rules && ActiveGlobal(r) && forall g :: g in rules && ActiveGlobal(g) ==> r.createdAtUtc <= g.createdAtUtc
    ensures (!CatRuleApplies(rules, catId) && !HasActiveRuleFor(rules, DeviceScope, deviceId)
             && !HasActiveGlobal(rules)) ==>
      r == FallbackRule()
    ensures catId.None? ==> r.scopeType != CatScope
  {
    var catRule := if catId.Some? then FirstActiveRuleFor(rules, CatScope, catId.value) else None;
    if catRule.Some? then rules[catRule.value]
    else
      var deviceRule := FirstActiveRuleFor(rules, DeviceScope, deviceId);
      if deviceRule.Some? then rules[deviceRule.value]
      else
        var globalRule := OldestActiveGlobal(rules);
        if globalRule.Some? then rules[globalRule.value]
        else FallbackRule()
  }

  // -------------------------------------------------------------- history

  /** A log that both history queries count: this device's, a success, with a report instant. */
  predicate CountsToward(l: FeedLog, deviceId: Id) {
    l.deviceId == deviceId && l.result == Success && l.reportedAtUtc.Some?
  }

  /** The report instant a log contributes to a device's history: none or one. */
  function Contribution(l: FeedLog, deviceId: Id): seq<int> {
    if CountsToward(l, deviceId) then [l.reportedAtUtc.value] else []
  }

  /**
   * The device's reported successes, in table order. Logs with a null
   * ReportedAtUtc drop out: SQL orders NULL below every instant and the
   * daily-window comparison is false on NULL.
   */
  function SuccessReports(logs: seq<FeedLog>, deviceId: Id): (r: seq<int>)
    ensures |r| <= |logs|
  {
    if logs == [] then [] else Contribution(logs[0], deviceId) + SuccessReports(logs[1..], deviceId)
  }

  /** The history holds exactly the report instants of the logs that count toward the device. */
  lemma {:induction false} SuccessReportsMembers(logs: seq<FeedLog>, deviceId: Id, t: int)
    ensures t in SuccessReports(logs, deviceId) <==>
      exists i :: 0 <= i < |logs| && CountsToward(logs[i], deviceId) && logs[i].reportedAtUtc == Some(t)
  {
    if logs != [] {
      SuccessReportsMembers(logs[1..], deviceId, t);
      if t in SuccessReports(logs[1..], deviceId) {
        var i :| 0 <= i < |logs[1..]| && CountsToward(logs[1..][i], deviceId) && logs[1..][i].reportedAtUtc == Some(t);
        assert logs[i + 1] == logs[1..][i];
      }
      if exists i :: 0 <= i < |logs| && CountsToward(logs[i], deviceId) && logs[i].reportedAtUtc == Some(t) {
        var i :| 0 <= i < |logs| && CountsToward(logs[i], deviceId) && logs[i].reportedAtUtc == Some(t);
        if i > 0 {
          assert logs[1..][i - 1] == logs[i];
        }
      }
    }
  }

  /** A device none of whose logs counts has an empty history. */
  lemma {:induction false} NoCountedLogsNoHistory(logs: seq<FeedLog>, deviceId: Id)
    requires forall i :: 0 <= i < |logs| ==> !CountsToward(logs[i], deviceId)
    ensures SuccessReports(logs, deviceId) == []
  {
    if logs != [] {
      assert forall i :: 0 <= i < |logs[1..]| ==> logs[1..][i] == logs[i + 1];
      NoCountedLogsNoHistory(logs[1..], deviceId);
    }
  }

  /** The latest report, as `OrderByDescending(ReportedAtUtc).FirstOrDefault()` finds it. */
  function Latest(reports: seq<int>): (r: Option<int>)
    ensures r.None? <==> reports == []
    ensures r.Some? ==> r.value in reports && forall t :: t in reports ==> t <= r.value
  {
    if reports == [] then None
    else
      var rest := Latest(reports[1..]);
      assert forall t :: t in reports ==> t == reports[0] || t in reports[1..];
      if rest.Some? && rest.value > reports[0] then rest else Some(reports[0])
  }

  /** The number of reports in [start, end). */
  function CountInWindow(reports: seq<int>, start: int, end: int): (n: nat)
    ensures n <= |reports|
    ensures n == 0 <==> forall i :: 0 <= i < |reports| ==> !(start <= reports[i] < end)
  {
    if reports == [] then 0
    else
      var rest := CountInWindow(reports[1..], start, end);
      assert forall i :: 1 <= i < |reports| ==> reports[i] == reports[1..][i - 1];
      (if start <= reports[0] < end then 1 else 0) + rest
  }

  /** Counting over two runs of reports is the sum of the counts of each run. */
  lemma {:induction false} CountInWindowConcat(a: seq<int>, b: seq<int>, start: int, end: int)
    ensures CountInWindow(a + b, start, end) == CountInWindow(a, start, end) + CountInWindow(b, start, end)
  {
    if a == [] {
      assert [] + b == b;
    } else {
      assert (a + b)[1..] == a[1..] + b;
      CountInWindowConcat(a[1..], b, start, end);
    }
  }

  /** A report added at the end counts once when it falls inside the window and not at all otherwise. */
  lemma {:induction false} CountInWindowAppend(reports: seq<int>, t: int, start: int, end: int)
    ensures CountInWindow(reports + [t], start, end) == CountInWindow(reports, start, end) + (if start <= t < end then 1 else 0)
  {
    CountInWindowConcat(reports, [t], start, end);
    assert [t][1..] == [];
  }

  // ---------------------------------------------------------- business day

  /**
   * The UTC offset of the business time zone: the configured id, or
   * "Asia/Shanghai" when none is configured; an id the time-zone table does
   * not know falls back to UTC.
   */
  function ZoneOffset(configured: Option<string>, tzdb: map<string, int>): (offset: int)
    ensures configured.None? && DefaultTimeZoneId in tzdb ==> offset == tzdb[DefaultTimeZoneId]
    ensures configured.Some? && configured.value in tzdb ==> offset == tzdb[configured.value]
    ensures configured.GetOr(DefaultTimeZoneId) !in tzdb ==> offset == 0
  {
    var id := configured.GetOr(DefaultTimeZoneId);
    if id in tzdb then tzdb[id] else 0
  }

  /** The start of a business day: an instant that is local midnight. */
  predicate IsLocalMidnight(t: int, offset: int) {
    (t + offset) % TicksPerDay == 0
  }

  /**
   * GetBusinessDayRangeUtc under a fixed offset: from local midnight of the
   * local date of `nowUtc`, converted back to UTC, to one day later.
   */
  function BusinessDayRange(nowUtc: int, offset: int): (r: (int, int))
    ensures IsLocalMidnight(r.0, offset)
    ensures r.0 <= nowUtc < r.1
    ensures r.1 == r.0 + TicksPerDay
  {
    var local := nowUtc + offset;
    var localStart := local - local % TicksPerDay;
    var startUtc := localStart - offset;
    (startUtc, startUtc + TicksPerDay)
  }

  /** The window is the only day-long span from a local midnight that holds `nowUtc`. */
  lemma {:induction false} BusinessDayUnique(nowUtc: int, offset: int, start: int)
    requires IsLocalMidnight(start, offset) && start <= nowUtc < start + TicksPerDay
    ensures BusinessDayRange(nowUtc, offset).0 == start
  {
    var s := BusinessDayRange(nowUtc, offset).0;
    var q1 := (start + offset) / TicksPerDay;
    var q2 := (s + offset) / TicksPerDay;
    assert start + offset == q1 * TicksPerDay;
    assert s + offset == q2 * TicksPerDay;
    assert q1 * TicksPerDay - q2 * TicksPerDay < TicksPerDay;
    assert q2 * TicksPerDay - q1 * TicksPerDay < TicksPerDay;
    assert q1 == q2;
  }

  /** A window's own start lies in it, and its end is the start of the next window. */
  lemma {:induction false} BusinessDayBoundaries(nowUtc: int, offset: int)
    ensures var r := BusinessDayRange(nowUtc, offset);
      BusinessDayRange(r.0, offset) == r && BusinessDayRange(r.1, offset).0 == r.1
  {
    var r := BusinessDayRange(nowUtc, offset);
    BusinessDayUnique(r.0, offset, r.0);
    assert (r.1 + offset) % TicksPerDay == 0 by {
      assert r.1 + offset == (r.0 + offset) + TicksPerDay;
    }
    BusinessDayUnique(r.1, offset, r.1);
  }

  // --------------------------------------------------------------- verdict

  /** Some report lies less than the cooldown before `nowUtc` (or after it). */
  ghost predicate CoolingDown(reports: seq<int>, nowUtc: int, cooldownSeconds: int) {
    exists t :: t in reports && nowUtc - t < cooldownSeconds * TicksPerSecond
  }

  /**
   * The verdict of DecideAsync for a resolved rule, the device's reported
   * successes and the evaluation instant.
   */
  function Verdict(rule: FeedRule, reports: seq<int>, nowUtc: int, offset: int): (d: FeedDecisionResult)
    ensures d.dailyLimitCount == rule.dailyLimitCount && d.cooldownSeconds == rule.cooldownSeconds
    ensures d.allowed <==> d.reason == ""
    ensures d.reason == "Cooldown" <==> CoolingDown(reports, nowUtc, rule.cooldownSeconds)
    ensures d.reason == "Cooldown" ==>
      && !d.allowed
      && d.dailyRemainingCount == rule.dailyLimitCount
      && d.cooldownRemainingSeconds == Max(0, rule.cooldownSeconds - TruncDiv(nowUtc - Latest(reports).value, TicksPerSecond))
    ensures d.reason != "Cooldown" ==>
      var window := BusinessDayRange(nowUtc, offset);
      var count := CountInWindow(reports, window.0, window.1);
      && d.cooldownRemainingSeconds == 0
      && d.dailyRemainingCount == Max(0, rule.dailyLimitCount - count)
      && (d.allowed <==> count < rule.dailyLimitCount)
      && (d.reason == "DailyLimitReached" <==> count >= rule.dailyLimitCount)
  {
    var last := Latest(reports);
    if last.Some? && nowUtc - last.value < rule.cooldownSeconds * TicksPerSecond then
      FeedDecisionResult(false, "Cooldown",
        Max(0, rule.cooldownSeconds - TruncDiv(nowUtc - last.value, TicksPerSecond)),
        rule.dailyLimitCount, rule.dailyLimitCount, rule.cooldownSeconds)
    else
      assert !CoolingDown(reports, nowUtc, rule.cooldownSeconds);
      var window := BusinessDayRange(nowUtc, offset);
      var count := CountInWindow(reports, window.0, window.1);
      var denied := count >= rule.dailyLimitCount;
      FeedDecisionResult(!denied, if denied then "DailyLimitReached" else "", 0,
        Max(0, rule.dailyLimitCount - count), rule.dailyLimitCount, rule.cooldownSeconds)
  }

  /**
   * DecideAsync: evaluates at `detectedAtUtc`, or at the clock reading when
   * none is given; the cat id only selects the rule, never the history.
   */
  method Decide(rules: seq<FeedRule>, logs: seq<FeedLog>, deviceId: Id, catId: Option<Id>,
                detectedAtUtc: Option<int>, clockUtc: int, businessTimeZone: Option<string>, tzdb: map<string, int>)
    returns (decision: FeedDecisionResult)
    ensures decision == Verdict(ResolveRule(rules, deviceId, catId), SuccessReports(logs, deviceId),
                                detectedAtUtc.GetOr(clockUtc), ZoneOffset(businessTimeZone, tzdb))
  {
    var nowUtc := detectedAtUtc.GetOr(clockUtc);
    var rule := ResolveRule(rules, deviceId, catId);
    decision := FeedDecisionResult(true, "", 0, rule.dailyLimitCount, rule.dailyLimitCount, rule.cooldownSeconds);

    var reports := SuccessReports(logs, deviceId);
    var lastSuccess := Latest(reports);
    if lastSuccess.Some? {
      var elapsed := nowUtc - lastSuccess.value;
      if elapsed < rule.cooldownSeconds * TicksPerSecond {
        decision := decision.(allowed := false, reason := "Cooldown",
          cooldownRemainingSeconds := Max(0, rule.cooldownSeconds - TruncDiv(elapsed, TicksPerSecond)));
        return;
      }
    }

    var window := BusinessDayRange(nowUtc, ZoneOffset(businessTimeZone, tzdb));
    var todaysCount := CountInWindow(reports, window.0, window.1);
    decision := decision.(dailyRemainingCount := Max(0, rule.dailyLimitCount - todaysCount));
    if todaysCount >= rule.dailyLimitCount {
      decision := decision.(allowed := false, reason := "DailyLimitReached");
    }
  }

  // ---------------------------------------------------------------- lemmas

  /**
   * With no reported success the device is never in cooldown: it is allowed
   * exactly when its daily limit is positive, with the full limit remaining.
   */
  lemma {:induction false} NoHistoryNoCooldown(rule: FeedRule, logs: seq<FeedLog>, deviceId: Id, nowUtc: int, offset: int)
    requires forall i :: 0 <= i < |logs| ==> !CountsToward(logs[i], deviceId)
    ensures var d := Verdict(rule, SuccessReports(logs, deviceId), nowUtc, offset);
      d.reason != "Cooldown" && (d.allowed <==> rule.dailyLimitCount > 0)
      && d.dailyRemainingCount == Max(0, rule.dailyLimitCount)
  {
    NoCountedLogsNoHistory(logs, deviceId);
  }

  /** A cooldown that started at or before `nowUtc` has 1..CooldownSeconds seconds left. */
  lemma {:induction false} CooldownRemainingInRange(rule: FeedRule, reports: seq<int>, nowUtc: int, offset: int)
    requires reports != [] && 0 <= nowUtc - Latest(reports).value < rule.cooldownSeconds * TicksPerSecond
    ensures var d := Verdict(rule, reports, nowUtc, offset);
      d.reason == "Cooldown" && 1 <= d.cooldownRemainingSeconds <= rule.cooldownSeconds
  {
    var elapsed := nowUtc - Latest(reports).value;
    assert CoolingDown(reports, nowUtc, rule.cooldownSeconds);
    var q := TruncDiv(elapsed, TicksPerSecond);
    assert q * TicksPerSecond <= elapsed;
    assert q < rule.cooldownSeconds;
  }

  /**
   * A trigger instant a whole second or more before the latest report makes
   * the elapsed time negative: the request is still denied for cooldown, and
   * the remaining seconds exceed the rule's cooldown.
   */
  lemma {:induction false} NegativeElapsedExceedsCooldown(rule: FeedRule, reports: seq<int>, nowUtc: int, offset: int)
    requires rule.cooldownSeconds >= 0
    requires reports != [] && nowUtc <= Latest(reports).value - TicksPerSecond
    ensures var d := Verdict(rule, reports, nowUtc, offset);
      d.reason == "Cooldown" && d.cooldownRemainingSeconds > rule.cooldownSeconds
  {
    var last := Latest(reports).value;
    assert last in reports && nowUtc - last < rule.cooldownSeconds * TicksPerSecond;
    assert CoolingDown(reports, nowUtc, rule.cooldownSeconds);
    assert TruncDiv(nowUtc - last, TicksPerSecond) <= -1;
  }

  /** The history of two runs of logs is the history of the first followed by that of the second. */
  lemma {:induction false} SuccessReportsConcat(a: seq<FeedLog>, b: seq<FeedLog>, deviceId: Id)
    ensures SuccessReports(a + b, deviceId) == SuccessReports(a, deviceId) + SuccessReports(b, deviceId)
  {
    if a == [] {
      assert [] + b == b;
    } else {
      assert (a + b)[1..] == a[1..] + b;
      SuccessReportsConcat(a[1..], b, deviceId);
    }
  }

  /** Appending a log adds its contribution, if any, to the end of the history. */
  lemma {:induction false} SuccessReportsAppend(logs: seq<FeedLog>, l: FeedLog, deviceId: Id)
    ensures SuccessReports(logs + [l], deviceId) == SuccessReports(logs, deviceId) + Contribution(l, deviceId)
  {
    SuccessReportsConcat(logs, [l], deviceId);
    assert SuccessReports([l], deviceId) == Contribution(l, deviceId) + SuccessReports([], deviceId);
  }

  /** Replacing one log replaces its contribution to the history, in place, by the new log's. */
  lemma {:induction false} SuccessReportsUpdate(logs: seq<FeedLog>, i: nat, l: FeedLog, deviceId: Id)
    requires i < |logs|
    ensures SuccessReports(logs, deviceId)
      == SuccessReports(logs[..i], deviceId) + Contribution(logs[i], deviceId) + SuccessReports(logs[i + 1..], deviceId)
    ensures SuccessReports(logs[i := l], deviceId)
      == SuccessReports(logs[..i], deviceId) + Contribution(l, deviceId) + SuccessReports(logs[i + 1..], deviceId)
  {
    assert logs == logs[..i] + [logs[i]] + logs[i + 1..];
    assert logs[i := l] == logs[..i] + [l] + logs[i + 1..];
    SuccessReportsAppend(logs[..i], logs[i], deviceId);
    SuccessReportsAppend(logs[..i], l, deviceId);
    SuccessReportsConcat(logs[..i] + [logs[i]], logs[i + 1..], deviceId);
    SuccessReportsConcat(logs[..i] + [l], logs[i + 1..], deviceId);
  }

  /** A log that is not a reported success of this device (a fresh allow log, say) never changes the verdict. */
  lemma {:induction false} UncountedLogKeepsVerdict(rule: FeedRule, logs: seq<FeedLog>, l: FeedLog, deviceId: Id, nowUtc: int, offset: int)
    requires !CountsToward(l, deviceId)
    ensures Verdict(rule, SuccessReports(logs + [l], deviceId), nowUtc, offset)
         == Verdict(rule, SuccessReports(logs, deviceId), nowUtc, offset)
  {
    SuccessReportsAppend(logs, l, deviceId);
    assert SuccessReports(logs, deviceId) + [] == SuccessReports(logs, deviceId);
  }
}
