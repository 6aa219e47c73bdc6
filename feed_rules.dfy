/**
 * FeedRulesController: the admin listing of rules and the three upserts,
 * each keyed by the route (the global default, a device, a cat). An upsert
 * updates the first rule with that key or, when there is none, adds one;
 * the request body's own scope fields are never read.
 */
module FeedRulesController {
  import opened Common
  import opened Models
  import opened Ordering
  import opened Store
  import opened FeedDecisionService

  /** FeedRuleUpsertRequest. Its ScopeType and ScopeId are carried but never read. */
  datatype RuleRequest = RuleRequest(
    scopeType: RuleScope,
    scopeId: Option<Id>,
    name: Option<string>,
    dailyLimitCount: int,
    cooldownSeconds: int,
    isActive: bool)

  /** The key an upsert's route names. */
  datatype RuleKey = DefaultKey | DeviceKey(deviceId: Id) | CatKey(catId: Id)

  /** The upserts' lookups: any Global rule, active or not, or the scope and its id. */
  predicate KeyMatches(r: FeedRule, key: RuleKey) {
    match key
    case DefaultKey => r.scopeType == GlobalScope
    case DeviceKey(id) => r.scopeType == DeviceScope && r.scopeId == Some(id)
    case CatKey(id) => r.scopeType == CatScope && r.scopeId == Some(id)
  }

  /** The rule an upsert creates when no rule has its key: scope from the route, defaults otherwise. */
  function NewRuleFor(key: RuleKey, id: Id, nowUtc: int): (r: FeedRule)
    ensures KeyMatches(r, key) && r.id == id && r.createdAtUtc == nowUtc
  {
    match key
    case DefaultKey => NewFeedRule(id, GlobalScope, None, nowUtc)
    case DeviceKey(d) => NewFeedRule(id, DeviceScope, Some(d), nowUtc)
    case CatKey(c) => NewFeedRule(id, CatScope, Some(c), nowUtc)
  }

  function FirstKeyMatch(rules: seq<FeedRule>, key: RuleKey): (r: Option<nat>)
    ensures r.Some? ==> r.value < |rules| && KeyMatches(rules[r.value], key)
    ensures r.Some? ==> forall j :: 0 <= j < r.value ==> !KeyMatches(rules[j], key)
    ensures r.None? <==> forall j :: 0 <= j < |rules| ==> !KeyMatches(rules[j], key)
  {
    if rules == [] then None
    else if KeyMatches(rules[0], key) then Some(0)
    else
      var rest := FirstKeyMatch(rules[1..], key);
      assert forall j :: 1 <= j < |rules| ==> rules[j] == rules[1..][j - 1];
      if rest.Some? then Some(rest.value + 1) else None
  }

  /** A matching rule with no match before it is the one the upserts find. */
  lemma FirstKeyMatchAt(rules: seq<FeedRule>, key: RuleKey, i: nat)
    requires i < |rules| && KeyMatches(rules[i], key)
    requires forall j :: 0 <= j < i ==> !KeyMatches(rules[j], key)
    ensures FirstKeyMatch(rules, key) == Some(i)
  {
  }

  /**
   * ApplyRule: a blank or missing name keeps the rule's name; the limit,
   * cooldown and active flag are overwritten verbatim; nothing else changes.
   */
  function ApplyRule(rule: FeedRule, req: RuleRequest): (r: FeedRule)
    ensures r.id == rule.id && r.scopeType == rule.scopeType && r.scopeId == rule.scopeId
    ensures r.createdAtUtc == rule.createdAtUtc && r.updatedAtUtc == rule.updatedAtUtc
    ensures r.dailyLimitCount == req.dailyLimitCount && r.cooldownSeconds == req.cooldownSeconds
    ensures r.isActive == req.isActive
    ensures IsNullOrWhiteSpace(req.name) ==> r.name == rule.name
    ensures !IsNullOrWhiteSpace(req.name) ==> r.name == req.name.value
    ensures !IsBlank(rule.name) ==> !IsBlank(r.name)
  {
    rule.(name := if IsNullOrWhiteSpace(req.name) then rule.name else req.name.value,
          dailyLimitCount := req.dailyLimitCount,
          cooldownSeconds := req.cooldownSeconds,
          isActive := req.isActive)
  }

  /** The FeedRules table after an upsert for `key`. */
  function UpsertSpec(rules: seq<FeedRule>, key: RuleKey, req: RuleRequest, newId: Id, nowUtc: int): seq<FeedRule> {
    match FirstKeyMatch(rules, key)
    case Some(i) => rules[i := ApplyRule(rules[i], req).(updatedAtUtc := nowUtc)]
    case None => rules + [ApplyRule(NewRuleFor(key, newId, nowUtc), req).(updatedAtUtc := nowUtc)]
  }

  /** The shared body of the three upsert actions. */
  method Upsert(db: Db, key: RuleKey, req: RuleRequest, newId: Id, nowUtc: int)
    requires db.Valid() && Find(db.rules, RuleIdOf, newId).None?
    modifies db`rules
    ensures db.Valid()
    ensures db.rules == UpsertSpec(old(db.rules), key, req, newId, nowUtc)
  {
    var found := FirstKeyMatch(db.rules, key);
    var rules := db.rules;
    var i: nat;
    if found.None? {
      i := |rules|;
      rules := rules + [NewRuleFor(key, newId, nowUtc)];
    } else {
      i := found.value;
    }
    rules := rules[i := ApplyRule(rules[i], req)];
    rules := rules[i := rules[i].(updatedAtUtc := nowUtc)];
    assert rules == UpsertSpec(db.rules, key, req, newId, nowUtc);
    UpsertKeepsIds(db.rules, key, req, newId, nowUtc);
    assert TablesValid(db.devices, db.cats, rules, db.logs, db.users, db.roles, db.userRoles);
    ghost var tables := (db.devices, db.cats, rules, db.logs, db.users, db.roles, db.userRoles);
    db.rules := rules;
    assert (db.devices, db.cats, db.rules, db.logs, db.users, db.roles, db.userRoles) == tables;
  }

  /** PUT default: the global rule. */
  method UpsertDefault(db: Db, req: RuleRequest, newId: Id, nowUtc: int) returns (reply: Reply<()>)
    requires db.Valid() && Find(db.rules, RuleIdOf, newId).None?
    modifies db`rules
    ensures db.Valid() && reply == Ok(())
    ensures db.rules == UpsertSpec(old(db.rules), DefaultKey, req, newId, nowUtc)
  {
    Upsert(db, DefaultKey, req, newId, nowUtc);
    reply := Ok(());
  }

  /** PUT device/{deviceId}. */
  method UpsertDeviceRule(db: Db, deviceId: Id, req: RuleRequest, newId: Id, nowUtc: int) returns (reply: Reply<()>)
    requires db.Valid() && Find(db.rules, RuleIdOf, newId).None?
    modifies db`rules
    ensures db.Valid() && reply == Ok(())
    ensures db.rules == UpsertSpec(old(db.rules), DeviceKey(deviceId), req, newId, nowUtc)
  {
    Upsert(db, DeviceKey(deviceId), req, newId, nowUtc);
    reply := Ok(());
  }

  /** PUT cat/{catId}. */
  method UpsertCatRule(db: Db, catId: Id, req: RuleRequest, newId: Id, nowUtc: int) returns (reply: Reply<()>)
    requires db.Valid() && Find(db.rules, RuleIdOf, newId).None?
    modifies db`rules
    ensures db.Valid() && reply == Ok(())
    ensures db.rules == UpsertSpec(old(db.rules), CatKey(catId), req, newId, nowUtc)
  {
    Upsert(db, CatKey(catId), req, newId, nowUtc);
    reply := Ok(());
  }

  lemma {:induction false} UpsertKeepsIds(rules: seq<FeedRule>, key: RuleKey, req: RuleRequest, newId: Id, nowUtc: int)
    requires UniqueBy(rules, RuleIdOf) && Find(rules, RuleIdOf, newId).None?
    ensures UniqueBy(UpsertSpec(rules, key, req, newId, nowUtc), RuleIdOf)
  {
    match FirstKeyMatch(rules, key)
    case Some(i) =>
      UniqueUpdate(rules, RuleIdOf, i, ApplyRule(rules[i], req).(updatedAtUtc := nowUtc));
    case None =>
      UniqueAppend(rules, RuleIdOf, ApplyRule(NewRuleFor(key, newId, nowUtc), req).(updatedAtUtc := nowUtc));
  }

  /** At most one rule carries the key. */
  ghost predicate AtMostOne(rules: seq<FeedRule>, key: RuleKey) {
    forall i, j :: 0 <= i < |rules| && 0 <= j < |rules| && KeyMatches(rules[i], key) && KeyMatches(rules[j], key) ==> i == j
  }

  /**
   * An upsert adds a rule exactly when none has its key, and otherwise
   * updates the first one in place, keeping its Id, scope and creation time
   * and every other rule; either way the rule with the key then carries the
   * request's limit, cooldown and active flag and the update time.
   */
  lemma {:induction false} UpsertEffect(rules: seq<FeedRule>, key: RuleKey, req: RuleRequest, newId: Id, nowUtc: int)
    ensures var rules' := UpsertSpec(rules, key, req, newId, nowUtc);
      && ((forall j :: 0 <= j < |rules| ==> !KeyMatches(rules[j], key)) <==> |rules'| == |rules| + 1)
      && |rules| <= |rules'| <= |rules| + 1
      && exists i ::
           && 0 <= i < |rules'|
           && KeyMatches(rules'[i], key)
           && rules'[i].dailyLimitCount == req.dailyLimitCount && rules'[i].cooldownSeconds == req.cooldownSeconds
           && rules'[i].isActive == req.isActive && rules'[i].updatedAtUtc == nowUtc
           && (i < |rules| ==>
                 && rules'[i].id == rules[i].id && rules'[i].scopeType == rules[i].scopeType
                 && rules'[i].scopeId == rules[i].scopeId && rules'[i].createdAtUtc == rules[i].createdAtUtc)
           && (i == |rules| ==> rules'[i].id == newId && rules'[i].createdAtUtc == nowUtc)
           && (forall j :: 0 <= j < |rules| && j != i ==> rules'[j] == rules[j])
  {
    var rules' := UpsertSpec(rules, key, req, newId, nowUtc);
    match FirstKeyMatch(rules, key)
    case Some(i) =>
      assert KeyMatches(rules'[i], key);
    case None =>
      assert KeyMatches(rules'[|rules|], key);
  }

  /** Repeating an upsert with the same request changes nothing more. */
  lemma {:induction false} UpsertIdempotent(rules: seq<FeedRule>, key: RuleKey, req: RuleRequest, newId: Id, otherId: Id, nowUtc: int)
    ensures var once := UpsertSpec(rules, key, req, newId, nowUtc);
      UpsertSpec(once, key, req, otherId, nowUtc) == once
  {
    var once := UpsertSpec(rules, key, req, newId, nowUtc);
    match FirstKeyMatch(rules, key)
    case Some(i) =>
      assert forall j :: 0 <= j < i ==> once[j] == rules[j];
      assert KeyMatches(once[i], key);
      FirstKeyMatchAt(once, key, i);
    case None =>
      assert forall j :: 0 <= j < |rules| ==> once[j] == rules[j];
      assert KeyMatches(once[|rules|], key);
      FirstKeyMatchAt(once, key, |rules|);
  }

  /** An upsert leaves exactly one rule with its key when there was at most one. */
  lemma {:induction false} UpsertKeepsKeyUnique(rules: seq<FeedRule>, key: RuleKey, req: RuleRequest, newId: Id, nowUtc: int)
    requires AtMostOne(rules, key)
    ensures var rules' := UpsertSpec(rules, key, req, newId, nowUtc);
      AtMostOne(rules', key) && exists i :: 0 <= i < |rules'| && KeyMatches(rules'[i], key)
  {
    var rules' := UpsertSpec(rules, key, req, newId, nowUtc);
    match FirstKeyMatch(rules, key)
    case Some(i) =>
      assert KeyMatches(rules'[i], key);
      assert forall j :: 0 <= j < |rules| && j != i ==> rules'[j] == rules[j];
    case None =>
      assert KeyMatches(rules'[|rules|], key);
      assert forall j :: 0 <= j < |rules| ==> rules'[j] == rules[j];
  }

  /**
   * After an active device-rule upsert, a request from that device without
   * a cat is governed by the new limit and cooldown: the upserted rule is
   * the first rule with the device's key, so the first active one too.
   */
  lemma {:induction false} DeviceUpsertTakesEffect(rules: seq<FeedRule>, deviceId: Id, req: RuleRequest, newId: Id, nowUtc: int)
    requires req.isActive
    ensures var r := ResolveRule(UpsertSpec(rules, DeviceKey(deviceId), req, newId, nowUtc), deviceId, None);
      r.dailyLimitCount == req.dailyLimitCount && r.cooldownSeconds == req.cooldownSeconds
  {
    var key := DeviceKey(deviceId);
    var rules' := UpsertSpec(rules, key, req, newId, nowUtc);
    var first := FirstKeyMatch(rules, key);
    var i: nat := if first.Some? then first.value else |rules|;
    assert i < |rules'| && KeyMatches(rules'[i], key) && rules'[i].isActive;
    assert rules'[i].dailyLimitCount == req.dailyLimitCount && rules'[i].cooldownSeconds == req.cooldownSeconds;
    assert forall j :: 0 <= j < i ==> rules'[j] == rules[j] && !KeyMatches(rules'[j], key);
    assert ActiveRuleFor(rules'[i], DeviceScope, deviceId);
    var found := FirstActiveRuleFor(rules', DeviceScope, deviceId);
    assert found == Some(i);
  }

  // ------------------------------------------------------------ listing

  /** GetRules' order: by ScopeType's code, then by Name. */
  predicate RuleOrder(a: FeedRule, b: FeedRule) {
    RuleScopeCode(a.scopeType) < RuleScopeCode(b.scopeType)
    || (RuleScopeCode(a.scopeType) == RuleScopeCode(b.scopeType) && StrLe(a.name, b.name))
  }

  lemma {:induction false} RuleOrderIsTotalPreorder()
    ensures TotalPreorder(RuleOrder)
  {
    forall a: FeedRule, b: FeedRule ensures RuleOrder(a, b) || RuleOrder(b, a) {
      StrLeTotal(a.name, b.name);
    }
    forall a: FeedRule, b: FeedRule, c: FeedRule | RuleOrder(a, b) && RuleOrder(b, c) ensures RuleOrder(a, c) {
      if StrLe(a.name, b.name) && StrLe(b.name, c.name) {
        StrLeTransitive(a.name, b.name, c.name);
      }
    }
  }

  /** GetRules: every rule, ordered by scope and then name (the projection to fields is not modelled). */
  function GetRules(rules: seq<FeedRule>): (r: seq<FeedRule>)
    ensures multiset(r) == multiset(rules)
    ensures forall i, j :: 0 <= i < j < |r| ==> RuleOrder(r[i], r[j])
  {
    RuleOrderIsTotalPreorder();
    SortBy(rules, RuleOrder)
  }
}
