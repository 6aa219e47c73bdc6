/**
 * DbSeeder: at start-up, a global rule is added when the FeedRules table
 * holds none, whatever the state of the rules already there.
 */
module DbSeeder {
  import opened Common
  import opened Models
  import opened Store
  import opened FeedDecisionService

  /** The rule the seeder adds: global, active, 10 feedings a day, 900 s apart. */
  function SeededRule(id: Id, nowUtc: int): (r: FeedRule)
    ensures ActiveGlobal(r) && r.scopeId == None && r.name == "Default rule"
    ensures r.dailyLimitCount == FallbackRule().dailyLimitCount && r.cooldownSeconds == FallbackRule().cooldownSeconds
    ensures r.createdAtUtc == nowUtc && r.updatedAtUtc == nowUtc
  {
    FeedRule(id, GlobalScope, None, true, 10, 900, "Default rule", nowUtc, nowUtc)
  }

  predicate IsGlobal(r: FeedRule) {
    r.scopeType == GlobalScope
  }

  /** Whether any rule, active or not, has the global scope. */
  function AnyGlobal(rules: seq<FeedRule>): (b: bool)
    ensures b <==> exists i :: 0 <= i < |rules| && IsGlobal(rules[i])
  {
    if rules == [] then false
    else if IsGlobal(rules[0]) then true
    else
      assert forall i :: 1 <= i < |rules| ==> rules[i] == rules[1..][i - 1];
      AnyGlobal(rules[1..])
  }

  /** The FeedRules table after seeding. */
  function SeedRules(rules: seq<FeedRule>, newId: Id, nowUtc: int): seq<FeedRule> {
    if AnyGlobal(rules) then rules else rules + [SeededRule(newId, nowUtc)]
  }

  /** SeedAsync. */
  method Seed(db: Db, newId: Id, nowUtc: int)
    requires db.Valid() && Find(db.rules, RuleIdOf, newId).None?
    modifies db`rules
    ensures db.Valid()
    ensures db.rules == SeedRules(old(db.rules), newId, nowUtc)
  {
    var rules := db.rules;
    if !AnyGlobal(rules) {
      UniqueAppend(rules, RuleIdOf, SeededRule(newId, nowUtc));
      rules := rules + [SeededRule(newId, nowUtc)];
    }
    assert TablesValid(db.devices, db.cats, rules, db.logs, db.users, db.roles, db.userRoles);
    ghost var tables := (db.devices, db.cats, rules, db.logs, db.users, db.roles, db.userRoles);
    db.rules := rules;
    assert (db.devices, db.cats, db.rules, db.logs, db.users, db.roles, db.userRoles) == tables;
  }

  /**
   * After seeding a global rule exists, the table only grows, and it grows
   * exactly when no global rule was there.
   */
  lemma {:induction false} SeedEnsuresGlobal(rules: seq<FeedRule>, newId: Id, nowUtc: int)
    ensures var rules' := SeedRules(rules, newId, nowUtc);
      && AnyGlobal(rules')
      && rules'[..|rules|] == rules
      && (|rules'| == |rules| + 1 <==> !AnyGlobal(rules))
      && |rules'| <= |rules| + 1
  {
    var rules' := SeedRules(rules, newId, nowUtc);
    if !AnyGlobal(rules) {
      assert IsGlobal(rules'[|rules|]);
    }
  }

  /** Seeding twice is seeding once. */
  lemma {:induction false} SeedIdempotent(rules: seq<FeedRule>, newId: Id, otherId: Id, nowUtc: int, laterUtc: int)
    ensures SeedRules(SeedRules(rules, newId, nowUtc), otherId, laterUtc) == SeedRules(rules, newId, nowUtc)
  {
    SeedEnsuresGlobal(rules, newId, nowUtc);
  }

  /**
   * On a table with no global rule, and no active device rule for the
   * device, a cat-less feeding request is governed by the seeded limits.
   */
  lemma {:induction false} SeededRuleGoverns(rules: seq<FeedRule>, newId: Id, nowUtc: int, deviceId: Id)
    requires !AnyGlobal(rules) && !HasActiveRuleFor(rules, DeviceScope, deviceId)
    ensures ResolveRule(SeedRules(rules, newId, nowUtc), deviceId, None) == SeededRule(newId, nowUtc)
  {
    var rules' := SeedRules(rules, newId, nowUtc);
    var s := SeededRule(newId, nowUtc);
    assert ActiveGlobal(rules'[|rules|]);
    assert forall j :: 0 <= j < |rules| ==> rules'[j] == rules[j] && !ActiveGlobal(rules'[j]);
    assert forall j :: 0 <= j < |rules'| && ActiveRuleFor(rules'[j], DeviceScope, deviceId) ==> j < |rules| && false;
    var r := ResolveRule(rules', deviceId, None);
    assert r in rules' || r == FallbackRule();
  }

  /**
   * When every global rule is inactive the seeder adds nothing and the
   * decision service falls back to its built-in rule, whose limits equal
   * the seeded ones: either way a cat-less request from a device with no
   * active rule of its own gets 10 feedings a day, 900 s apart.
   */
  lemma {:induction false} DefaultLimitsWithoutActiveGlobal(rules: seq<FeedRule>, newId: Id, nowUtc: int, deviceId: Id)
    requires !HasActiveGlobal(rules) && !HasActiveRuleFor(rules, DeviceScope, deviceId)
    ensures var r := ResolveRule(SeedRules(rules, newId, nowUtc), deviceId, None);
      r.dailyLimitCount == 10 && r.cooldownSeconds == 900
  {
    if AnyGlobal(rules) {
      var r := ResolveRule(rules, deviceId, None);
      assert r in rules || r == FallbackRule();
    } else {
      SeededRuleGoverns(rules, newId, nowUtc, deviceId);
    }
  }
}
