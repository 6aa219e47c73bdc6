# SaveHomelessKitty feeding back end, modelled in Dafny

SaveHomelessKitty runs feeder terminals for stray cats. A terminal asks the
server whether it may dispense food. The server's decision service answers
from the feeding rules (per cat, per device, global, or a built-in
fallback), the daily limit and the cooldown since the device's last
reported success. Every request is logged, and the terminal later reports
whether food was dispensed. An admin web console manages devices, cats,
feeding rules, feed logs, users, roles and role permissions. It shows enum
codes as labels and translates its texts from nested dictionaries.

The model has one module per core source file:

- `FeedDecisionService`: rule resolution, the device's history of reported
  successes, the business-day window, and the verdict.
- `TerminalFeedController`: allow, report and heartbeat.
- `FeedRulesController`, `DbSeeder`, `DevicesController`, `CatsController`,
  `FeedLogsController`, `Permissions`, `RolesController`, `UsersController`:
  the admin actions and the permission catalogue.
- `Status`, `I18n`: the console's label, colour, translation and locale
  helpers.
- Shared modules:
  - `Common` holds the reply kinds and the .NET string and integer
    conventions.
  - `Ordering` holds the sorting and filtering the LINQ queries do.
  - `Models` holds the entities.
  - `Store` holds the database: class `Db` with one sequence field per
    table, and the schema's unique indexes as its invariant `Valid()`.

Each state-changing controller action is a method on a `Db`. It assigns
the tables it saves, and it is proved equal to a specification function
from the old tables to the new tables and the HTTP reply. The reply is
`Ok`, `BadRequest`, `NotFound`, `Conflict`, or `Failed`. `Failed` means
`SaveChanges` threw on a unique index and nothing was saved. Lemmas beside
each specification state what the action promises.

Instants are `DateTime` ticks (10^7 per second). The clock, new Guids, the
password hash and the time-zone table are parameters.

## Model

| member | source | states |
|---|---|---|
| FeedDecisionService.FallbackRule | SaveHomelessKitty/Services/FeedDecisionService.cs:114-121 | the built-in rule is global, active, 10 feedings a day, 900 s apart, named "default" |
| FeedDecisionService.FirstActiveRuleFor | SaveHomelessKitty/Services/FeedDecisionService.cs:84-102 | the first active rule of the scope and id in table order; None exactly when there is none |
| FeedDecisionService.OldestActiveGlobal | SaveHomelessKitty/Services/FeedDecisionService.cs:104-112 | an active global rule with the earliest creation time; None exactly when there is none |
| FeedDecisionService.ResolveRule | SaveHomelessKitty/Services/FeedDecisionService.cs:82-122 | precedence cat rule, then device rule, then oldest global, then fallback; the result is active, from the table or the fallback, and never a cat rule without a cat id |
| FeedDecisionService.SuccessReportsMembers | SaveHomelessKitty/Services/FeedDecisionService.cs:42-45 | the history holds exactly the report instants of the device's reported Success logs |
| FeedDecisionService.NoCountedLogsNoHistory | SaveHomelessKitty/Services/FeedDecisionService.cs:42-45 | a device with no reported success has an empty history |
| FeedDecisionService.Latest | SaveHomelessKitty/Services/FeedDecisionService.cs:42-45 | the last success is None exactly for an empty history, else the maximum report instant |
| FeedDecisionService.CountInWindow | SaveHomelessKitty/Services/FeedDecisionService.cs:59-63 | the count is bounded by the history and is zero exactly when no report falls in [start, end) |
| FeedDecisionService.CountInWindowConcat | SaveHomelessKitty/Services/FeedDecisionService.cs:59-63 | the count over two runs of reports is the sum of their counts |
| FeedDecisionService.CountInWindowAppend | SaveHomelessKitty/Services/FeedDecisionService.cs:59-63 | a report added at the end raises the count by one when it lies in [start, end) and leaves it otherwise |
| FeedDecisionService.ZoneOffset | SaveHomelessKitty/Services/FeedDecisionService.cs:128-143 | the configured zone, else "Asia/Shanghai"; a zone the table does not know is UTC |
| FeedDecisionService.BusinessDayRange | SaveHomelessKitty/Services/FeedDecisionService.cs:128-149 | the window starts at a local midnight, holds the instant, and lasts one day |
| FeedDecisionService.BusinessDayUnique | SaveHomelessKitty/Services/FeedDecisionService.cs:128-149 | no other day-long span from a local midnight holds the instant |
| FeedDecisionService.BusinessDayBoundaries | SaveHomelessKitty/Services/FeedDecisionService.cs:128-149 | a window's start lies in its own window and its end starts the next one |
| FeedDecisionService.Verdict | SaveHomelessKitty/Services/FeedDecisionService.cs:47-71 | "Cooldown" exactly when a report lies within the cooldown (remaining seconds truncated toward zero); otherwise allowed exactly when the day's count is under the limit, else "DailyLimitReached"; snapshots are the rule's |
| FeedDecisionService.Decide | SaveHomelessKitty/Services/FeedDecisionService.cs:29-74 | the decision is the verdict of the resolved rule over the device's history, at the detection instant or the clock reading |
| FeedDecisionService.NoHistoryNoCooldown | SaveHomelessKitty/Services/FeedDecisionService.cs:42-71 | with no reported success, never cooldown; allowed exactly when the limit is positive |
| FeedDecisionService.CooldownRemainingInRange | SaveHomelessKitty/Services/FeedDecisionService.cs:47-56 | a cooldown that started at or before the instant has 1 to CooldownSeconds seconds left |
| FeedDecisionService.NegativeElapsedExceedsCooldown | SaveHomelessKitty/Services/FeedDecisionService.cs:47-56 | an instant a second or more before the last report is cooldown with more than CooldownSeconds left |
| FeedDecisionService.SuccessReportsConcat | SaveHomelessKitty/Services/FeedDecisionService.cs:42-45 | the history of two runs of logs is the concatenation of their histories |
| FeedDecisionService.SuccessReportsAppend | SaveHomelessKitty/Services/FeedDecisionService.cs:42-45 | appending a log appends its contribution to the history |
| FeedDecisionService.SuccessReportsUpdate | SaveHomelessKitty/Services/FeedDecisionService.cs:42-45 | replacing a log replaces its contribution in place |
| FeedDecisionService.UncountedLogKeepsVerdict | SaveHomelessKitty/Services/FeedDecisionService.cs:42-63 | a log that is not a reported success of the device never changes its verdict |
| TerminalFeedController.DeviceByCode | SaveHomelessKitty/Controllers/Terminal/TerminalFeedController.cs:46-53 | the evidently intended lookup: the first device registered under the trimmed code, and None exactly when no device has that code |
| TerminalFeedController.NewTerminalDevice | SaveHomelessKitty/Controllers/Terminal/TerminalFeedController.cs:48-58 | a device registered on first contact has the trimmed code as code and name, is active and seen now |
| TerminalFeedController.AsWrittenLookupDuplicatesCode | SaveHomelessKitty/Controllers/Terminal/TerminalFeedController.cs:46-61 | with "RPI-001" registered, the code "RPI-001 " as written would register "RPI-001" a second time, so the request fails with both tables unchanged; the intended lookup accepts it and adds no device |
| TerminalFeedController.AllowDevicesAsWrittenIndex | SaveHomelessKitty/Controllers/Terminal/TerminalFeedController.cs:46-61 | the device step as written keeps device Ids unique, and keeps codes unique exactly when the code is not a padded duplicate (unregistered as sent, registered trimmed) |
| TerminalFeedController.AllowDevicesKeepKeys | SaveHomelessKitty/Controllers/Terminal/TerminalFeedController.cs:46-66 | the device step with the intended lookup keeps device Ids and codes unique |
| TerminalFeedController.AllowFeedIntendedKeepsKeys | SaveHomelessKitty/Controllers/Terminal/TerminalFeedController.cs:37-112 | with the intended lookup an allow request with a code succeeds, keeps Ids and codes unique, appends one log for the device with the trimmed code, and adds no device when that code is registered |
| TerminalFeedController.DecideAndLog | SaveHomelessKitty/Controllers/Terminal/TerminalFeedController.cs:68-105 | an inactive device is denied "DeviceInactive" without the engine; an active one gets the engine's verdict at the trigger instant; the log and the reply carry that verdict |
| TerminalFeedController.AllowFeed | SaveHomelessKitty/Controllers/Terminal/TerminalFeedController.cs:37-112 | keeps the unique indexes; the new Devices and FeedLogs tables and the reply are AllowFeedSpec's: the lookup by the code as sent, and a UniqueViolation failure that stores nothing on a padded duplicate |
| TerminalFeedController.AllowBlankCodeStoresNothing | SaveHomelessKitty/Controllers/Terminal/TerminalFeedController.cs:39-42 | a blank or missing code is DeviceCodeRequired and nothing is stored |
| TerminalFeedController.AllowAppendsOneLog | SaveHomelessKitty/Controllers/Terminal/TerminalFeedController.cs:46-110 | fails, storing nothing, exactly on a padded duplicate; otherwise exactly one log is appended, not yet reported, for the device with the code as sent or trimmed, whose id, decision, reason and snapshots agree with the reply |
| TerminalFeedController.AllowRegistersUnknownDevice | SaveHomelessKitty/Controllers/Terminal/TerminalFeedController.cs:48-61 | a code registered neither as sent nor trimmed adds one active Online device named by its trimmed code |
| TerminalFeedController.AllowTouchesKnownDevice | SaveHomelessKitty/Controllers/Terminal/TerminalFeedController.cs:62-66 | a code registered as sent changes only that device's last-seen and update times |
| TerminalFeedController.AllowInactiveDevice | SaveHomelessKitty/Controllers/Terminal/TerminalFeedController.cs:84-90 | an inactive device is denied "DeviceInactive" without the engine, with zero snapshots |
| TerminalFeedController.AllowActiveMirrorsVerdict | SaveHomelessKitty/Controllers/Terminal/TerminalFeedController.cs:93-104 | an active device's reply is the engine's verdict at the trigger instant over the prior history |
| TerminalFeedController.AllowKeepsHistory | SaveHomelessKitty/Controllers/Terminal/TerminalFeedController.cs:69-82 | the appended log changes no device's history of successes |
| TerminalFeedController.ReportFeed | SaveHomelessKitty/Controllers/Terminal/TerminalFeedController.cs:124-165 | keeps the unique indexes; the new Devices and FeedLogs tables and the reply are ReportFeedSpec's |
| TerminalFeedController.ReportOutcome | SaveHomelessKitty/Controllers/Terminal/TerminalFeedController.cs:126-161 | a report succeeds exactly when the code names a device that owns the allowed log and a result is given; a refusal changes nothing; success writes the result, report instant, portion, note ("" for null) and update time into that log and marks that device seen at the instant, and changes no other row or field |
| TerminalFeedController.ReportRefusalCodes | SaveHomelessKitty/Controllers/Terminal/TerminalFeedController.cs:121-152 | each refusal answers its documented code exactly in its case: DeviceCodeRequired for a blank code, DeviceNotFound for an unknown device, LogNotFound when the device owns no log with the Id, LogNotAllowed for a log that was not allowed, ResultRequired for a missing result |
| TerminalFeedController.ReportedSuccessStartsCooldown | SaveHomelessKitty/Controllers/Terminal/TerminalFeedController.cs:148-161 | after a Success report the device is in cooldown for the rule's cooldown from the report instant |
| TerminalFeedController.ReportedSuccessCountsToday | SaveHomelessKitty/Controllers/Terminal/TerminalFeedController.cs:153-158 | a Success report inside a business day raises that day's success count of the device by one, less the earlier success of the same log it overwrites if that lay in the day; by exactly one for a log not counted before |
| TerminalFeedController.Heartbeat | SaveHomelessKitty/Controllers/Terminal/TerminalFeedController.cs:177-212 | keeps the unique indexes; the new Devices table and the reply are HeartbeatSpec's: the lookup by the code as sent, and a UniqueViolation failure that stores nothing on a padded duplicate |
| TerminalFeedController.HeartbeatKeepsKeys | SaveHomelessKitty/Controllers/Terminal/TerminalFeedController.cs:185-210 | a heartbeat as written keeps device Ids and codes unique, since a padded duplicate stores nothing |
| TerminalFeedController.HeartbeatIntendedKeepsKeys | SaveHomelessKitty/Controllers/Terminal/TerminalFeedController.cs:177-212 | with the intended lookup every heartbeat with a code is accepted, keeps Ids and codes unique, and adds no device when the trimmed code is registered |
| TerminalFeedController.AsWrittenHeartbeatRejectsPaddedCode | SaveHomelessKitty/Controllers/Terminal/TerminalFeedController.cs:185-210 | with "RPI-001" registered, a heartbeat as written from "RPI-001 " fails and stores nothing; with the intended lookup it is accepted and adds no device |
| TerminalFeedController.HeartbeatOverwritesStatus | SaveHomelessKitty/Controllers/Terminal/TerminalFeedController.cs:185-210 | fails, storing nothing, exactly on a padded duplicate; otherwise it is Ok, adds a device exactly when none has the code as sent, and the device with the code as sent or trimmed carries exactly the reported status, telemetry and note, and no other device changes |
| TerminalFeedController.HeartbeatRegistersUnknownDevice | SaveHomelessKitty/Controllers/Terminal/TerminalFeedController.cs:184-208 | a code held by no device, as sent or trimmed, is Ok and appends exactly one device: the new Id, the trimmed code as code and name, active, created, updated and seen at the heartbeat instant, with the reported status, telemetry and note; the existing devices stay |
| TerminalFeedController.HeartbeatUpdatesKnownDevice | SaveHomelessKitty/Controllers/Terminal/TerminalFeedController.cs:184-208 | the first device with the code as sent is updated in place, Ok: status, telemetry, note, last-seen and update time become the heartbeat's, every other field and every other device stays, and no device is added |
| FeedRulesController.ApplyRule | SaveHomelessKitty/Controllers/Admin/FeedRulesController.cs:145-151 | limit, cooldown and active flag are overwritten; a blank name keeps the old one; identity fields are kept |
| FeedRulesController.Upsert | SaveHomelessKitty/Controllers/Admin/FeedRulesController.cs:57-143 | the new FeedRules table is UpsertSpec's |
| FeedRulesController.UpsertDefault | SaveHomelessKitty/Controllers/Admin/FeedRulesController.cs:57-79 | the global rule is upserted and the reply is Ok |
| FeedRulesController.UpsertDeviceRule | SaveHomelessKitty/Controllers/Admin/FeedRulesController.cs:89-111 | the device's rule is upserted and the reply is Ok |
| FeedRulesController.UpsertCatRule | SaveHomelessKitty/Controllers/Admin/FeedRulesController.cs:121-143 | the cat's rule is upserted and the reply is Ok |
| FeedRulesController.UpsertKeepsIds | SaveHomelessKitty/Controllers/Admin/FeedRulesController.cs:62-72 | with a fresh id, rule Ids stay unique |
| FeedRulesController.UpsertEffect | SaveHomelessKitty/Controllers/Admin/FeedRulesController.cs:57-143 | adds a rule exactly when none has the key, else updates the first in place keeping its identity and all other rules; the keyed rule then carries the request's values |
| FeedRulesController.UpsertIdempotent | SaveHomelessKitty/Controllers/Admin/FeedRulesController.cs:57-143 | a second identical upsert leaves the table as the first left it |
| FeedRulesController.UpsertKeepsKeyUnique | SaveHomelessKitty/Controllers/Admin/FeedRulesController.cs:57-143 | at most one rule per key before means exactly one after |
| FeedRulesController.DeviceUpsertTakesEffect | SaveHomelessKitty/Controllers/Admin/FeedRulesController.cs:89-111 | after an active device-rule upsert, cat-less requests from the device get the new limit and cooldown, whatever rules the table held before |
| FeedRulesController.RuleOrderIsTotalPreorder | SaveHomelessKitty/Controllers/Admin/FeedRulesController.cs:32-34 | ordering by scope code, then name, is total and transitive |
| FeedRulesController.GetRules | SaveHomelessKitty/Controllers/Admin/FeedRulesController.cs:30-48 | every rule once (a permutation), ordered by scope and then name |
| DbSeeder.SeededRule | SaveHomelessKitty/Data/DbSeeder.cs:20-31 | the seeded rule is global, active, and has the fallback rule's limits |
| DbSeeder.Seed | SaveHomelessKitty/Data/DbSeeder.cs:16-35 | the new FeedRules table is SeedRules' |
| DbSeeder.SeedEnsuresGlobal | SaveHomelessKitty/Data/DbSeeder.cs:18-34 | afterwards a global rule exists; the table only grows, and grows exactly when it had no global rule |
| DbSeeder.SeedIdempotent | SaveHomelessKitty/Data/DbSeeder.cs:18 | seeding twice is seeding once |
| DbSeeder.SeededRuleGoverns | SaveHomelessKitty/Data/DbSeeder.cs:20-31 | with no global rule and no active device rule, the seeded rule decides cat-less requests |
| DbSeeder.DefaultLimitsWithoutActiveGlobal | SaveHomelessKitty/Data/DbSeeder.cs:18-31 | with no active global rule, cat-less requests from a device without its own rule get 10 a day, 900 s apart |
| DevicesController.CodeOrderIsTotalPreorder | SaveHomelessKitty/Controllers/Admin/DevicesController.cs:31 | ordinal order of device codes is total and transitive |
| DevicesController.GetDevices | SaveHomelessKitty/Controllers/Admin/DevicesController.cs:30-47 | every device once (a permutation), ordered by code |
| DevicesController.GetDevicesStrictlyOrdered | SaveHomelessKitty/Controllers/Admin/DevicesController.cs:30-31 | under unique codes the list is strictly increasing |
| DevicesController.OccursOnce | SaveHomelessKitty/Data/AppDbContext.cs:77 | under unique codes each device occurs once |
| DevicesController.GetDevice | SaveHomelessKitty/Controllers/Admin/DevicesController.cs:61-65 | NotFound exactly when no device has the Id, else that device |
| DevicesController.UpdateDevice | SaveHomelessKitty/Controllers/Admin/DevicesController.cs:94-107 | keeps the unique indexes; the new Devices table and reply are UpdateDeviceSpec's |
| DevicesController.UpdateDeviceEffect | SaveHomelessKitty/Controllers/Admin/DevicesController.cs:94-104 | Ok exactly when a device has the Id and NotFound otherwise; an unknown Id changes nothing; otherwise only that device changes, taking name, location, note (null as empty) and active flag, keeping code, status and telemetry |
| CatsController.CodeOrderIsTotalPreorder | SaveHomelessKitty/Controllers/Admin/CatsController.cs:58 | ordinal order of cat codes is total and transitive |
| CatsController.GetCats | SaveHomelessKitty/Controllers/Admin/CatsController.cs:73-86 | every cat once (a permutation), ordered by code |
| CatsController.SearchHits | SaveHomelessKitty/Controllers/Admin/CatsController.cs:46-58 | exactly the hits, each from the table, ordered by code |
| CatsController.SearchCats | SaveHomelessKitty/Controllers/Admin/CatsController.cs:38-58 | BadRequest exactly for a null or blank query; otherwise the Ids of the hits for the trimmed keyword |
| CatsController.SearchCatsReportsHits | SaveHomelessKitty/Controllers/Admin/CatsController.cs:43-58 | an Id is reported exactly when a cat with it matches code, alias or description ignoring ASCII case and passes the active filter |
| CatsController.SearchSkipsInactive | SaveHomelessKitty/Controllers/Admin/CatsController.cs:46-49 | without includeInactive an inactive cat is never reported |
| CatsController.GetCat | SaveHomelessKitty/Controllers/Admin/CatsController.cs:101-105 | NotFound exactly when no cat has the Id, else that cat |
| CatsController.CreateCat | SaveHomelessKitty/Controllers/Admin/CatsController.cs:130-146 | keeps the unique indexes; the new Cats table and reply are CreateCatSpec's |
| CatsController.CreateCatEffect | SaveHomelessKitty/Controllers/Admin/CatsController.cs:130-146 | fails, changing nothing, exactly when another cat has the code; otherwise one cat is added and its Id answered, carrying every field of the request (null strings as empty) and created and updated now |
| CatsController.UpdateCat | SaveHomelessKitty/Controllers/Admin/CatsController.cs:162-177 | keeps the unique indexes; the new Cats table and reply are UpdateCatSpec's |
| CatsController.UpdateCatEffect | SaveHomelessKitty/Controllers/Admin/CatsController.cs:162-177 | unknown Id is NotFound, and the update fails exactly when another cat has the code; both change nothing; otherwise it succeeds and only that cat changes, taking every field of the request and the update time |
| CatsController.DeleteCat | SaveHomelessKitty/Controllers/Admin/CatsController.cs:191-198 | keeps the unique indexes; the new Cats table and reply are DeleteCatSpec's |
| CatsController.DeleteCatEffect | SaveHomelessKitty/Controllers/Admin/CatsController.cs:191-198 | Ok exactly when a cat has the Id, NotFound otherwise; exactly the cat with the Id goes and every other stays; an unknown Id changes nothing |
| FeedLogsController.Matching | SaveHomelessKitty/Controllers/Admin/FeedLogsController.cs:48-75 | exactly the logs that pass every filter, in table order |
| FeedLogsController.NewestPrefix | SaveHomelessKitty/Controllers/Admin/FeedLogsController.cs:77-79 | a prefix of the newest-first matching logs holds only matching logs, none more often than it matches |
| FeedLogsController.Newest | SaveHomelessKitty/Controllers/Admin/FeedLogsController.cs:77-79 | as many matching logs as there are, up to 500, newest first, none more often than it matches |
| FeedLogsController.NewestKeepsNewest | SaveHomelessKitty/Controllers/Admin/FeedLogsController.cs:77-79 | a matching log left out means 500 logs, all at least as recent |
| FeedLogsController.GetLogs | SaveHomelessKitty/Controllers/Admin/FeedLogsController.cs:43-84 | at most 500 rows of matching logs, newest first, none more often than it matches, each with its device's code or "" |
| FeedLogsController.GetLogsKeepsNewest | SaveHomelessKitty/Controllers/Admin/FeedLogsController.cs:77-79 | a matching log left out means 500 rows, all at least as recent |
| FeedLogsController.GetLogsComplete | SaveHomelessKitty/Controllers/Admin/FeedLogsController.cs:77-79 | with fewer than 500 matches every matching log is listed |
| FeedLogsController.MatchingAgrees | SaveHomelessKitty/Controllers/Admin/FeedLogsController.cs:48-75 | queries whose filters agree on every log match the same logs |
| FeedLogsController.DeviceIdOverridesCode | SaveHomelessKitty/Controllers/Admin/FeedLogsController.cs:48-55 | with a device Id the device code does not matter |
| FeedLogsController.BlankCodeIgnored | SaveHomelessKitty/Controllers/Admin/FeedLogsController.cs:52-55 | a blank device code is the same as none |
| Permissions.AllKeys | SaveHomelessKitty/Services/Permissions.cs:22-35 | the catalogue's keys, in declaration order |
| Permissions.GetDefaultPermissions | SaveHomelessKitty/Services/Permissions.cs:37-72 | every default key is a catalogue key |
| Permissions.AllKeysDistinct | SaveHomelessKitty/Services/Permissions.cs:10-35 | eleven definitions with pairwise distinct keys |
| Permissions.SuperAdminHoldsAll | SaveHomelessKitty/Services/Permissions.cs:41 | SuperAdmin gets exactly the catalogue |
| Permissions.AdminHoldsAllButManagement | SaveHomelessKitty/Services/Permissions.cs:42-53 | Admin holds a key exactly when it is a catalogue key other than the two management keys |
| Permissions.ViewerHoldsReadKeys | SaveHomelessKitty/Services/Permissions.cs:54-69 | Visitor and Viewer get the same keys, exactly the catalogue's ".read" keys |
| Permissions.ReadKeysOfCatalogue | SaveHomelessKitty/Services/Permissions.cs:10-20 | the catalogue's ".read" keys are its five view permissions |
| Permissions.DefaultsNested | SaveHomelessKitty/Services/Permissions.cs:41-69 | Viewer's keys are within Admin's, and Admin's within SuperAdmin's |
| Permissions.UnknownRoleGetsNothing | SaveHomelessKitty/Services/Permissions.cs:70 | any other role name, however spelled, gets no key |
| RolesController.FirstOfEachCase | SaveHomelessKitty/Controllers/Admin/RolesController.cs:129-132 | no two keys equal ignoring case, each from the input, covering the same keys ignoring case |
| RolesController.Desired | SaveHomelessKitty/Controllers/Admin/RolesController.cs:128-132 | distinct catalogue keys; a key is covered exactly when the request lists a catalogue key equal to it ignoring case; none for a null list |
| RolesController.ToAdd | SaveHomelessKitty/Controllers/Admin/RolesController.cs:136-138 | exactly the desired keys the role does not hold yet |
| RolesController.Kept | SaveHomelessKitty/Controllers/Admin/RolesController.cs:135-145 | exactly the rows that are not the role's undesired ones |
| RolesController.UpdateRolePermissions | SaveHomelessKitty/Controllers/Admin/RolesController.cs:126-158 | the new table is the reconciled one; nothing changes when nothing is saved |
| RolesController.ReconciledHoldsDesired | SaveHomelessKitty/Controllers/Admin/RolesController.cs:126-158 | the role holds a key afterwards exactly when the request listed that catalogue key in some spelling |
| RolesController.ReconciledHoldsOnlyDesired | SaveHomelessKitty/Controllers/Admin/RolesController.cs:135-145 | every key the role holds afterwards was desired |
| RolesController.ReconciledHoldsAllDesired | SaveHomelessKitty/Controllers/Admin/RolesController.cs:136-152 | every desired key is held afterwards |
| RolesController.ReconciledKeepsOtherRoles | SaveHomelessKitty/Controllers/Admin/RolesController.cs:135 | other roles' rows are unchanged |
| RolesController.NullListClears | SaveHomelessKitty/Controllers/Admin/RolesController.cs:129 | a null list leaves the role with no permission |
| RolesController.ListedCatalogueKeyHeld | SaveHomelessKitty/Controllers/Admin/RolesController.cs:128-138 | a listed catalogue key in any spelling is held afterwards |
| RolesController.ReconciledRowsDistinct | SaveHomelessKitty/Controllers/Admin/RolesController.cs:135-152 | the role's rows stay pairwise distinct ignoring case |
| RolesController.CreateRole | SaveHomelessKitty/Controllers/Admin/RolesController.cs:47-73 | keeps the unique indexes; the new tables and reply are CreateRoleSpec's |
| RolesController.CreateRoleOutcome | SaveHomelessKitty/Controllers/Admin/RolesController.cs:47-73 | blank name is BadRequest, a verbatim taken name is Conflict, a taken trimmed name fails on the unique index, each changing nothing; otherwise it succeeds and one role with the trimmed name is added, created and updated now, holding exactly the listed catalogue keys, other roles' rows unchanged |
| RolesController.CreateRoleFailsOnTrimmedName | SaveHomelessKitty/Controllers/Admin/RolesController.cs:52-69 | the create fails exactly when the name is not taken verbatim but its trimmed form is |
| RolesController.CreateRoleGrantsListed | SaveHomelessKitty/Controllers/Admin/RolesController.cs:71 | a created role holds, ignoring case, exactly the listed catalogue keys, and other roles' rows are unchanged |
| RolesController.UpdateRole | SaveHomelessKitty/Controllers/Admin/RolesController.cs:80-96 | keeps the unique indexes; the new tables and reply are UpdateRoleSpec's |
| RolesController.UpdateRoleOutcome | SaveHomelessKitty/Controllers/Admin/RolesController.cs:80-96 | the reply is Ok, NotFound or Failed; unknown Id is NotFound; the save fails exactly when the role's new name (trimmed, or kept if blank) is held by another role; both change nothing; otherwise only that role changes, to a name no other role holds, keeping its Id and creation time |
| RolesController.UpdateRoleChangesOnlyThatRole | SaveHomelessKitty/Controllers/Admin/RolesController.cs:80-93 | an accepted update changes only the first role with the Id: trimmed name or the old one if blank, description or the old one if null, and a name no other role holds |
| RolesController.UpdateRoleFailsOnTakenName | SaveHomelessKitty/Controllers/Admin/RolesController.cs:80-93 | the update fails exactly when the first role with the Id would take a name another role holds |
| RolesController.DeleteRole | SaveHomelessKitty/Controllers/Admin/RolesController.cs:103-123 | keeps the unique indexes; the new tables and reply are DeleteRoleSpec's |
| RolesController.DeleteRoleCascades | SaveHomelessKitty/Controllers/Admin/RolesController.cs:103-123 | Ok exactly when a role has the Id, NotFound (changing nothing) otherwise; the role goes with every UserRoles and RolePermissions row naming it, and nothing else |
| UsersController.DesiredRoles | SaveHomelessKitty/Controllers/Admin/UsersController.cs:135 | distinct role Ids, exactly those requested; none for a null list |
| UsersController.ReconciledHoldsDesired | SaveHomelessKitty/Controllers/Admin/UsersController.cs:133-159 | the user holds exactly the requested roles afterwards; other users' rows are unchanged |
| UsersController.ReconciledUnique | SaveHomelessKitty/Controllers/Admin/UsersController.cs:138-152 | the (UserId, RoleId) key stays unique |
| UsersController.UpdateUserRoles | SaveHomelessKitty/Controllers/Admin/UsersController.cs:133-159 | keeps the unique indexes; the new table is the reconciled one; nothing changes when nothing is saved |
| UsersController.CreateUser | SaveHomelessKitty/Controllers/Admin/UsersController.cs:57-85 | keeps the unique indexes; the new tables and reply are CreateUserSpec's |
| UsersController.CreateUserOutcome | SaveHomelessKitty/Controllers/Admin/UsersController.cs:57-85 | blank username or password is BadRequest, a verbatim taken username is Conflict, a taken trimmed username fails on the unique index, each changing nothing; otherwise it succeeds and one user with the trimmed username, display name and hash is added, holding exactly the listed roles |
| UsersController.CreateUserFailsOnTrimmedName | SaveHomelessKitty/Controllers/Admin/UsersController.cs:62-81 | the create fails exactly when the username is not taken verbatim but its trimmed form is |
| UsersController.CreateUserGrantsListed | SaveHomelessKitty/Controllers/Admin/UsersController.cs:83 | a created user holds exactly the listed roles, and other users' rows are unchanged |
| UsersController.UpdateUser | SaveHomelessKitty/Controllers/Admin/UsersController.cs:91-110 | keeps the unique indexes; the new tables and reply are UpdateUserSpec's |
| UsersController.UpdateUserOutcome | SaveHomelessKitty/Controllers/Admin/UsersController.cs:91-110 | unknown Id is NotFound; otherwise only that user changes; the hash changes only for a non-blank password, and the username never changes |
| UsersController.DeleteUser | SaveHomelessKitty/Controllers/Admin/UsersController.cs:116-130 | keeps the unique indexes; the new tables and reply are DeleteUserSpec's |
| UsersController.DeleteUserCascades | SaveHomelessKitty/Controllers/Admin/UsersController.cs:116-130 | Ok exactly when a user has the Id, NotFound (changing nothing) otherwise; the user goes with every UserRoles row naming it, and nothing else |
| Status.DeviceStatusLabel | web/src/utils/status.ts:3-14 | "Unknown" exactly for codes other than 1, 2, 3 |
| Status.DeviceStatusColor | web/src/utils/status.ts:16-27 | grey exactly for codes other than 1, 2, 3 |
| Status.DecisionLabel | web/src/utils/status.ts:29-38 | "Unknown" exactly for codes other than 0, 1 |
| Status.FeedResultLabel | web/src/utils/status.ts:40-51 | "Unknown" exactly for codes other than 0, 1, 2 |
| Status.DeviceStatusLabelNamesStatus | web/src/utils/status.ts:3-14 | each server device status is shown by its own name |
| Status.DeviceStatusLabelInjective | web/src/utils/status.ts:3-14 | distinct statuses get distinct labels |
| Status.DeviceStatusColorsDistinct | web/src/utils/status.ts:16-27 | distinct statuses get distinct colours |
| Status.DecisionLabelNamesDecision | web/src/utils/status.ts:29-38 | Allowed and Denied are shown by name |
| Status.FeedResultLabelNamesResult | web/src/utils/status.ts:40-51 | a result not reported yet is shown as "Pending" |
| I18n.Split | web/src/i18n/index.ts:22 | at least one segment, none containing a dot |
| I18n.JoinSplit | web/src/i18n/index.ts:22 | joining the segments with dots gives the key back |
| I18n.SplitJoin | web/src/i18n/index.ts:22 | splitting dot-free segments joined by dots gives them back |
| I18n.Translate | web/src/i18n/index.ts:16-40 | a missing path or a non-string value gives the key itself |
| I18n.TranslateTopLevel | web/src/i18n/index.ts:22-35 | a dot-free key gives its string entry |
| I18n.TranslateNested | web/src/i18n/index.ts:22-35 | "a.b" walks into object a and gives its string entry b |
| I18n.WalkChain | web/src/i18n/index.ts:22-27 | the walk follows a chain of objects, one entry per segment, to its last node, at any depth |
| I18n.TranslateAtDepth | web/src/i18n/index.ts:22-35 | a string reached by dot-free segments at any depth is what their dotted key translates to |
| I18n.Expand | web/src/i18n/index.ts:38 | a replacement without "$" is inserted as is |
| I18n.ReplaceAllAbsent | web/src/i18n/index.ts:37-39 | text without the placeholder is unchanged |
| I18n.SubstituteAbsent | web/src/i18n/index.ts:36-39 | parameters none of whose placeholders occur in the text leave it unchanged |
| I18n.TranslateKeepsUnmatched | web/src/i18n/index.ts:16-40 | a placeholder no parameter matches stays intact: a found string in which no parameter's placeholder occurs renders as itself |
| I18n.ReplaceAllJoin | web/src/i18n/index.ts:37-39 | every occurrence of the placeholder is replaced by an argument without "$" |
| I18n.TranslateFillsPlaceholder | web/src/i18n/index.ts:16-40 | a template with one parameter is rendered with an argument without "$" in every placeholder |
| I18n.RenderWholePlaceholder | web/src/i18n/index.ts:37-39 | a template that is just the placeholder renders as the replacement-pattern expansion of the argument |
| I18n.TranslateExpandsDollarPatterns | web/src/i18n/index.ts:37-39 | arguments are replacement patterns: "$&" renders the placeholder, "$$5" renders "$5", "$1" stays "$1" |
| I18n.BrowserLocale | web/src/i18n/index.ts:9-14 | Chinese exactly when a browser language, lower-cased, starts with "zh"; else English |
| I18n.BrowserLocaleExamples | web/src/i18n/index.ts:9-14 | "zh-CN" and "ZH-tw" are Chinese; "en-US", "z" and no browser are English |
| Store.Db.constructor | SaveHomelessKitty/Data/AppDbContext.cs:60-83 | an empty database satisfies the unique indexes |

## Left out

- Time zones are fixed UTC offsets from a table given as a parameter. Daylight-saving transitions inside a day are not modelled.
- Floating point is not modelled. `confidence` is carried as an opaque value, and elapsed seconds are exact tick counts divided with truncation toward zero.
- FeedDecisionService.Verdict: `elapsed.TotalSeconds` is a double compared with CooldownSeconds; the model compares exact tick counts and so ignores the double's rounding. It does not model the 32-bit overflow of the truncating `(int)elapsed.TotalSeconds` cast or of `rule.CooldownSeconds - (int)elapsed.TotalSeconds` at SaveHomelessKitty/Services/FeedDecisionService.cs:54, because integers are unbounded here.
- Concurrency, async I/O, cancellation tokens and transactions are left out. Two requests never interleave, and each action's save is atomic.
- The two clock readings of one request are taken as one instant.
- Entity Framework change tracking, navigation properties and foreign keys are not modelled. A role Id that names no role would fail a real save after the user row is written; here it is stored.
- Rows are values in sequences. Aliasing of tracked entities and in-place mutation of a row object are not modelled.
- The JSON projections of GetDevices, GetDevice, GetCats, GetCat, GetLogs and GetRules are not modelled: rows are returned whole.
- LIKE wildcards: a `%` or `_` in a cat search keyword is taken literally.
- Case-insensitive comparison folds ASCII letters only: OrdinalIgnoreCase, SQLite LIKE and JavaScript `toLowerCase` beyond ASCII are not modelled.
- Password hashing (salted and random) is a parameter. JWT issuing, login and the auth middleware are left out, and so are the media upload controller, the permissions list endpoint, the role and user listing endpoints and Program.cs startup. They are I/O or configuration, not decision logic.
- CreateRole and CreateUser check the untrimmed name for a conflict but store the trimmed one. A padded duplicate therefore ends as `Failed` on the unique index, not as `Conflict`. It is modelled as written.
- Out-of-range enum integers sent by a client are not modelled on the server side: enums are datatypes there.
- The RolePermissions table is not declared in the AppDbContext shown. It is modelled as the table the controllers use, with no unique index.
- I18n: placeholder names are taken as plain text, not as regular expressions, and parameter values are already strings. Properties reached through the JavaScript prototype chain are not modelled; none of them yields a string.
- The web console's pages, components, services and React contexts are presentation and are not modelled.

## Findings

| source | as written | input that shows it | evidently intended | confidence | as-written member | corrected member |
|---|---|---|---|---|---|---|
| SaveHomelessKitty/Controllers/Terminal/TerminalFeedController.cs:46-61 | AllowFeed looks the device up by the code as sent but registers a new one under the trimmed code, so a padded code of a registered terminal inserts its code a second time and the DeviceCode unique index makes the save throw | a registered "RPI-001" and an allow request with code "RPI-001 " | look up by the trimmed code, so the same device is found and the request succeeds | not executed | TerminalFeedController.AsWrittenLookupDuplicatesCode | TerminalFeedController.AllowFeedIntendedKeepsKeys |
| SaveHomelessKitty/Controllers/Terminal/TerminalFeedController.cs:185-192 | Heartbeat has the same untrimmed lookup and trimmed registration, so the save throws in the same way | a registered "RPI-001" and a heartbeat with code "RPI-001 " | look up by the trimmed code, so the same device takes the heartbeat | not executed | TerminalFeedController.AsWrittenHeartbeatRejectsPaddedCode | TerminalFeedController.HeartbeatIntendedKeepsKeys |
