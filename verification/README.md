# Verification of SentryCode's core logic

Dafny models of the parts of SentryCode whose correctness spans several functions or whole runs, with
proofs of what they promise. Loops and objects of the source are methods and classes here, each proved
against a function; the theorems are about these functions.

- **Outbox** (`Outbox.dfy`, `OutboxStore.dfy`, `OutboxRetries.dfy`, `CanonicalJson.dfy`,
  `JsonText.dfy`): idempotent enqueue, the paged drain loop, when a refused message is published again, and the
  canonical JSON, character by character, that tells a replay from a collision.
- **Supply chain** (`DependencyGraph.dfy`, `Inventory.dfy`, `InventoryFields.dfy`, `Sbom.dfy`,
  `Vulnerabilities.dfy`): worklist reachability, the merge of a CycloneDX inventory, what its fields are read off the
  document alone, the writer that the reader undoes, the merge of matches.
- **Policy** (`PolicyResolve.dfy`, `PolicyEffect.dfy`, `PolicyEvaluate.dfy`, `PolicyRule.dfy`, `Engine.dfy`):
  documents folded under field locks and what each of them decides, the decision procedure and its rule on the fields
  of the waivers, and the floor that fails closed.
- **Dependencies** (`Components.dfy`, `Versions.dfy`, `VersionOrder.dfy`, `DependencyDiff.dfy`,
  `DependencyKinds.dfy`, `Bom.dfy`): deduplication, version comparison down to its overflow and on written numbers,
  the diff as a patch and what its kinds tell, Maven BOM imports.
- **Globs** (`Glob.dfy`): the compiler to regular expressions against a direct matcher.
- **Durable protocols** (`AuditChain.dfy`, `ComplianceScope.dfy`, `ComplianceStore.dfy`, `InputDigest.dfy`,
  `Snapshot.dfy`, `RunnerInput.dfy`, `RunnerChecks.dfy`, `SnapshotRoundTrip.dfy`, `LeaseSteps.dfy`,
  `LeaseProcess.dfy`): the
  hash-chained log, crash-safe publication, the runner's input, the heartbeat lease.

`Wrappers.dfy`, `Numbers.dfy`, `Text.dfy`, `Sorting.dfy`, `Listings.dfy` and `CoreTypes.dfy` are shared. What
lies outside (publishers, audit appends, files, clocks, hashes, signatures, base64, collation) comes in as
parameters, and failures of the outside as oracles. Check everything with `dafny verify dfyconfig.toml`.

## Where the code falls short of what one might expect

Each is stated as an exact condition and, where that does not show it by itself, with an input or a run that fails:

- a message whose payload holds `undefined` collides with its own stored record (`Outbox.ResendAcceptedIff`,
  `Outbox.UndefinedCollides`);
- a message whose audit append fails after a successful publish is counted as delivered and as failed, so the
  counts of a drain add up exactly when no publish of it was left unlogged (`Outbox.AddsUpIff`,
  `Outbox.CountedTwice`);
- version parts that overflow to Infinity compare as newer both ways, and a diff between such versions is not
  mirrored (`Versions.AntisymmetricIff`, `Versions.HugeVersionsClash`, `DependencyDiff.MirrorsIff`,
  `DependencyDiff.HugeMoveIsNotMirrored`);
- the input digest depends on the order of files whose paths collate alike (`InputDigest.IgnoresOrderIff`);
- names with backslashes can make a repository's own snapshot unacceptable to the runner
  (`SnapshotRoundTrip.MaterializesIff`, `SnapshotRoundTrip.BackslashClashes`);
- findings for two versions of one package are returned in the order of their matches
  (`Vulnerabilities.OrderForgetsMatchesIff`, `Vulnerabilities.TwoVersionsTie`);
- two identities that `complianceIdentity` accepts can share a store directory when a tenant or project holds a
  NUL, a lone surrogate or U+FFFD (`ComplianceStore.OwnStoreIff`, `ComplianceStore.NulJoinsScopes`,
  `ComplianceStore.LoneSurrogateJoinsScopes`);
- heartbeats within the stale limit are not enough to keep the lease: the time between reading a record and
  checking it counts as well (`LeaseSteps.AlwaysSafeIff`, `LeaseSteps.LateRun`);
- from an absent directory two processes can end up owning when a check is late, when a process reads between
  another one's mkdir and first heartbeat or after a removal, when a heartbeat is under way as its process removes
  the directory, or when a release is slow; there is no other way (`LeaseSteps.AlwaysOneIff`, with a run for each:
  `LateCheckMakesTwo`, `ReadInWindowMakesTwo`, `ReadAfterRemovalMakesTwo`, `HeartbeatUnderWayMakesTwo` and
  `LateReleaseMakesTwo`);
- rewriting the last event of an unsigned log, or cutting its end off, goes unnoticed
  (`AuditChain.RehashedIsReportedNext`, `AuditChain.RemovedIsReported`).

## Model

| member | source | states |
|---|---|---|
| CanonicalJson.ReadBack | src/consumers/delivery.ts:48-53 | canonical JSON is unambiguous: a reader of the grammar of sections 6 and 7 of RFC 8259 recovers the value, with properties in key order, from its text followed by anything that cannot continue a number, and leaves exactly that rest unread |
| CanonicalJson.NumberRoundTrip | src/consumers/delivery.ts:49 | every number text is read back with its sign, digits, fraction and exponent |
| CanonicalJson.BodyRoundTrip | src/consumers/delivery.ts:49-52 | every string, with its escapes, surrogate pairs and lone surrogates, is read back up to its closing quote |
| CanonicalJson.PrintsAlikeIffSame | src/consumers/delivery.ts:48-53 | two payloads print alike exactly when they are equal with every object taken as a map |
| CanonicalJson.KeyOrderIsIrrelevant | src/consumers/delivery.ts:51-52 | permuting an object's properties does not change its text |
| CanonicalJson.StoredPrintsAlike | src/consumers/delivery.ts:48-66 | what the store keeps of a payload prints like the payload exactly when the payload holds no undefined |
| JsonText.UnitIsWritten | src/consumers/delivery.ts:49-52 | a code unit on its own is written as itself, as a short escape (quote, backslash, \b, \t, \n, \f, \r) or, for other control characters and lone surrogates, as \u and four lower-case hexadecimal digits (section 25.5.2.3 of ECMA-262) |
| JsonText.PartsAreWritten | src/consumers/delivery.ts:49-52 | texts are written one after the other, unless a surrogate pair is cut in two; JsonText.PairIsWritten says that a pair is written as it is |
| JsonText.ObjectsAreWritten | src/consumers/delivery.ts:51-52 | an object is written as its members in braces in the order of their keys, whichever order they were given in |
| JsonText.MembersAreWritten | src/consumers/delivery.ts:52 | a member is its quoted key, a colon and its value, and further ones follow after a comma |
| JsonText.ItemsAreJoined | src/consumers/delivery.ts:50 | two lists of array items are written with a comma between them |
| OutboxStore.DeliveryStore.EnqueueConsumerDelivery | src/application/postgres.ts:70-76 | inserts a pending row unless the key is taken, and returns the row that is there and whether it is new |
| OutboxStore.DeliveryStore.ListPendingConsumerDeliveries | src/application/postgres.ts:77 | returns the page of eligible rows, whatever order the scan meets them in |
| OutboxStore.DeliveryStore.RecordConsumerDeliveryAttempt | src/application/postgres.ts:78 | updates the row unless it is missing or delivered, and returns the updated row or nothing |
| OutboxStore.ListingIsCanonical | src/application/postgres.ts:77 | ORDER BY created_at, message_id leaves no ties within a listing, so the result does not depend on the scan |
| Outbox.PageContents | src/application/postgres.ts:77 | a page holds distinct, eligible, undelivered rows in order, and all of them when fewer than the limit are eligible |
| Outbox.PageTakesEarliest | src/application/postgres.ts:77 | no eligible row that is left for later is older than a listed one |
| OutboxStore.EnqueueConsumerDeliveries | src/consumers/delivery.ts:68-77 | the loop enqueues message by message; the first error leaves the earlier messages enqueued |
| Outbox.ReplayAcceptedIff | src/consumers/delivery.ts:55-66 | a reused key is accepted exactly when all identity fields agree and the payload is the stored one up to property order, is otherwise a collision, and never changes the table |
| Outbox.ResendAcceptedIff | src/consumers/delivery.ts:55-77 | sending the very same message again is accepted exactly when its payload holds no undefined |
| Outbox.UndefinedCollides | src/consumers/delivery.ts:55-77 | the input that fails: a valid message with an undefined property is enqueued, and sending it again is a collision |
| Outbox.ResendAfterRunAcceptedIff | src/consumers/delivery.ts:55-77 | the same after any run of enqueues and drains in between |
| OutboxStore.DeliverRecord | src/consumers/delivery.ts:115-137 | one record: publish, record the attempt, append to the audit log, with the catch block; the resulting table, publish log and counts |
| OutboxStore.DeliverPendingConsumerDeliveries | src/consumers/delivery.ts:79-146 | the drain loop terminates for every batch size of at least 1 and any retry delay, and leaves the state and counts of the drain function, or throws for a blank consumer, a bad batch size or an escaped audit failure |
| Outbox.FullPageShrinks | src/consumers/delivery.ts:102-143 | a page without failures takes exactly its rows out of the eligible ones: the loop's measure |
| Outbox.DrainEffect | src/consumers/delivery.ts:102-143 | one call publishes only rows that were eligible when it started, each at most once, adds one attempt to each of them and changes no other row |
| Outbox.DrainStaysInScope | src/consumers/delivery.ts:103-110 | rows of other consumers, tenants and projects are neither changed nor published |
| Outbox.HealthyDrainEmptiesQueue | src/consumers/delivery.ts:139-142 | when every publish and audit append succeeds, nothing eligible is left and the counts are the number of eligible rows |
| Outbox.AuditedDrainAddsUp | src/consumers/delivery.ts:97-145 | with a working audit log attempted = delivered + failed |
| Outbox.DrainAddsUp | src/consumers/delivery.ts:97-145 | for every call that returns, delivered + failed is attempted plus the number of publishes of the call that were accepted while their first audit append failed; one append follows each publish and one more each unlogged one |
| Outbox.AddsUpIff | src/consumers/delivery.ts:97-145 | for every call that returns, attempted = delivered + failed exactly when no accepted publish of the call had its first audit append fail |
| Outbox.CountedTwice | src/consumers/delivery.ts:116-136 | the input that fails: draining one pending row, accepted by the publisher, whose first append fails returns 1 attempted, 1 delivered and 1 failed |
| Outbox.DrainCounts | src/consumers/delivery.ts:97-145 | under any failures attempted is the number of publishes, delivered the number of rows that became delivered, and attempted <= delivered + failed |
| Outbox.StepSafe | src/consumers/delivery.ts:68-146 | every enqueue and every drain keeps the invariant of RunSafe |
| Outbox.RunSafe | src/consumers/delivery.ts:68-146 | over every run: delivered is final, a delivered message is never published again, payloads and identities never change, attempt_count is the number of publishes and stays within the limit |
| Outbox.ValidIff | src/consumers/delivery.ts:31-46 | a message is valid exactly when none of the eight fields is blank and the payload is an object; otherwise the error names the first blank field in order, or the payload |
| OutboxRetries.RetriesWait | src/consumers/delivery.ts:102-137 | over every run: between two publishes of one message with none in between, the first was refused, and the second comes in a drain whose time is at least that of the first plus its retry delay |
| OutboxRetries.RetryIsMet | src/consumers/delivery.ts:102-143 | a refused message with attempts left is published by the next drain in its scope at or after the retry time, unless that drain stops at a failure |
| OutboxRetries.OutcomeAt | src/consumers/delivery.ts:115-137 | after an operation that publishes a message its row is delivered with the status code and no error, or failed with the error and a retry time of the time of the drain plus the delay |
| OutboxRetries.StepPublishes | src/consumers/delivery.ts:68-143 | no other operation changes a row: only a drain in its scope that finds it due, and it publishes it |
| OutboxRetries.NewIsMet | src/consumers/delivery.ts:68-143 | a message that is new to the store is published by the next drain for it, unless that drain stops at a failure |
| OutboxRetries.DrainMeetsEligible | src/consumers/delivery.ts:102-143 | a drain without failures publishes everything that was eligible when it started |
| OutboxRetries.DrainInOrder | src/consumers/delivery.ts:102-143 | over all its pages a drain publishes in the order of creation times and message ids |
| Glob.GlobToRegExp | src/utils/glob.ts:5-27 | the index loop emits the text of the compile function |
| Glob.CompilerCorrect | src/utils/glob.ts:5-27 | for every glob and path the emitted text is a pattern of section 22.2 of ECMA-262 that accepts the path exactly when a direct matcher for **/, **, *, ? and literals does, which reads the glob itself and shares nothing with the compiler, with line terminators excluded where the pattern has a dot |
| Glob.DirectoriesAreOptional | src/utils/glob.ts:12-14 | a leading **/ adds the paths that the rest matches after some directory and keeps those it matches as they are |
| Glob.DefaultIncludes | src/utils/glob.ts:5-27 | the default include **/* matches exactly the paths without line terminators before their last slash |
| Glob.DefaultIncludesFiles | src/utils/glob.ts:5-32 | README.md, src/index.ts and the latter with a backslash are included by default |
| Glob.ParseToken | src/utils/glob.ts:1-25 | the text of each token is read back as the one node it stands for; a literal is escaped to match only itself |
| Glob.LiteralMatchesItself | src/utils/glob.ts:1-27 | a glob without wildcards matches its own text and nothing else |
| Glob.MatchesAnyCorrect | src/utils/glob.ts:29-32 | a path matches when some glob matches it after backslashes were read as slashes |
| DependencyGraph.BuildEdges | src/scanners/supply-chain/adapters.ts:68-75 | the loop builds the edge map; a later entry for a ref replaces an earlier one |
| DependencyGraph.Search | src/scanners/supply-chain/adapters.ts:78-85 | the worklist ends on every graph, cyclic or not, with exactly the refs that a path from the direct refs reaches |
| DependencyGraph.DependencyGraph | src/scanners/supply-chain/adapters.ts:65-87 | availability, direct refs and reachable refs as defined without the search |
| Inventory.InventoryFromCycloneDx | src/scanners/supply-chain/adapters.ts:101-167 | the loop computes the read function: components, unresolved entries, coverage, or the first error; the components are returned in the order of the stable sort by purl |
| Inventory.OrderListsAll | src/scanners/supply-chain/adapters.ts:158 | each component is returned once |
| Inventory.OrderForgetsEntriesIff | src/scanners/supply-chain/adapters.ts:109-158 | the purls come out in the same order for every order of the entries exactly when no two of them collate alike |
| Inventory.KeepsStrongest | src/scanners/supply-chain/adapters.ts:97-156 | per purl the kept relationship is the strongest over all its entries, and the purls are exactly those of complete, supported entries |
| InventoryFields.StrongestIs | src/scanners/supply-chain/adapters.ts:97-156 | the order of strength: a purl is direct when one of its entries is, else os when one is, else transitive when one is, else unknown |
| InventoryFields.RelationshipIs | src/scanners/supply-chain/adapters.ts:65-95 | an entry is os exactly when its ecosystem is apk, deb or rpm, otherwise direct exactly when the root depends on its ref, transitive exactly when only a longer path leads there, and else unknown |
| InventoryFields.EntryIff | src/scanners/supply-chain/adapters.ts:109-141 | which component, unresolved entry or error each entry of the document is, field by field: trimmed texts, missing ones, NULs in names, the shape of the purl |
| InventoryFields.EcosystemIff | src/scanners/supply-chain/adapters.ts:13-21 | a purl has an ecosystem exactly when the text between pkg: and the first slash is its type in any case |
| InventoryFields.PurlIff | src/scanners/supply-chain/adapters.ts:125 | the accepted purls are those of the form pkg:type/path@version with a type without slashes, a path without line terminators and a version that does not begin with a question mark |
| InventoryFields.LicenseIs | src/scanners/supply-chain/adapters.ts:32-44 | the license is the component's own text, or else the different values of its list joined, or none exactly when no entry gives a value |
| InventoryFields.ValuesIff | src/scanners/supply-chain/adapters.ts:35-42 | a license entry gives its expression and its id, or its name when it has no id |
| InventoryFields.JoinedWithAnd | src/scanners/supply-chain/adapters.ts:43 | joining two lists puts AND between them |
| InventoryFields.CoverageIs | src/scanners/supply-chain/adapters.ts:159-165 | each count is the number of components with that relationship, and the graph is available exactly when the root has an entry |
| Inventory.KeepsFirst | src/scanners/supply-chain/adapters.ts:142-156 | everything else comes from the first entry, completed with the first license and the first scope given; direct agrees with the relationship |
| Inventory.CollectFailsIff | src/scanners/supply-chain/adapters.ts:109-157 | reading fails exactly when some entry is malformed |
| Inventory.OrderIndependent | src/scanners/supply-chain/adapters.ts:109-166 | permuting the entries changes neither success, nor the purls and their relationships, nor the unresolved keys, nor the coverage |
| Inventory.CoverageAddsUp | src/scanners/supply-chain/adapters.ts:159-165 | the four coverage counts add up to the number of components |
| Inventory.ReconcileOnlyResolves | src/scanners/supply-chain/scanner.ts:82-104 | reconciliation changes only the relationship and direct flag of unknown components that have a native match, to direct when that match is direct and to transitive otherwise, and the counts still add up |
| InventoryFields.CounterpartIff | src/scanners/supply-chain/scanner.ts:85-90 | the native match is the last native component with the purl, or else the last one with the same ecosystem, version and name up to case |
| Sbom.ReachableIffNeeded | src/sbom/generate.ts:32-35 | in the written document a purl is reachable exactly when a chain of written dependencies leads to it from a direct component |
| Sbom.RefsAreItems | src/sbom/generate.ts:9-36 | every ref in the written dependencies is that of the root or of a written component |
| Sbom.WriteReadRoundTrip | src/sbom/generate.ts:7-37 | reading a written SBOM back yields exactly the written purls with name, version, ecosystem and license, leaves nothing unresolved, and marks as direct what was written direct and as transitive what is otherwise reachable |
| Vulnerabilities.FindingsFromGrype | src/scanners/supply-chain/adapters.ts:213-286 | the merge loop computes the severities and fixed versions of the collect function or the first error, and the findings are returned in the order of the stable sort by vulnerability id and purl |
| Vulnerabilities.OrderListsAll | src/scanners/supply-chain/adapters.ts:285 | each finding is returned once |
| Vulnerabilities.OrderForgetsMatchesIff | src/scanners/supply-chain/adapters.ts:217-285 | the findings come out in the same order for every order of the matches exactly when no two of them collate alike by vulnerability id and purl |
| Vulnerabilities.TwoVersionsTie | src/scanners/supply-chain/adapters.ts:260-285 | the input that fails: two versions of one package with one vulnerability, under every collation |
| Vulnerabilities.KeepsWorstAndAllFixes | src/scanners/supply-chain/adapters.ts:259-284 | per vulnerability, purl and version the kept severity is the maximum and the fixed versions are the sorted union |
| Vulnerabilities.KeepsTheWorst | src/scanners/supply-chain/adapters.ts:5-267 | the kept severity is critical when a match reports that, else high when one does, and so on down to info |
| Vulnerabilities.SeverityIff | src/scanners/supply-chain/adapters.ts:4-11 | a match reports the level that its text names, in any case and with white space around it, and info otherwise |
| Vulnerabilities.KeyIff | src/scanners/supply-chain/adapters.ts:219-259 | a match is filed under its trimmed id, purl and version exactly when these and the name are present, not blank and without NUL |
| Vulnerabilities.FirstMissingField | src/scanners/supply-chain/adapters.ts:219-225 | otherwise the error names the first of the four that is not |
| Vulnerabilities.CollectFailsIff | src/scanners/supply-chain/adapters.ts:219-225 | the merge fails exactly when some match lacks a required field |
| Vulnerabilities.OrderIndependent | src/scanners/supply-chain/adapters.ts:217-284 | permuting the matches changes neither success nor the severity and fixed versions of any finding |
| PolicyResolve.LoadPolicyDocuments | src/policy/documents.ts:127-156 | the loop returns the applicable documents in level order, or the first duplicate level and id |
| PolicyResolve.HigherLevelsFirst | src/policy/documents.ts:155 | loaded documents of a higher level stand before those of every lower level |
| PolicyResolve.ResolvePolicy | src/policy/resolve.ts:34-89 | the fold with its in-place updates computes the resolve function or the first lock error |
| PolicyResolve.ResolvesIff | src/policy/resolve.ts:49-73 | resolution succeeds exactly when every document leaves each field locked before it at the value right after the locking document |
| PolicyEffect.ResolvedSays | src/policy/resolve.ts:34-89 | what the documents decide: failOn, warnOn, required scanners and the mode of each scanner are those of the last document that gives them, or else the configuration's; the floor joins the required scanners, sorted; the sources are the documents in order and the locked fields those they lock, in order of first locking |
| PolicyEffect.OneDocumentDecides | src/policy/resolve.ts:49-73 | with a single document its failOn, warnOn, required scanners and modes take effect |
| PolicyEffect.ResolvesIffLocksHold | src/policy/resolve.ts:49-73 | resolution succeeds exactly when every locked field has after each later document the value that the configuration and the documents up to the locking one give it |
| PolicyEffect.RefusalNamesChange | src/policy/resolve.ts:18-47 | otherwise the error names the first document that changes a locked field, and such a field |
| PolicyEffect.LockSafety | src/policy/resolve.ts:18-78 | in the final policy a locked field has the value that the configuration and the documents up to the locking one give it; required scanners as a set, joined with the floor |
| PolicyEffect.LowerLevelsBound | src/policy/documents.ts:155 | with the loader's order, a document of a lower level than a locking one leaves the field as it is right after the lock, or resolution throws |
| PolicyEffect.LoadsInForce | src/policy/documents.ts:127-156 | loading gives the documents whose scope and dates apply, each as often as it was found, ordered by level and then by path; it fails exactly when two files share level and id, and names the first that repeats one |
| PolicyResolve.FloorIsRequired | src/policy/resolve.ts:75-78 | every scanner of the floor is required in the result |
| PolicyEvaluate.FindApplicableWaiver | src/policy/waivers.ts:78-109 | the first waiver that matches and is valid, with the rejection and application records pushed on the way |
| PolicyEvaluate.EvaluatePolicy | src/policy/evaluate.ts:16-103 | the loops over a shared audit list compute the evaluate function |
| PolicyEvaluate.DecidesByRule | src/policy/evaluate.ts:41-92 | FAIL exactly when a required scanner is missing, a failed scanner's effective mode is fail or an unwaived finding is in failOn; otherwise WARN exactly when a failed scanner's mode is warn or an unwaived finding is in warnOn; otherwise PASS |
| PolicyRule.WaivedIff | src/policy/waivers.ts:54-109 | every finding is reported in its place, and is waived exactly when some waiver is good (unexpired, approved and ticketed where required, dated readably and short enough) and agrees with it in every selector that it gives; then by the first such waiver |
| PolicyRule.GoodWaiverWaives | src/policy/waivers.ts:54-109 | a good waiver that agrees with a finding waives it |
| PolicyRule.NoGoodWaiver | src/policy/waivers.ts:64-109 | without a good waiver the decision and the findings are those of the scan without waivers, and no application is recorded |
| PolicyRule.ExpiredWaiveNothing | src/policy/waivers.ts:65-66 | so expired waivers waive nothing |
| PolicyRule.UnapprovedWaiveNothing | src/policy/waivers.ts:67 | nor do waivers without approver or approval date where approval is required |
| PolicyRule.UnticketedWaiveNothing | src/policy/waivers.ts:68 | nor waivers without a ticket where tickets are required |
| PolicyRule.LongWaiveNothing | src/policy/waivers.ts:69-74 | nor waivers whose creation date cannot be read or is further from the expiry than allowed |
| PolicyRule.TimeTightens | src/policy/waivers.ts:65-66 | as time goes on nothing becomes waived and the decision does not become laxer |
| PolicyRule.RejectionsAreRecorded | src/policy/waivers.ts:86-98 | the rejections on record name the first check that an agreeing waiver fails, and every such waiver before the applied one is on record |
| PolicyRule.DecidesByFields | src/policy/evaluate.ts:41-92 | the decision on the fields of results, findings and waivers alone: FAIL exactly when a required scanner lacks a result that is not skipped, a failed scanner fails closed or an unwaived finding has a blocking severity; otherwise WARN exactly when one warns; otherwise PASS |
| PolicyRule.ReasonsExplain | src/policy/evaluate.ts:41-92 | the reasons say that nothing is violated exactly when the decision is PASS, and otherwise count the blocking or warning findings and name the lacking and the failed scanners |
| PolicyRule.CountsAreNumbers | src/policy/evaluate.ts:77-98 | the counts are the numbers of unwaived findings of each severity, and of waived ones |
| PolicyEvaluate.DecisionMonotone | src/policy/evaluate.ts:41-92 | dropping waivers, adding findings, and adding severities to failOn or warnOn never makes the decision laxer |
| PolicyEvaluate.AuditMatchesWaived | src/policy/waivers.ts:99-105 | the waiver.applied records are those of the waived findings, one for one and in order |
| PolicyEvaluate.CountsAddUp | src/policy/evaluate.ts:77-98 | the severity counts and the waived count add up to the number of findings |
| Engine.ConsumersAreInFloor | src/consumers/registry.ts:44-79 | every scanner that an enabled consumer with a known adapter requires is in the floor |
| Engine.ManagedProfilesAreInFloor | src/core/engine.ts:128-131 | every scanner with a managed profile is in the floor when the runner is enabled |
| Engine.FloorIff | src/core/engine.ts:128-131 | the floor is exactly what enabled consumers with the adapter cra or cyber require and what has a named profile while the runner is enabled, sorted and without repetitions |
| Engine.ConfiguredIff | src/consumers/registry.ts:44-79 | the consumers are the given ones in order, and the legacy CRA consumer when reporting is enabled and none is called cra |
| Engine.DecideScan | src/core/engine.ts:115-146 | the tail of a scan computes the built-in decision joined with the OPA answer, or the policy error |
| Engine.FinalIsMaximum | src/core/engine.ts:13-17 | the final decision is the maximum of the built-in and the OPA decision |
| Engine.FinalIff | src/core/engine.ts:13-17 | the scan fails exactly when one side says FAIL, and passes exactly when no side objects |
| Engine.FloorFailsClosed | src/core/engine.ts:116-146 | whatever the documents, waivers, findings and OPA say, a floor scanner without a non-skipped result makes the final decision FAIL |
| Components.Uniq | src/dependencies/discover.ts:45-53 | the sorted result holds one component per identity of the input, a direct one whenever there is one |
| Components.KeepsFirstDirect | src/dependencies/discover.ts:45-53 | of the components with one identity the first direct one is kept, or the first one when none is direct |
| Components.FirstSeenOrder | src/dependencies/discover.ts:45-53 | before sorting, the identities stand in the order of their first occurrence |
| Versions.CompareVersions | src/dependencies/versions.ts:5-13 | the loop computes the comparison of the first three parts, read as IEEE doubles |
| Versions.AntisymmetricIff | src/dependencies/versions.ts:5-13 | swapping the versions negates the result exactly when their first differing parts are not both Infinity; otherwise both ways give 1 |
| Versions.TotalPreorderOnFinite | src/dependencies/versions.ts:1-13 | on versions with finite parts the comparison is an antisymmetric total preorder |
| VersionOrder.CompareIffLarger | src/dependencies/versions.ts:5-13 | unless the versions clash, the comparison is 1 exactly when at the first of the three parts that differ the left one is the larger number, and -1 exactly when the right one is |
| VersionOrder.WrittenOrder | src/dependencies/versions.ts:1-13 | versions written as numbers below 2^53 with dots between them compare like these numbers, a missing one being zero |
| VersionOrder.PartsAre | src/dependencies/versions.ts:1-3 | the parts of any version: after a leading v the text is cut at every dot, plus and minus; each of the first three pieces counts as the number that its digits after white space make, and as zero without any |
| VersionOrder.RoundsToNearest | src/dependencies/versions.ts:1-3 | numbers of more than 53 bits are rounded to the nearest double, ties to the even one |
| Versions.ShortPartIsFinite | src/dependencies/versions.ts:1-3 | a part of up to 300 digits is finite |
| Versions.HugeVersionExceedsItself | src/dependencies/versions.ts:5-13 | a version of 342 or more nines compares as newer than itself |
| Versions.HugeVersionsClash | src/dependencies/versions.ts:5-13 | any two versions of 342 or more nines compare as newer than each other |
| DependencyDiff.Group | src/dependencies/diff.ts:12 | the grouping loop: the components of each key in order, and the keys in order of first appearance |
| DependencyDiff.PushGroupChanges | src/dependencies/diff.ts:15-20 | the three pushing loops, or the single upgrade, downgrade or change of a one-to-one group |
| DependencyDiff.DiffDependencies | src/dependencies/diff.ts:11-23 | the loops over the sorted keys compute the diff function |
| DependencyDiff.DiffListsExactly | src/dependencies/diff.ts:11-23 | on deduplicated snapshots the diff lists exactly the expected removals, additions, moves and changes of source or replacedFrom, each once |
| DependencyKinds.KindsTell | src/dependencies/diff.ts:15-22 | in every diff a change is an addition, a removal, or, for a move, an upgrade exactly when the new version is larger in the sense of VersionOrder.CompareIffLarger, a downgrade exactly when the old one is, and a plain change otherwise |
| DependencyKinds.WrittenMove | src/dependencies/diff.ts:15-22 | the single component of a key in either snapshot is listed as upgraded when the numbers written in its new version are larger, as downgraded when they are smaller |
| DependencyKinds.ChangesInOrder | src/dependencies/diff.ts:13-22 | changes are listed by ecosystem and name, and for each name removals first and changes of sources last |
| DependencyKinds.EcosystemsInOrder | src/dependencies/diff.ts:9-14 | the ecosystems come in alphabetical order |
| DependencyDiff.DiffIsPatch | src/dependencies/diff.ts:11-23 | removing every before identity and adding every after identity, with its source and replacedFrom, turns the old snapshot into the new one |
| DependencyDiff.EmptyIffSame | src/dependencies/diff.ts:11-23 | the diff is empty exactly when identities, sources and replacedFrom agree |
| DependencyDiff.MirrorsIff | src/dependencies/diff.ts:17-19 | the diff of the swapped snapshots is the multiset of mirrored changes exactly when no one-to-one group moves between versions that clash in the sense of Versions.AntisymmetricIff |
| DependencyDiff.HugeMoveIsNotMirrored | src/dependencies/diff.ts:17-19 | the input that fails: a component that moves between two different versions of 342 or more nines |
| Bom.ResolveBomManagement | src/dependencies/discover.ts:160-164 | the recursive loop ends on cyclic imports (measure: known coordinates not in seen) and computes the resolve function |
| Bom.OwnEntryWins | src/dependencies/discover.ts:163 | a BOM's own entry beats every import |
| Bom.LatestImportWins | src/dependencies/discover.ts:162 | otherwise the last import that has the name decides, and a name that none has is absent |
| Bom.ComesFromImport | src/dependencies/discover.ts:160-164 | every resolved version is given by some BOM at the end of an import path |
| Bom.KnowsWhatImportsReach | src/dependencies/discover.ts:160-164 | a name is resolved exactly when some BOM that the imports reach manages it, cyclic or not |
| Bom.AcyclicIsPlain | src/dependencies/discover.ts:160-164 | on acyclic imports the result is that of plain recursion without the seen guard |
| AuditChain.AuditLog.Append | src/enterprise/audit.ts:21-38 | appends an event that names the last hash, or GENESIS, and carries its own hash and an optional signature |
| AuditChain.AuditLog.Verify | src/enterprise/audit.ts:50-62 | the loop reports the first event that does not name its predecessor's hash, does not have its own hash, or is not signed when a key is given |
| AuditChain.AppendKeepsVerdict | src/enterprise/audit.ts:21-62 | appending changes no verdict: an intact log stays intact and a broken one stays broken at the same index |
| AuditChain.RunIsIntact | src/enterprise/audit.ts:21-62 | every log built by sequential appends verifies |
| AuditChain.RunRecordsEntries | src/enterprise/audit.ts:21-38 | a log built by appends holds the entries, one event each and in order, with type, time, actor, detail and an id made of them, each naming the hash before it |
| AuditChain.TipPinsLog | src/enterprise/audit.ts:50-62 | two verifying logs that end in the same hash are the same up to signatures |
| AuditChain.AlteredIsReported | src/enterprise/audit.ts:54-60 | replacing the content of event i under its old hash makes verification report i exactly when the content differs |
| AuditChain.RehashedIsReportedNext | src/enterprise/audit.ts:54-60 | with a recomputed hash event i + 1 is reported; a rewritten last event of an unsigned log is not noticed |
| AuditChain.RemovedIsReported | src/enterprise/audit.ts:54-60 | removing events is reported at the first of them, unless they are the last ones, which leaves an intact log |
| AuditChain.SignedLogIsPrefix | src/enterprise/audit.ts:50-62 | when only hashes of the honest events have valid signatures, every log that verifies with the key is a beginning of the honest log up to signatures, whatever was done to the file |
| AuditChain.SignedLogIff | src/enterprise/audit.ts:50-62 | under the same condition a log verifies exactly when it is such a beginning and each of its events is validly signed |
| AuditChain.IntactIsSigned | src/enterprise/audit.ts:57-58 | with a key every event of a log that verifies has a nonempty signature that is valid for its hash |
| ComplianceScope.MadeIffClean | src/compliance/scope.ts:5-14 | the identities that can be made are those whose tenant and project are trimmed, not empty and at most 200 UTF-16 units long |
| ComplianceStore.LocalComplianceStore.Publish | src/compliance/store.ts:29-44 | the refusal, or exactly the publication's operations in order on the disk |
| ComplianceStore.RefusedIff | src/compliance/store.ts:29-37 | a publication is refused exactly when it belongs to another tenant or project, its run id is not safe or its name is taken by a directory or a file; a refused one leaves every directory as it was |
| ComplianceStore.SafeRunIdIff | src/compliance/store.ts:7-10 | safe run ids are nonempty and made of letters, digits, dots, hyphens and underscores of ASCII |
| ComplianceStore.LocalComplianceStore.WriteIntegrityManifest | src/enterprise/evidence-integrity.ts:22-30 | one write of a manifest with the hash of every file but the manifest and its signature, in sorted order; fails with nothing written exactly when the directory is missing or holds a directory other than one named like the signature |
| ComplianceStore.LocalComplianceStore.VerifyIntegrityManifest | src/enterprise/evidence-integrity.ts:50-58 | the loop lists the items whose file is missing or has another hash |
| ComplianceStore.LocalComplianceStore.GetPublication | src/compliance/store.ts:46-66 | the read function: nothing, an error, or the four parts |
| ComplianceStore.NoManifest | src/compliance/store.ts:46-66 | without a manifest a read gives nothing, except that the id . fails when a run is called like the manifest |
| ComplianceStore.AtomicIsWrite | src/compliance/store.ts:16-21 | writing under the temporary name and renaming leaves the file and no temporary one |
| ComplianceStore.CrashSafe | src/compliance/store.ts:29-66 | after a crash at any operation, with any prefix of the write under way, a read gives nothing, an error or exactly the record |
| ComplianceStore.NothingBeforeManifest | src/compliance/store.ts:38-42 | until the manifest is written there is nothing to read |
| ComplianceStore.ChangedFileIsAnError | src/enterprise/evidence-integrity.ts:50-58 | against the publication's manifest a read is an error exactly when one of the four files was changed or removed, and otherwise gives the record |
| ComplianceStore.SignedRecordIsGenuine | src/compliance/store.ts:46-62 | when only manifests that list the publication's files have a valid signature, a read never gives anything but its record, whatever was done to the files, and gives it exactly when the manifest is signed and the four files are unchanged |
| ComplianceStore.CanonicalCheckSignsOnly | src/enterprise/evidence-integrity.ts:32-48 | the check of the source, which parses the manifest and verifies its canonical text, meets that condition when only the publication's canonical manifest was signed, and accepts every way of writing that manifest |
| ComplianceStore.RunsAreImmutable | src/compliance/store.ts:33-37 | no later publication, crashed or not, changes a run that is there |
| ComplianceStore.NoSecondPublication | src/compliance/store.ts:33-37 | once a publication has made its directory, every later one of the same run in the same scope fails, whatever happens in between |
| ComplianceStore.PublishedIsRead | src/compliance/store.ts:29-66 | a completed publication is read back as it was after any later publications |
| ComplianceStore.ScopesAreSeparate | src/compliance/scope.ts:16-22 | for tenants without a NUL, directories agree exactly when the run ids agree and tenants and projects have the same UTF-8 encoding |
| ComplianceStore.OwnStoreIff | src/compliance/scope.ts:5-22 | an identity that can be made shares its run directories with no other such identity exactly when no NUL of the joined text, other than the separating one, splits it into two clean parts and its UTF-8 encoding holds no U+FFFD |
| ComplianceStore.NulJoinsScopes | src/compliance/scope.ts:5-22 | the input that fails: ("a\0b", "c") and ("a", "b\0c") can both be made and have the same directories |
| ComplianceStore.LoneSurrogateJoinsScopes | src/compliance/scope.ts:5-22 | the input that fails without a NUL: (U+D800, "c") and (U+FFFD, "c") can both be made and have the same directories |
| ComplianceScope.LeadingNulIsHarmless | src/compliance/scope.ts:5-22 | a NUL alone does not fail: ("\0b", "c") can be made and has a store of its own |
| ComplianceStore.DotsAreTakenByRuns | src/compliance/store.ts:29-37 | the run ids . and .. are published in a fresh store, but refused as existing once the scope holds a proper run |
| InputDigest.PreimageInjective | src/execution/snapshot.ts:29-33 | the digest's text tells any two lists of NUL-free descriptors apart |
| InputDigest.DigestIff | src/execution/snapshot.ts:28-34 | when no two paths collate alike, digests agree exactly for permutations of the same descriptors |
| InputDigest.IgnoresOrderIff | src/execution/snapshot.ts:28-34 | the digest is the same for every order of the descriptors exactly when no two paths collate alike |
| Snapshot.SnapshotRepository | src/execution/snapshot.ts:36-67 | the loop computes the captured payload or the first error |
| RunnerChecks.SuspiciousIff | src/execution/snapshot.ts:20-26 | the checks that snapshot and runner share let through exactly the nonempty relative paths without NUL in which .. is the last segment at most |
| RunnerChecks.CapturedIff | src/execution/snapshot.ts:36-67 | a snapshot is taken exactly when there are not too many files, every one is regular, plainly named, small enough and unchanged while read, and they are not too large together; the error is that of the first file that cannot be taken |
| RunnerInput.UpOnlyLast | src/execution/runner-server.ts:49-53 | in a path that is not refused, .. can only be the last segment |
| RunnerInput.RunnerRoot.MakeParents | src/execution/runner-server.ts:76 | the directories above a path are made unless one of them is a file |
| RunnerInput.RunnerRoot.MaterializeInput | src/execution/runner-server.ts:64-82 | the loop leaves the tree and the error of the materialize function |
| RunnerChecks.AcceptedIff | src/execution/runner-server.ts:64-82 | the runner accepts an input exactly when it is within the limits, every file has a plain path, its declared size and its declared hash, the paths lead below the root to places of which none is or lies below another, and total size and digest are those declared; then the tree holds the files and nothing else |
| RunnerChecks.RefusalIs | src/execution/runner-server.ts:64-82 | an input that declares too much is refused before anything is written; otherwise the error is that of the first file that is not taken in, or, when all are, a digest error for a total or a digest that does not agree |
| RunnerChecks.PlaceIsSteps | src/execution/runner-server.ts:49-53 | a path leads down its steps from the root, and .. in last place takes the last of them back |
| SnapshotRoundTrip.MaterializesIff | src/execution/runner-server.ts:64-82 | a payload made by a snapshot, within the runner's limits, is accepted exactly when its paths lead below the root to places of which none is or lies below another; the only other outcome is a taken path |
| SnapshotRoundTrip.RecreatesRepository | src/execution/runner-server.ts:64-82 | every repository whose names have no backslash comes out with the same paths and contents |
| SnapshotRoundTrip.CleanIsSafe | src/execution/snapshot.ts:20-26 | a path of such a repository is never refused as unsafe, by the snapshot or by the runner |
| SnapshotRoundTrip.TwoNamesOnePlace | src/execution/snapshot.ts:21 | two files whose names agree once backslashes are slashes make the runner refuse the whole input |
| SnapshotRoundTrip.BackslashClashes | src/execution/snapshot.ts:21 | the input that fails: two empty files named a\b and a/b are captured and refused |
| LeaseSteps.OwnerKeepsLease | src/execution/runner-lease.ts:38-64 | in every interleaving whose record age and read-to-check time add up to less than the stale limit, a beating owner owns in every state and no step of another process touches the directory |
| LeaseSteps.OnlyMkdirMakes | src/execution/runner-lease.ts:21-56 | nothing but mkdir makes the directory: a heartbeat that finds none is lost and a first heartbeat that finds none refuses its process; whoever begins to own has just written its record |
| LeaseSteps.LateRun | src/execution/runner-lease.ts:49-52 | when they add up to the limit or more, a run in which the owner beats in time all along ends with its directory renamed away |
| LeaseSteps.AlwaysSafeIff | src/execution/runner-lease.ts:38-64 | the owner is safe in every such run exactly when record age + read-to-check time < staleAfterMs |
| LeaseSteps.AtMostOneOwner | src/execution/runner-lease.ts:38-64 | from an absent directory, with record age and read-to-check time below the stale limit, at most one process owns in every state of every run in which nobody reads between a mkdir and its first heartbeat, and in which either no owner releases or nobody reads after a removal, no heartbeat of the remover is under way at a removal, and the record is fresh until then |
| LeaseSteps.AlwaysOneIff | src/execution/runner-lease.ts:38-64 | for every choice of these rules and times: two owners never occur exactly when the times add up to less than the limit and the rules are as in AtMostOneOwner |
| LeaseSteps.LateCheckMakesTwo | src/execution/runner-lease.ts:49-52 | the run that fails when the times add up to the limit or more, with every rule kept |
| LeaseSteps.ReadInWindowMakesTwo | src/execution/runner-lease.ts:40-53 | the run that fails by one read between mkdir and first heartbeat |
| LeaseSteps.ReadAfterRemovalMakesTwo | src/execution/runner-lease.ts:49-52 | the run that fails by one read after a removal: the successor's directory is taken for abandoned |
| LeaseSteps.HeartbeatUnderWayMakesTwo | src/execution/runner-lease.ts:22-27 | the run that fails by a heartbeat under way at a removal: it lands in the successor's directory, which its process then removes as its own |
| LeaseSteps.LateReleaseMakesTwo | src/execution/runner-lease.ts:58-63 | the run that fails by a slow release: it removes the directory of a process that found the record stale |
| LeaseProcess.RunnerLease.AcquireLease | src/execution/runner-lease.ts:38-56 | the retry loop, with any steps of others in between, is a run of the shared steps that ends owning or refused, and refused whenever another process beats and keeps the lease |
| LeaseProcess.RunnerLease.ReleaseLease | src/execution/runner-lease.ts:58-63 | the release, with any steps of others in between, is a run of the shared steps that ends idle with the timer off, and that removes the directory exactly when the record read was its own |
| LeaseProcess.AcquireAgainstOwnerFails | src/execution/runner-lease.ts:38-56 | no run with a beating owner ends with another process owning |

## Left out

- Outbox.RunSafe: drains run one after the other with the same attempt limit; concurrent drains, and store calls that fail, are not modelled.
- Outbox.ReplayAcceptedIff: assumes rows whose payload the store could keep; jsonb's refusal of \u0000 and its own property order (any order gives the same result) are not modelled. Payload values outside JSON (functions, dates, bigints) are not modelled.
- CanonicalJson.ReadBack: a number is its decimal text; which text ECMAScript prints for a double is not modelled.
- Table columns that no decision reads (updated_at, delivered_at) and the texts of error messages and reasons are left out.
- Components.Uniq: string-joined map keys are tuples, so names that contain the separator do not collide as they can in the source; the same holds for DependencyDiff, Inventory and Vulnerabilities.
- Components.Uniq: lower-casing is ASCII only, also in DependencyDiff and Inventory.
- Vulnerabilities.FindingsFromGrype: only severity and fixed versions; titles, remediation texts, aliases, locations and other metadata are left out.
- Sbom.WriteReadRoundTrip: hashes, properties, timestamps and the serial number, which the reader ignores, are left out, and so is the SPDX writer.
- PolicyResolve.ResolvePolicy: without the policy fingerprint; parsing of policy documents and waiver files is left out.
- PolicyEvaluate.EvaluatePolicy: dates are milliseconds; the day count of a waiver is compared exactly instead of through a floating division.
- Engine.FloorFailsClosed: running the scanners and calling OPA are inputs; the failure of the OPA call itself is left out.
- Collation (localeCompare) is a parameter; where a result needs it to be a total preorder or free of ties, the contract says so.
- Strings outside CanonicalJson, ComplianceScope and Glob are sequences of characters, so lone surrogates do not occur in them and their sort order is by code point where the source's is by UTF-16 unit.
- Plain objects used as maps (profiles, failure modes, payloads) are maps; inherited names such as constructor or __proto__ are not modelled.
- Versions.CompareVersions: satisfiesSimpleRange, which builds on it, is left out.
- Bom.ResolveBomManagement: starts from parsed BOMs; scraping the XML is left out.
- AuditChain.AuditLog.Append: the file is its list of events; reading and writing its lines, and appends that overlap, are left out. sha256 is an arbitrary function, injective and never GENESIS where a contract says so; signing is a given function.
- ComplianceStore.LocalComplianceStore.GetPublication: the four files are read in a fixed order. JSON texts are a given codec whose reading undoes its writing. What a manifest path that is not a plain name leads to is a parameter. listRuns is left out.
- ComplianceStore.CrashSafe: a rename is atomic and a write under way leaves a prefix; reordering of writes by the disk is not modelled. writeFile's wx flag cannot fail in a fresh directory and is not modelled.
- RunnerInput.RunnerRoot.MaterializeInput: POSIX paths; name lengths, case-insensitive file systems and the final chmod are left out. base64 and sha256 are given functions.
- Snapshot.SnapshotRepository: the discovered files and their stat results are inputs.
- LeaseSteps.OwnerKeepsLease: processes share one clock; removing or renaming the directory is one step; overlapping heartbeats of one process through the same temporary file may land in any order but not torn; a crash of the owner is its taking no more steps.
- LeaseProcess.RunnerLease.AcquireLease: the timing check of the constructor is left out; the decisions of acquire are read off the shared steps.
- HTTP servers and clients, Docker and git processes, the other SQL methods, the web UI, the command line, the regular-expression scanners and text parsers, entropy, cryptography, configuration loading and the Go tools are left out.
