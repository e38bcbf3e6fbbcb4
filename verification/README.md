# Network Orchestrator: a verified model

A Dafny model of the parts of Network Orchestrator that carry real invariants, with proofs that
hold for every input, every run or every interleaving. `dafny verify dfyconfig.toml` checks it.

- **Sandbox backend** (`SandboxTypes`, `ImportIds`, `ServiceChecks`, `NodePool`, `SandboxBackend`). The class
  `SandboxBackend.Sandbox` has the source's mutable fields; each command is tied to a step of the
  state machine in `ServiceChecks`, and the theorems speak of whole runs of that machine under a
  clock that never goes back. Three history components (clock, samples taken, outcomes per round
  since the last reset) are recorded beside the fields; no command reads them.
- **Prefix containment** (`Bits`, `Cidr`, `ContainmentTree`, `Ipv4`). Two forms of prefix test, a
  BigInt mask and JavaScript's signed 32-bit operators, are both proved equal to integer division;
  the tree built by "nearest earlier container" is proved to be the containment order, and exactly
  for which lists it is.
- **Intent doctor** (`IntentDoctor`). Longest-prefix match, the analysis, the panel's apply and save
  actions against the intent store, and convergence of repeated fixing.
- **Route checker and rule texts** (`RouteChecker`, `RuleText`). First match with selectors that
  cannot be evaluated, and the form's text round trip, which preserves the checker's verdicts.
- **Shutdown and route ownership** (`Shutdown`, `RouteOwnership`). Handlers and cleanup tasks
  interleaved at single atomic operations; the host's route table, memory and disk under arbitrary
  failures of single calls.
- **Smaller algorithms** (`RouteFlow`, `DnsMessage`, `Localization`, `MeasurePool`, `GroupOrder`).

A function with the plain name (`Lpm`, `Analysis`, `Build`, ...) specifies; the method beside it has
the source's loop and is proved to compute that function; the lemmas say what the function means.

## Where the code does something other than expected

- `parseCidr` tests `!expanded`, so an IPv6 address of value zero is refused: `::/0` contains nothing
  and is contained in nothing (`Cidr.DefaultV6ContainsNothing`; `Cidr.ContainsExactly` has the exact
  condition for all texts).
- `parentPrefixIndex` sees earlier entries only: `Cidr.RouteTreeExact` gives the exact condition on a
  list, `Cidr.UnsortedListLosesParent` a family that fails.
- Saving an all-traffic rule under the id of an enabled direct intent can leave endpoints uncovered,
  because the companions are computed from the list shown before the save
  (`IntentDoctor.SavedRuleSwallowsNothing` has the exact condition,
  `IntentDoctor.ReplacedBypassUncovers` a failing family).
- The rule form reorders rules: the sequence of effective rules survives exactly when it already
  stands in block, proxy, direct order (`RuleText.RoundTripKeepsRulesExactly`), and a host's verdict
  exactly when no matching rule has precedence over the first one (`RuleText.VerdictSurvivesExactly`;
  `RuleText.ReorderingChangesVerdict` shows a failing family).
- A slashed selector whose length is zero but not spelled "0" (`10.0.0.0/`, `10.0.0.0/00`) tests for
  the base address alone, because the shift count wraps; a length above 32 is taken modulo 32
  (`RouteChecker.SelectorAgreesExactly` has the exact condition).
- The elevated restart stores `cleanup_complete` without touching `shutting_down`, so a cleanup can
  start after the flag says that cleanup is complete (`Shutdown.RestartRacesExactly` has the exact
  condition at the restart, `Shutdown.RestartRacesWithHandler` a run).
- An installed route can end up owned by nobody in two ways (`RouteOwnership.TrackedExactly` has the
  exact condition for each command, `RouteOwnership.OrphanOnlyAfterCause` for runs).
  `PolicyManager::apply_profile` drops the list of routes whose undoing failed
  (`RouteOwnership.ForgottenRouteReachable`); and a rollback that is refused a route leaves it owned in
  memory but missing from the document (`RouteOwnership.BackedExactly`,
  `RouteOwnership.MissingOnlyAfterStuck`), so that a restart loses it (`RouteOwnership.StuckRouteLost`).
- `cleanup_all` can answer Ok and leave a stale document when memory owns nothing
  (`RouteOwnership.RouteRuntime.CleanupAll` has the exact condition,
  `RouteOwnership.StaleDocumentReachable` a run that gets there).
- `applyGroupOrder` given the order of a part of a group can lose profiles (`GroupOrder.ConservesExactly`
  has the exact condition, `GroupOrder.PartialOrderLoses` the failing family). Such an order is an
  input of the function alone: its callers switch moves and drags off while a search filters the
  group (src/components/ProfileManager.tsx:1409, 1431 and 1736).
- Import ids are built from the list length and can repeat after a delete (`ImportIds.NextImportIsNew`
  has the exact condition over the history, `ImportIds.ImportIdsRepeat` a failing family); runs admit
  an import whose id is free.

## Model

| member | source | states |
|---|---|---|
| `ServiceChecks.ValidateServiceSpecs` | src/sandbox/backend.ts:63-113 | accepts exactly: at most 16 checks, only on a subscribed Xray profile, distinct ids, every field well formed |
| `ServiceChecks.SpecsExactly` | src/sandbox/backend.ts:63-113 | the demands on stored checks, one by one, with the accepted address texts |
| `ServiceChecks.ResetExactly` | src/sandbox/backend.ts:127-141 | a reset forgets results and counts and sets a due time 60,000 ms ahead exactly for a running, subscribed, TUN-mode Xray profile with a background check; no other profile is touched |
| `ServiceChecks.PollSamplesExactly` | src/sandbox/backend.ts:209-240 | a poll samples a profile exactly when its due time has come, and the next due time is 60,000 ms later |
| `ServiceChecks.AvailableExactly` | src/sandbox/backend.ts:47-52 | when a check can be sampled |
| `ServiceChecks.CycleExactly` | src/sandbox/backend.ts:174-184 | the simulated outcomes and statuses |
| `ServiceChecks.FiltersKeepOrder` | src/sandbox/backend.ts:223-225 | background and selected checks keep list order |
| `ServiceChecks.RoundReports` | src/sandbox/backend.ts:149-207 | in a round over distinct checks each result depends on the count before the round alone: its place in the outcome cycle, streak, degradation, and a status and latency exactly for HTTP; an available check's count grows by one |
| `ServiceChecks.RoundKeepsHealth` | src/sandbox/backend.ts:209-240 | a background round keeps a profile's slot healthy: shown results are those of the rounds since the reset |
| `ServiceChecks.DueIsEligible` | src/sandbox/backend.ts:209-222 | the tick's ineligible branch is unreachable: a due profile is running, subscribed, Xray and in TUN mode |
| `ServiceChecks.StepKeeps` | src/sandbox/backend.ts:662-708 | every command, succeeding or refused, keeps the invariant of due times, results, counts and sample spacing |
| `ServiceChecks.RunKeeps` | src/sandbox/backend.ts:127-277 | the invariant holds in every state of every run |
| `ServiceChecks.DueOnlyWhenServing` | src/sandbox/backend.ts:127-147 | in every reachable state a due time belongs to a running, subscribed, TUN-mode Xray profile with a background check, and results stand only beside a due time |
| `ServiceChecks.SamplesApart` | src/sandbox/backend.ts:209-240 | two background samples of one profile are at least 60,000 ms apart across any resets |
| `ServiceChecks.FailureCountsExact` | src/sandbox/backend.ts:189-206 | each shown failure count is the trailing run of non-HTTP failures since the last reset, degraded means at least 3, and a status is shown exactly for HTTP |
| `ServiceChecks.BackgroundSequenceFixed` | src/sandbox/backend.ts:161-187 | whatever manual runs are interleaved, round r after a reset reports entry r of the outcome cycle for an available check |
| `ServiceChecks.ManualRunIsCurrent` | src/sandbox/backend.ts:262-276 | a manual run that completes sampled checks and bindings the profile still has after the suspension |
| `ServiceChecks.ManualRunIsSilent` | src/sandbox/backend.ts:242-277 | a manual run changes no due time, result, round or background count |
| `ServiceChecks.ManualNeverDegrades` | src/sandbox/backend.ts:273-276 | manual results continue no streak and never show degradation |
| `SandboxBackend.Sandbox.ResetServiceWorker` | src/sandbox/backend.ts:127-141 | clears the worker and arms it one interval ahead only for an eligible running profile |
| `SandboxBackend.Sandbox.ClearServiceState` | src/sandbox/backend.ts:143-147 | removes due time, results and attempts of one profile, nothing else |
| `SandboxBackend.Sandbox.SampleService` | src/sandbox/backend.ts:149-207 | returns the observation of the current attempt and counts it only when the check is available |
| `SandboxBackend.Sandbox.TickServiceChecks` | src/sandbox/backend.ts:209-240 | is the tick of the state machine: nothing before the due time, one round after it, no catch-up |
| `SandboxBackend.Sandbox.Statuses` | src/sandbox/backend.ts:521-565 | ticks the profiles in order and shows each as it stands right after its own tick |
| `SandboxBackend.Sandbox.ConnectProfile` | src/sandbox/backend.ts:662-671 | the connect step with its four refusals, answered with the profile's running status |
| `SandboxBackend.Sandbox.DisconnectProfile` | src/sandbox/backend.ts:672-677 | the disconnect step; the answered status is stopped, with no chain and no results |
| `SandboxBackend.Sandbox.SaveProfile` | src/sandbox/backend.ts:678-701 | the save step: pins, subscription, exits and checks of the stored profile are kept as `KeepsOwned` says field by field, a VLESS save gets the first free port pair, a refusal changes nothing |
| `SandboxBackend.Sandbox.DeleteProfile` | src/sandbox/backend.ts:702-708 | the delete step, refused while running |
| `SandboxBackend.Sandbox.SetPinnedRoutes` | src/sandbox/backend.ts:796-806 | the re-pin step: stores the pins as given, marked missing exactly when no listed endpoint has the key, and resets the worker |
| `SandboxBackend.Sandbox.SetXrayServiceChecks` | src/sandbox/backend.ts:807-818 | the set-checks step: valid checks on bound keys or kept ones, then a reset |
| `SandboxBackend.Sandbox.BeginServiceChecks` | src/sandbox/backend.ts:242-264 | selects the targets and takes the snapshot; refuses exactly an unknown profile or check id |
| `SandboxBackend.Sandbox.FinishServiceChecks` | src/sandbox/backend.ts:265-277 | refuses when the profile no longer matches the snapshot, else one fresh, never degraded result per target |
| `SandboxBackend.Sandbox.RebuildSubscriptionNodePool` | src/sandbox/backend.ts:840-841 | a rebuild changes one subscription record and no worker |
| `SandboxBackend.AllocateProxyPorts` | src/sandbox/backend.ts:513-519 | the first even port from 10808 on that is free together with its successor among the other profiles |
| `SandboxBackend.UsedPortsExactly` | src/sandbox/backend.ts:514-514 | the ports in use are those of the other profiles |
| `SandboxBackend.ChainShownExactly` | src/sandbox/backend.ts:531-563 | for which profiles a status shows a chain and check results |
| `SandboxBackend.FirstSubscriptionAt` | src/sandbox/backend.ts:961-961 | an imported subscription copies the first one in the list |
| `SandboxBackend.Sandbox.ImportProfile` | src/sandbox/backend.ts:952-967 | appends a profile with the defaults of its kind, an Xray one with the first free port pair, under an id built from the length; a step of the state machine exactly when that id is free |
| `ServiceChecks.StepChangesList` | src/sandbox/backend.ts:678-708 | saves, deletes and imports change the profile list as in a history; every other command keeps its ids |
| `ServiceChecks.ImportsStayFree` | src/sandbox/backend.ts:952-967 | in every run without a delete, whose saves edit a profile or use another shape of id, every import gets a free id |
| `ImportIds.NextImportIsNew` | src/sandbox/backend.ts:952-967 | over every history of imports, saves and deletes the next import of a kind gets a new id exactly when no import of that kind made at the present length, no save under that id and no such first profile still stands |
| `ImportIds.StandsExactly` | src/sandbox/backend.ts:678-708 | an id stands in a list exactly when it stood at the start or some change made it, and no delete came since |
| `ImportIds.NoDeleteNoRepeat` | src/sandbox/backend.ts:952-967 | without deletes ids stay distinct and every next import id is new |
| `ImportIds.ImportIdsRepeat` | src/sandbox/backend.ts:952-952 | importing, deleting another profile and importing again repeats the id |
| `NodePool.RebuildPool` | src/sandbox/backend.ts:435-481 | the counting loop computes the specified scan, members and report; `RebuiltExactly` says which nodes they are |
| `NodePool.RebuiltExactly` | src/sandbox/backend.ts:435-481 | the stored members are, in list order, the first accepted of the first 32 candidates, up to seven minus the backups; where there is none, the kept previous ones up to that number |
| `NodePool.LaterSkipped` | src/sandbox/backend.ts:455-459 | an accepted node without room is reported as skipped |
| `NodePool.FiltersExactly` | src/sandbox/backend.ts:446-455 | which filters ask for a node, by name and by country |
| `NodePool.ExplicitExactly` | src/sandbox/backend.ts:440-442 | the explicit keys, one by one |
| `NodePool.KeptExactly` | src/sandbox/backend.ts:463-473 | which previous members are kept, in order |
| `NodePool.RebuildSafe` | src/sandbox/backend.ts:435-481 | members are distinct, disjoint from primary, backups, pins, DNS key and named exits, and none is marked as in a wrong country; with at most 7 backups the chain has at most 8 |
| `NodePool.StoredMembersTrusted` | src/sandbox/backend.ts:446-473 | with verified exits every stored member, new or kept, is listed with a measured country that a filter wants, or is unlisted, or stands past the 32nd candidate |
| `NodePool.MembersVerified` | src/sandbox/backend.ts:451-460 | with verified exits every new member's measured country is one that a filter matching its name asks for |
| `NodePool.RebuildIdempotent` | src/sandbox/backend.ts:435-481 | a second rebuild stores the same pool and reports no change |
| `NodePool.ChainDropsNothing` | src/sandbox/backend.ts:526-530 | after a rebuild with at most 7 backups the status chain drops no listed primary, backup or member |
| `NodePool.ChainExactly` | src/sandbox/backend.ts:526-530 | the chain has only listed keys of the primary, the backups and the pool, in the order of first mention, at most eight and all when fewer, and starts with a listed primary |
| `RouteChecker.TestRoute` | src/sandbox/backend.ts:1050-1103 | the verdict is pure first match with unevaluable selectors as misses; a policy verdict names the first selector that means the host, any other means that none does, and then it is direct for a private address where asked, else proxy |
| `RouteChecker.SelectorMeaning` | src/sandbox/backend.ts:1052-1066 | every selector but a geosite, geoip or regexp one is evaluated: `keyword:` hits a host with that slice, `full:` that host, a domain the hosts ending in its labels, an address pattern its block or its own text; the first two never hit an address |
| `RouteChecker.PrivateExactly` | src/sandbox/backend.ts:1086-1086 | the private ranges, by the first two parts of the address text |
| `RouteChecker.DottedShape` | src/sandbox/backend.ts:1051-1051 | a dotted target is four runs of digits with dots between |
| `RouteChecker.CertainExactly` | src/sandbox/backend.ts:1069-1100 | `certain` holds exactly when every reading of the geosite, geoip and regexp selectors gives the same outcome |
| `RouteChecker.CidrSelectorExactly` | src/sandbox/backend.ts:1055-1062 | for every slashed selector and dotted target the test compares quotients by 2 to the free bits: 32 for the text "0", otherwise (32 - length) modulo 32 |
| `RouteChecker.SelectorAgreesExactly` | src/sandbox/backend.ts:1055-1062 | a slashed selector, its length given in digits, blank or as no number at all, means its block for all addresses exactly when the length is "0" or a number from 1 to 32 |
| `RouteChecker.CidrSelectorIsInBlock` | src/sandbox/backend.ts:1055-1062 | with such a length the selector is membership in the block |
| `RouteChecker.OtherLengthsDisagree` | src/sandbox/backend.ts:1060-1060 | for any other such length an address on which the selector and the block differ |
| `RuleText.TextToPolicies` | src/components/ProfileFormModal.tsx:174-194 | the three sections in precedence order, each with its trimmed nonblank lines, empty ones left out |
| `RuleText.RoundTripPreservesVerdicts` | src/components/ProfileFormModal.tsx:165-194 | for newline-free rules in block, proxy, direct order the round trip keeps outbound, source, selector and certainty for every host |
| `RuleText.RoundTripKeepsRulesExactly` | src/components/ProfileFormModal.tsx:165-194 | for newline-free lists the sequence of effective rules survives exactly when it is in that order |
| `RuleText.InOrderRules` | src/components/ProfileFormModal.tsx:172-174 | policies listed in block, proxy, direct order have their effective rules in that order |
| `RuleText.VerdictSurvivesExactly` | src/components/ProfileFormModal.tsx:165-194 | for newline-free lists and every host, outbound, source and selector survive exactly when no matching rule has precedence over the first matching one |
| `RuleText.RoundTripIdempotent` | src/components/ProfileFormModal.tsx:165-194 | for any policy list a second round trip changes nothing |
| `RuleText.ReorderingChangesVerdict` | src/components/ProfileFormModal.tsx:172-174 | a direct rule before a block rule for the same selector loses to it after the round trip |
| `Cidr.ParseCidr` | src/components/RouteMap.tsx:7-22 | yields the block a text denotes, except for IPv6 addresses of value zero |
| `Cidr.DottedExactly` | src/components/RouteMap.tsx:16-21 | four parts denote an address exactly when each is from 0 to 255, with their value in base 256 |
| `Cidr.GroupsExactly` | src/components/RouteMap.tsx:24-40 | eight groups denote an address exactly when each is below 65536, with their value in base 65536 |
| `Cidr.ExpandV6` | src/components/RouteMap.tsx:24-40 | the eight groups of a full or compressed address as one 128-bit number, or null for a malformed one |
| `Cidr.CompressionKeepsAddress` | src/components/RouteMap.tsx:24-35 | writing a run of zero groups as `::` denotes the same address |
| `Cidr.ContainsExactly` | src/components/RouteMap.tsx:42-50 | the mask test holds exactly when the child denotes a strictly smaller part of the parent's block and neither is a zero IPv6 address |
| `Cidr.DefaultV6ContainsNothing` | src/components/RouteMap.tsx:11-14 | `::/0` denotes the whole IPv6 space, yet contains nothing and is contained in nothing |
| `Cidr.PrefixesAreLaminar` | src/components/RouteMap.tsx:42-50 | containment is a strict order, and two containers of one block are nested or the same block |
| `Cidr.RouteTreeExact` | src/components/RouteMap.tsx:42-90 | each entry's ancestors are exactly its strict containers if and only if no entry contains an earlier one and no repeated block precedes an entry inside it; always tightest first |
| `Cidr.BranchMarkerExact` | src/components/RouteMap.tsx:62-64 | in such a list `hasChildren` holds exactly for the entries that are some entry's ancestor |
| `Cidr.BranchMarkerMeans` | src/components/RouteMap.tsx:62-64 | in any list the marker shows exactly when some later entry is a strictly smaller part of the block |
| `Cidr.UnsortedListLosesParent` | src/components/RouteMap.tsx:55-60 | an entry listed before its container has no ancestor |
| `ContainmentTree.ParentPrefixIndex` | src/components/RouteMap.tsx:55-60 | the nearest earlier container, or null exactly when no earlier entry contains |
| `ContainmentTree.Ancestors` | src/components/RouteMap.tsx:79-90 | the chain of parents; the `seen` guard never fires |
| `ContainmentTree.TreeDepth` | src/components/RouteMap.tsx:66-77 | the length of the ancestor chain |
| `ContainmentTree.AncestryExact` | src/components/RouteMap.tsx:55-90 | for any laminar containment the ancestry is faithful exactly for well-listed lists |
| `ContainmentTree.ChildrenAreDescendants` | src/components/RouteMap.tsx:62-64 | an ancestor always has children; the converse holds in well-listed lists |
| `Ipv4.IpToInt` | src/intentDoctor.ts:60-71 | the signed shift-or loop yields the base-256 value, or null exactly for other texts |
| `Ipv4.IpExactly` | src/intentDoctor.ts:60-71 | an address text is four runs of one to three digits, each at most 255 |
| `Ipv4.RunsValue` | src/intentDoctor.ts:60-71 | its value is the runs in base 256 |
| `Ipv4.SlashedParts` | src/intentDoctor.ts:76-79 | the base and the length of a slashed text |
| `Ipv4.UnslashedCoversNothing` | src/intentDoctor.ts:76-82 | a text without a slash covers nothing |
| `Ipv4.CoversIsInBlock` | src/intentDoctor.ts:75-86 | the signed mask test is membership in the block, by integer division, for all texts |
| `Ipv4.CoversIsContainment` | src/sandbox/backend.ts:720-724 | the lookup's 32-bit form agrees with the BigInt form: equal /32 or strict containment of the /32 |
| `Ipv4.DoctorCoversIsContainment` | src/intentDoctor.ts:75-86 | the doctor's test agrees with the BigInt form, on all texts |
| `Ipv4.LookupIsDivision` | src/sandbox/backend.ts:720-724 | the lookup's unsigned mask test is equality after division by 2^(32-len), also for length 0 |
| `Ipv4.SandboxToIntIsPositional` | src/sandbox/backend.ts:1058-1058 | the checker's shift-and-add fold is the base-256 value modulo 2^32, for octets of any size |
| `Ipv4.SignedMaskTest` | src/intentDoctor.ts:84-85 | comparing signed masked words is comparing quotients |
| `Ipv4.HostPrefixCovers` | src/intentDoctor.ts:75-86 | `ip/32` covers exactly the texts of the same address |
| `IntentDoctor.LpmMain` | src/intentDoctor.ts:90-103 | the loop computes the specified match |
| `IntentDoctor.LpmExact` | src/intentDoctor.ts:90-103 | the match is the earliest covering main-table unicast route of maximal length, and null exactly when none covers |
| `IntentDoctor.TunnelExactly` | src/intentDoctor.ts:90-112 | an address is swallowed by a tunnel exactly when the earliest longest unicast route of table 254 that holds it leaves by an interface of that name, and the first inventory entry of the name is a tunnel, or none has it and it starts like one |
| `IntentDoctor.CoveredExactly` | src/intentDoctor.ts:131-138 | an address is covered exactly when some destination of some enabled direct intent is a block that holds it |
| `IntentDoctor.BroadExactly` | src/intentDoctor.ts:48-57 | the default-capturing intents, by their six destinations |
| `IntentDoctor.KnownEndpoints` | src/intentDoctor.ts:115-127 | the nested loops fill the specified first-mention list |
| `IntentDoctor.KnownExact` | src/intentDoctor.ts:115-127 | the known endpoints are exactly the trimmed literal addresses some profile lists, each once |
| `IntentDoctor.BypassIdLoop` | src/intentDoctor.ts:142-157 | the loop ends at the first free id |
| `IntentDoctor.BypassId` | src/intentDoctor.ts:142-157 | the id is new among the intents and the reserved ids |
| `IntentDoctor.BypassIdExactly` | src/intentDoctor.ts:147-156 | a bypass gets the first of the numbered ids that is not in use |
| `IntentDoctor.SlugExactly` | src/intentDoctor.ts:147-151 | the slug has the base's letters, digits and underscores in lower case and order, or is "uplink" |
| `IntentDoctor.DashedExactly` | src/intentDoctor.ts:150-150 | each run of other characters becomes one dash |
| `IntentDoctor.SwallowedGroups` | src/intentDoctor.ts:197-206 | the map of tunnels to endpoints and the claimed set |
| `IntentDoctor.AnalyzeIntents` | src/intentDoctor.ts:184-284 | the analysis with its three sections in order; `TunnelExactly`, `CoveredExactly` and `BroadExactly` say what its tests mean |
| `IntentDoctor.TunnelsSorted` | src/intentDoctor.ts:207-207 | tunnel cards come ordered by tunnel name and then endpoints |
| `IntentDoctor.EachExposedOnce` | src/intentDoctor.ts:184-254 | an uncovered endpoint that a tunnel takes or a default-capturing intent exposes is in exactly one suggestion; every other address in none |
| `IntentDoctor.SuggestionsExplained` | src/intentDoctor.ts:197-254 | an endpoint suggestion lists sorted endpoints that its tunnel takes now, or that no tunnel takes but the first default-capturing intent will; fixes have metric 50 |
| `IntentDoctor.ConflictsExact` | src/intentDoctor.ts:256-281 | conflict cards are, in order, one for each conflicted intent with an occupied destination, naming the first such destination and the first foreign route on it |
| `IntentDoctor.EndpointSuggestions` | src/intentDoctor.ts:207-254 | every endpoint suggestion pins a nonempty list of uncovered endpoints with one direct intent under a fresh id |
| `IntentDoctor.OnlyConflictsLeft` | src/intentDoctor.ts:184-284 | only conflict suggestions remain exactly when no uncovered endpoint is exposed |
| `IntentDoctor.ApplyingMakesProgress` | src/components/IntentsPanel.tsx:257-270 | applying an endpoint suggestion covers all its endpoints, loses no coverage and strictly shrinks the uncovered set |
| `IntentDoctor.FixingConverges` | src/components/IntentsPanel.tsx:257-270 | no run of fixing, with tables that may change between steps, is longer than the number of endpoints uncovered at its start |
| `IntentDoctor.CoveredMeansQuiet` | src/intentDoctor.ts:184-284 | with every known endpoint covered, an analysis of any network offers conflicts only |
| `IntentDoctor.SavedFromCoverage` | src/components/IntentsPanel.tsx:172-184 | after a save from any shown list, stale or not, a known endpoint is covered exactly when it was shown uncovered or an intent covers it that neither the rule nor the companion replaced |
| `IntentDoctor.CompanionsExactly` | src/intentDoctor.ts:163-182 | a save sets no companion exactly when every endpoint is shown covered, and at most one: direct, metric 50, under an id that is new |
| `IntentDoctor.SavedCoverage` | src/components/IntentsPanel.tsx:172-184 | after a save from the stored list a known endpoint is covered, unless the rule replaced all the intents that covered it |
| `IntentDoctor.SavedRuleSwallowsNothing` | src/intentDoctor.ts:163-182 | the exact condition under which a save leaves every known endpoint covered |
| `IntentDoctor.ReplacedBypassUncovers` | src/components/IntentsPanel.tsx:172-184 | an all-traffic rule saved under the id of the one direct intent that pins an endpoint leaves it uncovered |
| `IntentDoctor.NewRuleSwallowsNothing` | src/components/IntentsPanel.tsx:172-184 | a rule whose id is not that of an enabled direct intent leaves the next analysis with conflicts only |
| `IntentDoctor.IntentStore.NetIntentSet` | src/sandbox/backend.ts:1125-1151 | replaces by id and appends the new view |
| `IntentDoctor.ViewExactly` | src/sandbox/backend.ts:1125-1148 | what is stored of an intent: enabled by default, metric 100 by default, and its status by path |
| `IntentDoctor.DisabledPinsNothing` | src/sandbox/backend.ts:1125-1148 | as far as coverage goes, setting a disabled intent is deleting the old one |
| `IntentDoctor.IntentStore.NetIntentDel` | src/sandbox/backend.ts:1152-1155 | the other intents stay, in order and number, and an address stays pinned exactly when an intent under another id pins it |
| `IntentDoctor.DeleteUndoesSet` | src/sandbox/backend.ts:1125-1155 | setting an intent under a new id and deleting it restores the list |
| `IntentDoctor.IntentStore.ApplySuggestion` | src/components/IntentsPanel.tsx:257-263 | sets the fixes one after another |
| `IntentDoctor.IntentStore.Save` | src/components/IntentsPanel.tsx:172-184 | sets the rule, then for an all-traffic interface rule the companions of the shown list, and counts the endpoints they pin |
| `Shutdown.StepKeeps` | src-tauri/src/lifecycle.rs:118-178 | every atomic step keeps: one cleanup in flight at most, and what the two flags mean |
| `Shutdown.RunKeeps` | src-tauri/src/lifecycle.rs:118-178 | the invariant holds in every interleaving |
| `Shutdown.OneCleanup` | src-tauri/src/lifecycle.rs:122-137 | at most one cleanup is in flight; an event is let through only after a completed cleanup or an elevated restart |
| `Shutdown.FlagMeaning` | src-tauri/src/lifecycle.rs:126-146 | in every interleaving `shutting_down` is true exactly when a cleanup is in flight or has completed; it agrees with `cleanup_complete` exactly unless a restart came with neither |
| `Shutdown.NoneAfterSuccess` | src-tauri/src/lifecycle.rs:157-178 | after a completed cleanup none is in flight again and every later handler lets its event through |
| `Shutdown.FailureRearms` | src-tauri/src/lifecycle.rs:141-145 | in every interleaving the first swap after a failed cleanup's store starts a cleanup, and until then a handler that loads goes on to swap, unless a restart came first |
| `Shutdown.RestartRacesWithHandler` | src-tauri/src/commands/system.rs:1100-1112 | an interleaving with the elevated restart in which cleanup is complete and in flight at once |
| `Shutdown.RestartRacesExactly` | src-tauri/src/commands/system.rs:1100-1112 | in every reachable state a cleanup can start after the restart exactly when at the restart a handler stood between load and swap and no cleanup had succeeded |
| `RouteOwnership.Restore` | crates/core/src/policy.rs:189-213 | reads a document exactly when no owner is blank or repeated |
| `RouteOwnership.BlankExactly` | crates/core/src/policy.rs:192-197 | an owner is blank when it has nothing but white space |
| `RouteOwnership.SavedReadsBack` | crates/core/src/policy.rs:176-213 | a saved document holds the ownership it was made from, and a start reads it back exactly when no owner is blank |
| `RouteOwnership.RouteRuntime.Snapshot` | crates/core/src/policy.rs:176-187 | one entry for each owner with its routes, ordered by id |
| `RouteOwnership.RouteRuntime.Persist` | src-tauri/src/route_runtime.rs:105-116 | a successful save leaves a document that the next start reads as this ownership, unless an owner is blank; a failed one leaves the document |
| `RouteOwnership.RouteRuntime.RemoveRoutes` | crates/core/src/policy.rs:96-113 | the reverse loop returns the refused routes and takes the others out of the table |
| `RouteOwnership.RouteRuntime.AddRoutes` | crates/core/src/policy.rs:71-91 | adds all routes, or at the first refusal removes those added as far as it can |
| `RouteOwnership.UnremovedExact` | crates/core/src/policy.rs:96-113 | a route survives a best-effort removal exactly when every attempt on it was refused |
| `RouteOwnership.RouteRuntime.RemoveProfile` | src-tauri/src/route_runtime.rs:168-173 | the removal step: an unowned id is refused, a partial failure keeps exactly the refused routes and saves nothing |
| `RouteOwnership.RouteRuntime.ApplyProfile` | src-tauri/src/route_runtime.rs:119-134 | the apply step: an owned id is refused, a failed addition is undone, a failed save is rolled back, each with its error |
| `RouteOwnership.RouteRuntime.CleanupAll` | src-tauri/src/lifecycle.rs:8-37 | attempts every owned profile and every running tunnel and keeps exactly the refused routes; Ok exactly when all succeed, and then memory is empty, the document is empty unless there was nothing to remove, and a tracked table is empty |
| `RouteOwnership.OkMeansStored` | src-tauri/src/route_runtime.rs:119-134 | an Ok answer leaves the document equal to memory |
| `RouteOwnership.RemoveKeepsSound` | crates/core/src/policy.rs:153-168 | a removal, whatever is refused, keeps every owned route recorded and every installed route owned |
| `RouteOwnership.BackedExactly` | src-tauri/src/route_runtime.rs:119-134 | from a state where every owned route is recorded, a command leaves one unrecorded exactly when its rollback was refused a route the document does not hold |
| `RouteOwnership.TrackedExactly` | crates/core/src/policy.rs:136-168 | from a state where every installed route is owned, a command leaves one that nobody owns exactly when an apply was refused an addition and then every undoing of an added, otherwise unowned route, or a restart reads a document that does not hold an installed route |
| `RouteOwnership.OrphanOnlyAfterCause` | src-tauri/src/route_runtime.rs:76-173 | in every run from a sound state an installed route that nobody owns goes back to such an apply, or to a restart after a stuck rollback with no Ok answer since |
| `RouteOwnership.MissingOnlyAfterStuck` | src-tauri/src/route_runtime.rs:105-173 | in every run an owned route missing from the document means a stuck rollback and no Ok answer since |
| `RouteOwnership.InstalledIsRecorded` | src-tauri/src/route_runtime.rs:105-173 | in every run without those two failures every installed route is owned in memory and recorded in the document |
| `RouteOwnership.ForgottenRouteReachable` | crates/core/src/policy.rs:148-148 | an apply that leaves a route installed and owned by nobody |
| `RouteOwnership.StuckRouteLost` | src-tauri/src/route_runtime.rs:76-134 | an apply whose save and rollback fail, then a restart: the route stays installed, owned by nobody, without a forgetting apply |
| `RouteOwnership.PartialRemovalKeepsFailed` | crates/core/src/policy.rs:153-168 | a removal refused one of two routes keeps that one in memory and both in the document |
| `RouteOwnership.StaleDocumentReachable` | src-tauri/src/lifecycle.rs:8-37 | a run to empty memory and a nonempty document, which a cleanup then leaves |
| `RouteFlow.BuildFlow` | src/components/RouteFlow.tsx:67-160 | the mutating loop computes the specified nodes and links |
| `RouteFlow.ShownExactly` | src/components/RouteFlow.tsx:70-72 | which routes are shown |
| `RouteFlow.ActiveJoined` | src/components/RouteFlow.tsx:70-72 | the shown routes keep their order |
| `RouteFlow.PathExactly` | src/components/RouteFlow.tsx:92-94 | the three nodes of a route |
| `RouteFlow.SameGroupExactly` | src/components/RouteFlow.tsx:33-39 | two dotted destinations share a group exactly when their first two parts agree; others stand alone |
| `RouteFlow.FlowConserved` | src/components/RouteFlow.tsx:91-157 | every profile, interface and destination value is the sum of its link values on each side |
| `RouteFlow.ColumnsTotal` | src/components/RouteFlow.tsx:91-130 | each column's values add up to the number of routes |
| `RouteFlow.NodesCount` | src/components/RouteFlow.tsx:91-130 | a node exists exactly if some route passes it, and its value is the number of those routes |
| `RouteFlow.LinksAreSound` | src/components/RouteFlow.tsx:132-157 | links join placed nodes of neighbouring columns, and no pair occurs twice |
| `RouteFlow.LinksAreCounts` | src/components/RouteFlow.tsx:132-157 | a pair's link value is the number of routes through both nodes |
| `RouteFlow.Layout` | src/components/RouteFlow.tsx:183-215 | every node gets the position of its column and rank |
| `RouteFlow.BoxesApart` | src/components/RouteFlow.tsx:187-203 | boxes of one column never overlap |
| `RouteFlow.ColumnsApart` | src/components/RouteFlow.tsx:173-207 | the columns stand 300 apart, in order |
| `RouteFlow.LinkEndsPlaced` | src/components/RouteFlow.tsx:209-215 | both ends of every link are node indexes, so they have a position |
| `DnsMessage.BuildResponse` | e2e/linux/dns_peer.py:11-46 | the offset-walking loop computes the specified response, in bounds for every byte string |
| `DnsMessage.HostedExactly` | e2e/linux/dns_peer.py:38-42 | the three names that are answered, in any case |
| `DnsMessage.QueryRoundTrip` | e2e/linux/multinode_scenarios.py:666-668 | an encoded name reads back as its labels exactly when each is 1 to 63 ASCII octets (section 3.1 of RFC 1035) |
| `DnsMessage.AnsweredExactly` | e2e/linux/dns_peer.py:11-36 | a packet is answered exactly when it has 17 octets, one question and a well-formed name with type and class |
| `DnsMessage.ReplyWellFormed` | e2e/linux/dns_peer.py:37-46 | a reply keeps the id, echoes the question, counts its records, and its question parses to the same labels (sections 4.1.1 and 4.1.2 of RFC 1035) |
| `DnsMessage.AnswerReadsBack` | e2e/linux/dns_peer.py:45-46 | a reader of section 4.1 of RFC 1035 reads the answer as the question's own name, type A, class IN, TTL 30 and the address with nothing left over, exactly when the address has four octets |
| `DnsMessage.ParseEncoded` | e2e/linux/dns_peer.py:17-33 | the parser recovers an encoding wherever it stands |
| `DnsMessage.ParseSound` | e2e/linux/dns_peer.py:17-33 | what the parser accepts is the encoding of the labels it returns |
| `Localization.ValidateCondition` | scripts/generate-localizations.py:27-48 | the recursive validator accepts exactly the well-formed plural conditions |
| `Localization.LoadCatalogs` | scripts/generate-localizations.py:61-102 | accepts exactly the directories that meet every demand, no key or plural category repeated, and returns each file with its defaults filled in |
| `Localization.TagExactly` | scripts/generate-localizations.py:66-67 | the accepted language tags |
| `Localization.FitsExactly` | scripts/generate-localizations.py:91-101 | a message is accepted beside its English one exactly when both are well-formed, all texts have the same placeholders, and a plural one counts |
| `Localization.VariantsExactly` | scripts/generate-localizations.py:51-58 | which messages are well-formed, and their texts |
| `Localization.FinishedExactly` | scripts/generate-localizations.py:72-73 | the defaults of a file, and what is kept |
| `Localization.TemplateDefined` | src/i18n/engine.ts:45-56 | for accepted catalogs, any language and any English key a template is found, with the English placeholders; `TemplateExactly` says which one |
| `Localization.TemplateExactly` | src/i18n/engine.ts:45-56 | the template is that of the language's own catalog if it has the key, else of the English one, in the form its own rules give the count, or the fallback form; a key no catalog has stands for itself |
| `Localization.MatchesExactly` | src/i18n/engine.ts:34-43 | a condition accepts a number exactly when all parts, one alternative, integrality and the bounds of the number or its remainder hold |
| `Localization.CategoryExactly` | src/i18n/engine.ts:52-55 | the category is that of the first rule the number meets, or "other" |
| `Localization.HoleExactly` | src/i18n/engine.ts:58-58 | a placeholder is a letter, then letters, digits and underscores, in braces |
| `Localization.TranslationFilled` | src/i18n/engine.ts:45-59 | with arguments for those names the output is the template's literals with the argument texts in between |
| `Localization.SpellTokens` | src/i18n/engine.ts:57-59 | splitting a template into literals and placeholders loses nothing |
| `Localization.TokensUnique` | src/i18n/engine.ts:57-59 | the pass finds the one leftmost reading of a template |
| `Localization.TokensLeftmost` | src/i18n/engine.ts:57-59 | no placeholder starts at a character taken as a literal |
| `Localization.ValueVerbatim` | src/i18n/engine.ts:56-59 | an argument's text enters the output as it is and is never scanned again |
| `MeasurePool.AtMostEightInFlight` | src/components/ProfileManager.tsx:1082-1094 | in every order of settling each index is started once, in order, and at most eight probes are in flight, on different indexes |
| `MeasurePool.PoolStaysFull` | src/components/ProfileManager.tsx:1082-1094 | the pool starts with eight probes, or all when fewer, and no worker returns while an index is left |
| `MeasurePool.AllMeasured` | src/components/ProfileManager.tsx:1046-1094 | when all workers have returned every index has a result, whether its probe succeeded or failed |
| `MeasurePool.RunLength` | src/components/ProfileManager.tsx:1085-1090 | a run of n steps leaves 2 * length - n of the work, so every run ends |
| `MeasurePool.NeverStuck` | src/components/ProfileManager.tsx:1085-1090 | until all workers have returned some step is possible |
| `MeasurePool.RunKeeps` | src/components/ProfileManager.tsx:1082-1094 | every started index without a result is being probed by some worker, in every state of every run |
| `GroupOrder.ApplyGroupOrder` | src/components/ProfileManager.tsx:139-154 | the counting loop computes the specified placement |
| `GroupOrder.MoveInGroup` | src/components/ProfileManager.tsx:689-696 | the ids with the profile and its neighbour swapped, a permutation, or nothing exactly at the edge or for an unknown id |
| `GroupOrder.CardDrop` | src/components/ProfileManager.tsx:746-769 | a permutation of the ids in which the dragged one stands right beside the target and the others keep their order |
| `GroupOrder.PermutationReorders` | src/components/ProfileManager.tsx:139-154 | given a permutation of the group's ids: same multiset of profiles, other backends' slots fixed, the group in the requested order |
| `GroupOrder.ConservesExactly` | src/components/ProfileManager.tsx:139-154 | for every id list, profiles are conserved exactly when the order rearranges the members whose slots it takes |
| `GroupOrder.PartialOrderLoses` | src/components/ProfileManager.tsx:139-154 | an order that names a member past the slots it takes loses a profile |

## Left out

- Splitting of destination texts in `RouteMap.tsx`: `parseCidr` is modelled from the split pieces and their numbers; fractional and negative lengths and loose hexadecimal parsing of malformed groups are not modelled.
- JavaScript's `Number` on text other than blanks and decimal digits: signs, fractions, exponents and radix prefixes, as in a length "8.0" or "1e1", are taken as not a number wherever a prefix length is read; rounding of digit strings beyond 2^53 is not modelled either.
- Case mapping beyond ASCII and the basic Cyrillic letters.
- `ServiceChecks.ValidateServiceSpecs`: the URL parser itself (its port, hostname and scheme rules) is not modelled; the demands written out in the validator are, with the length counted in characters.
- The bare host is the input of the route checker: the stripping of scheme, path, user and port, which decides the host, is not modelled. Nor are its `steps` and `notes`, which are display.
- Dismissal keys of suggestions, `detail` and `wanted` texts of intents, colours, latencies and other display data.
- Subscription commands other than pool rebuilding and importing: generalised to one command that stores any subscription record of a subscribed profile. Validation of a share link's text: an invalid link imports nothing.
- A stored profile without any pin list, for which a save takes the form's pins: a stored list is at least empty here, and then it is kept.
- The policy migration preview: whether it refuses, and what it stores, are parameters of the migration command.
- Route planning and the executor of `PolicyManager`: the planned routes and the refusals are parameters; a refused call is taken to leave the host table unchanged.
- The Linux forms of the lifecycle handlers and of `RouteRuntime`, which talk to the daemon.
- The three node maps of `RouteFlow.tsx`: one map keyed by column and id.
- `BuildFlow`, `RebuildPool`, `ApplyGroupOrder`: objects that the source changes in place inside the local lists are rebuilt as values; nothing else holds references to them.
- Raising of type errors by the localization validator for JSON values of the wrong kind, unknown fields, and `resolveLanguage`.
- `GroupOrder.CardDrop`: the source skips the commit when the comma-joined ids are unchanged; committing an unchanged order changes nothing, so the guard is not modelled.
- IPv6 in the sandbox's destination lookup.
- React rendering and hooks, the tray, the daemon client, the daemon and its crates, the command line, the packaging scripts and the end-to-end drivers.
