# Verified model of the migration validator

The migration validator compares a router before and after a migration. It captures a box over
NETCONF, records the session, splits the measured facts among the configured services, runs checks
against a baseline and prints one report; a small web interface runs the captures.

This project models the parts whose correctness spans several functions or a whole run, and proves
what the design says they are for:

- **FileCache** - the lock-free caches of the account file and the host inventory, under every
  interleaving of readers and writers.
- **CapturePool**, **PoolHistory** - the capture manager's lock, semaphore, worker threads and
  maintenance flag, and what its state says about the run that led to it.
- **Replay**, **ReplayAnswers** - recording a NETCONF session, answering from the recording, and the
  answer to any call whatsoever.
- **Sessions**, **Throttle**, **LockRule**, **LoginRoute** - session expiry and the login throttle,
  whose sweeping and pruning must not be observable; when exactly a login is held off, and how many
  failures the login route lets through.
- **Ip**, **PingTargets**, **TargetRules** - where to ping, tier by tier, the exact rules for a target, and
  the explanation of what is not pinged.
- **Ownership** - which scope gets which measured record; nothing measured vanishes.
- **Outcomes**, **BgpCheck**, **Routes** - the verdicts of the BGP session and static route checks,
  in terms of the records on both boxes.
- **ReportOrder**, **ReportPlaces**, **LinkedBlocks** - the report's order, the place of every block in it,
  and when the blocks of one bridge domain stay together.
- **Accounting**, **ScopeStatus**, **Conservation** - where every scope and row is counted, what status a
  scope gets, and in which of the report's sections a measured record is found.
- **Profiles** - stripping a profile to what differs from the defaults.
- **Manifest**, **CapturedPairings**, **LockLoss**, **ManifestFile** - the manifest of a run over its whole
  life, what a capture protects, which locked pairings can be lost, and its file.
- **Multicast**, **Uptime** - longest-prefix assignment, and uptimes printed and parsed.
- **Seqs**, **Strings**, **Wrappers** - filtering, sorting and optional values.

Code that changes state is a class or a method with loops, proved against a function of the inputs or
of the old state; the theorems are about these functions, and state what they mean in terms of the
inputs alone. `dafny verify dfyconfig.toml` checks everything.

## Where the code differs from its description

The model follows the code. Each point is a lemma.

- The cache keys are (mtime, size, inode), and nothing keeps a key from coming back after a second
  replacement. All interleavings are linearizable if and only if a key that comes back finds what the
  file has meant ever since the key was first seen (`FileCache.LinearizableExactly`); keys that never
  repeat are enough (`FileCache.Linearizable`).
- A replayed session equals the recorded one exactly when every exchange survives recording: a reply
  that is neither an element nor a JSON scalar comes back as its text, a `get_config` without a filter
  is never answered, and a configuration is trimmed to the hierarchies asked for
  (`Replay.ReplayIsFaithful`).
- The login route asks `retry_after` first and reports the failure later, and lets any number of
  logins in meanwhile. With at most c >= 1 logins of one (name, IP) in flight, the largest number of
  failures in a window of length lockout > 0 is threshold + (c - 1) + min(c - 1, threshold - 1), where a
  threshold below 1 counts as 1 (`LoginRoute.LargestPerWindow`); it is the threshold if and only if c is
  at most 1 (`LoginRoute.BoundedExactlyOneAtATime`).
- The documentation prints the L2 block of a bridge domain immediately after its L3 block, and knows
  several L2 blocks for one L3 block. The parent port is looked up for each L2 block alone, so L2 blocks
  on two ports that have port blocks are torn apart (`LinkedBlocks.TwoPortsTearApart`, and a whole family
  of inputs in `LinkedBlocks.BridgeIsTornApart`). They stay together if and only if they share a port,
  or all lack a port block, or lie across the end of the last port's section
  (`LinkedBlocks.TogetherExactly`).
- What no scope claims is listed as unassigned, but a record whose owners are all left out by the
  profile, excluded as another step's or ignored by the mapping is neither shown nor listed
  (`Conservation.WhereABgpRecordIs`, `Conservation.WhereABfdRecordIs`, `Conservation.WhereARouteIs`).
- The session store and the throttle read the clock before they take their lock, so with threads a
  later reading may be applied first. The results on runs assume readings in the order of the calls;
  otherwise the sweep and the pruning can be seen, exactly as `Sessions.EarlierReadingSeesTheSweep` and
  `Throttle.EarlierReadingSeesPruning` say.
- A route record with the same (rib, prefix, protocol) as an earlier one replaces it, so a scope shows
  all its routes exactly when these keys are distinct (`Ownership.NoRouteVanishes`).
- A multihop BFD session of a Core loopback peer is both selected and listed as unassigned
  (`Ownership.CoreLoopbackSessionShowsTwice`).
- A peer that was ambiguous in the baseline and is no longer configured gets no row
  (`BgpCheck.AmbiguousBaselinePeerIsForgotten`).
- A check left empty in a profile (`id:` without a value) sets nothing but survives stripping
  (`Profiles.EmptyCheckSurvives`).
- `update_mapping` compares ports only and rebuilds every pairing between the old and the new box. A
  locked pairing of any other node is therefore lost with the next update that goes through
  (`Manifest.UpdateAndLocks`, `LockLoss.ThereUntilUpdated`, the run `LockLoss.LosingRunLoses`); it can be
  lost in some continuation if and only if the locked ports give no old port two new ones
  (`LockLoss.CanBeLostExactly`).
- A capture of a port literally named `all` becomes a whole-box capture when the file is read back
  (`ManifestFile.LoadUndoesSave`). Captures are unique after a run if and only if no such capture was
  accepted next to a whole-box one of the same phase and box (`Manifest.CapturesUniqueExactly`).
- For every list of next-hops but a single one there is a next-hop with a comma, or `-`, that hides a
  change to it (`Routes.HiddenChanges`); without commas the report is exact
  (`Routes.ChangeMeansDifferentHops`). A reactivated route is RECOVERED only when its next-hops are
  the same (`Routes.GoodVerdicts`).
- The report keeps every result exactly when no linked block waits for a block that moves itself and
  no two port blocks share a port (`ReportOrder.ReorderIsPermutation`,
  `ReportOrder.GroupIsPermutation`).

## Model

| member | source | states |
|---|---|---|
| FileCache.Linearizable | migration_validator/users.py:155-169 | over every interleaving of readers and of writers with never-reused keys, a returned call gives what the file held at an instant inside that call, a raised one saw an unreadable file at such an instant |
| FileCache.LinearizableExactly | migration_validator/inventory.py:99-107 | for any history of the file, all interleavings that install it are linearizable if and only if a key that comes back finds what the file has meant ever since the key was first seen |
| FileCache.StaleRun | migration_validator/users.py:163-169 | the run that fails otherwise: stat one version, read a later one, publish, and hit when the key is back |
| FileCache.RunKeepsInv | migration_validator/inventory.py:99-107 | the invariant behind it, over every run with such keys and for both users of the protocol: a cached tuple pairs a key with data of that version or a later one |
| FileCache.StepKeepsInv | migration_validator/users.py:155-169 | every single shared access keeps the invariant |
| FileCache.InstallKeepsFacts | migration_validator/users.py:171-189 | replacing the file invalidates nothing known about earlier instants |
| FileCache.HitIsInsideCall | migration_validator/users.py:163-169 | a hit returns what the file held inside the call, whether the cache was filled before or after the call's stat |
| FileCache.ReusedKeyIsServedStale | migration_validator/users.py:156-169 | two renames that bring a key back are safe for the readers exactly when all three texts are the same |
| FileCache.RaisesForAReason | migration_validator/users.py:141-169 | over every interleaving, reused keys or not, a call raises only when the file meant nothing at an instant inside the call or vanished between two such instants |
| FileCache.CachedFile.Get | migration_validator/users.py:141-169 | over a quiet file the cache is invisible: the caller gets what reading afresh gives, and the cache stays sound |
| PoolHistory.StateTellsTheRun | migration_validator/gui/captures.py:82-162 | over every run a task is Done exactly when its capture returned, Failed exactly when it raised, Running exactly between its begin and its end, each at most once; a run is under maintenance exactly when it was entered once more than left |
| PoolHistory.EventsInOrder | migration_validator/gui/captures.py:144-161 | in every run, and so in each of its beginnings, the events of a task come in their order, and it holds a slot exactly between taking and giving it back |
| PoolHistory.TasksAreTheStarts | migration_validator/gui/captures.py:108-129 | the tasks are the accepted starts in their order, each with its run, device, port and phase ever after |
| PoolHistory.ReportSetsTheLine | migration_validator/gui/captures.py:131-142 | a report sets the latest line of its collector and no other; "start" opens one that says "running" |
| CapturePool.PoolSafety | migration_validator/gui/captures.py:56-162 | in every reachable state running tasks are at most the slots held, free plus held is the pool, a device has at most one active task and no run under maintenance has one |
| CapturePool.StepKeepsInv | migration_validator/gui/captures.py:82-162 | every step of start, maintenance and the worker keeps the invariant |
| CapturePool.RunKeepsInv | migration_validator/gui/captures.py:82-162 | so does every run |
| CapturePool.TasksMoveForward | migration_validator/gui/captures.py:144-162 | no task is lost, changes identity, steps back or leaves a final state |
| CapturePool.ProgressExactlyWithSlots | migration_validator/gui/captures.py:144-147 | while a worker is around some worker can step, if and only if the pool has a slot |
| CapturePool.EnabledWorkerAction | migration_validator/auth.py:157-161 | a pool of at least one, as the settings demand, always has a step to offer |
| CapturePool.WorkerStepsAreBounded | migration_validator/gui/captures.py:144-161 | without new starts every worker step uses up one unit of the remaining work |
| CapturePool.WorkersCanDrain | migration_validator/gui/captures.py:144-161 | from every reachable state the workers alone reach one where no task is active and all slots are free |
| CapturePool.CaptureManager.ActiveTask | migration_validator/gui/captures.py:72-80 | the first active task of a run, None exactly when there is none |
| CapturePool.CaptureManager.BusyRun | migration_validator/gui/captures.py:66-70 | busy exactly when maintenance could not be entered |
| CapturePool.CaptureManager.LastFinished | migration_validator/gui/captures.py:100-106 | the last finished task of a run |
| CapturePool.CaptureManager.Start | migration_validator/gui/captures.py:108-129 | succeeds exactly when the step is enabled, adds one queued task, and otherwise changes nothing and names the reason |
| CapturePool.CaptureManager.Enter | migration_validator/gui/captures.py:88-93 | enters maintenance exactly when the step is enabled, with the right error otherwise |
| CapturePool.CaptureManager.Exit | migration_validator/gui/captures.py:96-98 | leaves maintenance and touches nothing else |
| CapturePool.CaptureManager.WorkerStep | migration_validator/gui/captures.py:144-159 | each stretch of a worker is exactly one step of the protocol |
| CapturePool.CaptureManager.OnProgress | migration_validator/gui/captures.py:131-142 | a report opens a line or rewrites the latest line of its collector |
| CapturePool.RewriteLatest | migration_validator/gui/captures.py:138-142 | the scan from the end rewrites the latest line of that collector and no other |
| Replay.ReplayIsFaithful | migration_validator/raw/recorder.py:62-87 | a deterministic client with at most one get_config sees its recorded session again, reply by reply, exactly when every exchange survives recording |
| Replay.ExchangeComesBack | migration_validator/raw/replay.py:66-100 | one exchange comes back unchanged exactly when it survives recording |
| ReplayAnswers.ConfigRefusedExactly | migration_validator/raw/replay.py:83-93 | for any recording a get_config is refused exactly when it has no filter, or none was recorded, or the first recorded one lacks a required hierarchy that is asked for |
| ReplayAnswers.ConfigAnswerIs | migration_validator/raw/replay.py:87-100 | otherwise it gets the first recorded outcome: an error as it is, a document with its first configuration cut down to the comments and the hierarchies asked for |
| ReplayAnswers.KthRequestGetsKthOutcome | migration_validator/raw/replay.py:73-79 | the k-th request for a key gets the k-th outcome recorded under it, every later request the last |
| ReplayAnswers.SameKeyExactly | migration_validator/raw/calls.py:27-41 | calls have the same canonical arguments exactly when their arguments are the same, elements counting as their text |
| ReplayAnswers.WhatComesBack | migration_validator/raw/recorder.py:67-87 | what a recorded call gets: its outcome, an opaque value as its text, a nameless error as an RpcError |
| Replay.QueueAt | migration_validator/raw/replay.py:73-79 | the queue of a key, at the number of earlier requests for it, holds that very exchange |
| Replay.QueueLength | migration_validator/raw/replay.py:58-63 | a key is queued as often as it was asked for |
| Replay.UnrecordedIsRefused | migration_validator/raw/replay.py:73-79 | NotRecorded exactly for keys that were never recorded; any other answer was recorded |
| Replay.InterleavingIsIrrelevant | migration_validator/raw/replay.py:73-79 | requests for other keys slipped in anywhere do not change an answer |
| Replay.TrimIsIdentity | migration_validator/raw/replay.py:94-100 | trimming leaves a reply alone exactly when its configuration holds requested hierarchies only, and fails exactly when there is no configuration element |
| Replay.TrimFirstIsIdentity | migration_validator/parsers/core.py:360-371 | the same for the search through the children in document order |
| Replay.FillCanonicalKwargs | migration_validator/raw/calls.py:27-41 | the canonical arguments: elements as text, the get_config filter left out |
| Replay.Recorder.Record | migration_validator/raw/recorder.py:67-87 | the caller gets the device's outcome untouched and the log grows by exactly its entry |
| Replay.Replayer.constructor | migration_validator/raw/replay.py:55-64 | the queues hold the entries of every key of the log, in order |
| Replay.Replayer.Answer | migration_validator/raw/replay.py:70-100 | the answer to the next call, with its key counted |
| Sessions.LookupFollowsTheRule | migration_validator/gui/sessions.py:41-70 | over any run a lookup succeeds exactly when the token was created, never dropped, is at most `absolute` old and at most `idle` past its last successful lookup or creation, and returns the account it was created for |
| Sessions.SweepIsInvisible | migration_validator/gui/sessions.py:44-51 | the sweep inside create changes no later answer |
| Sessions.EarlierReadingSeesTheSweep | migration_validator/gui/sessions.py:44-66 | for a reading from before the creation the sweep is seen exactly when the session had expired for the one and not for the other |
| Sessions.FoundIffSucceeds | migration_validator/gui/sessions.py:53-66 | a store that matches the trace answers by the rule |
| Sessions.StepMatches | migration_validator/gui/sessions.py:44-70 | every call keeps the store matching the trace |
| Sessions.SessionStore.Create | migration_validator/gui/sessions.py:44-51 | removes the expired sessions and adds the new one, nothing else |
| Sessions.SessionStore.Lookup | migration_validator/gui/sessions.py:53-66 | the answer and the new store |
| Sessions.SessionStore.Drop | migration_validator/gui/sessions.py:68-70 | forgets that token only |
| Throttle.PruningIsInvisible | migration_validator/gui/sessions.py:103-110 | whatever the size limit, pruning changes no answer of retry_after over any run |
| Throttle.AtMostThresholdPerWindow | migration_validator/gui/sessions.py:95-125 | any half-open window of length lockout holds at most `threshold` failures of one (name, IP) at which `retry_after` would answer 0, in the pruned table, whatever others do |
| LoginRoute.BoundedExactlyOneAtATime | migration_validator/gui/auth_routes.py:49-66 | over all runs of the login route with at most c logins of one (name, IP) in flight, every window of length lockout holds at most `threshold` of their failures if and only if c is at most 1 |
| LoginRoute.AloneStillHearsZero | migration_validator/gui/auth_routes.py:49-63 | a login that is alone in flight would still hear 0 when it reports, whatever others do and with pruning |
| LoginRoute.LargestPerWindow | migration_validator/gui/auth_routes.py:49-66 | over all runs of the route with at most c logins of one (name, IP) in flight, a number bounds their failures in every window of length lockout if and only if it is at least threshold + (c - 1) + min(c - 1, threshold - 1), or 0 for c = 0 |
| LoginRoute.NeverMoreThanMost | migration_validator/gui/auth_routes.py:49-66 | no such run has more failures in any window, pruned or not, whatever others do |
| LoginRoute.MostIsReached | migration_validator/gui/auth_routes.py:49-66 | for every c a run of the route that reaches that number |
| LockRule.LockFollowsTheRule | migration_validator/gui/sessions.py:95-125 | over any run `retry_after` gives a delay if and only if some failure since the last success completed a streak less than `lockout` ago, in the pruned table too |
| LockRule.CompletesExactly | migration_validator/gui/sessions.py:112-121 | a failure completes a streak exactly when it is the last of `threshold` failures, each at most `lockout` after the one before, none of which completed one earlier and during which no lock ended |
| Throttle.EarlierReadingSeesPruning | migration_validator/gui/sessions.py:95-110 | for a reading from before a pruning the answer differs exactly when the entry was still locked then |
| Throttle.StepRefines | migration_validator/gui/sessions.py:103-125 | a pruned table keeps lacking only stale entries |
| Throttle.FailureKeepsSpacing | migration_validator/gui/sessions.py:112-121 | one guarded failure keeps failures `threshold` apart at least `lockout` apart |
| Throttle.SpacedFailuresPerWindow | migration_validator/gui/sessions.py:80-121 | spaced failures put at most `threshold` into a window |
| Throttle.LoginThrottle.Retry | migration_validator/gui/sessions.py:95-101 | 0 exactly when not locked, otherwise the remaining seconds rounded up |
| Throttle.LoginThrottle.Failure | migration_validator/gui/sessions.py:103-121 | the new table |
| Throttle.LoginThrottle.Success | migration_validator/gui/sessions.py:123-125 | forgets that (name, IP) only |
| TargetRules.TargetsExactly | migration_validator/probes/ping.py:179-418 | a target, with its origin, routing instance and interface, is resolved if and only if some pinged scope has it by the rules: a configured BGP neighbor; without one, a trusted host of the old box in a subnet of the scope; without either, a trusted neighbor on an interface of the scope, or the lowest free address of a point-to-point subnet in which nothing is known |
| PingTargets.FallbackIsLeast | migration_validator/probes/ping.py:58-100 | the fallback is the least usable address that is not owned, and None exactly when the subnet is too large or has none |
| PingTargets.EndsNameEachOther | migration_validator/probes/ping.py:58-100 | the two host ends of any IPv4 /30 or /31 are offered each other |
| PingTargets.SubnetFallback | migration_validator/probes/ping.py:58-100 | the loops return the fallback of the first address that has one |
| PingTargets.OneTierNeverOwn | migration_validator/probes/ping.py:253-418 | all targets of a scope and family come from one tier, the best that has any, and none is an own address |
| PingTargets.FallbacksAreSound | migration_validator/probes/ping.py:392-416 | a fallback lies in the subnet that asked for it, is usable there, and each distinct subnet asks at most once |
| PingTargets.LastTierCovers | migration_validator/probes/ping.py:385-416 | in the last tier a configured subnet has a target, or remote evidence, or is not eligible, or has no free address |
| PingTargets.ResolveTargets | migration_validator/probes/ping.py:198-418 | the loop over the scopes yields each pinged scope's targets, IPv4 before IPv6 |
| PingTargets.ResolveFamily | migration_validator/probes/ping.py:241-416 | the targets of one family by the tier order |
| PingTargets.AddFallbacks | migration_validator/probes/ping.py:392-416 | the loop over the configured subnets with its growing list of covered addresses |
| PingTargets.OversizedSubnetsWithoutTargets | migration_validator/checks/reachability.py:408-444 | the subnets the report explains, in the order of the selectors |
| PingTargets.OversizedIsExact | migration_validator/checks/reachability.py:408-444 | exactly the subnets below the threshold without a target of their family, each once |
| PingTargets.SilenceIsExplained | migration_validator/checks/reachability.py:408-444 | every subnet the last tier leaves without a target is listed, or has remote evidence, or is a single host, or has no free address |
| Ownership.NoBgpRecordVanishes | migration_validator/engine.py:459-503 | every BGP record is claimed by a scope, which shows it or counts it as ambiguous, or is listed as unassigned, never both; each scope's view and ambiguous counts add up |
| Ownership.NoBfdRecordVanishes | migration_validator/engine.py:562-618 | the same for BFD sessions over scopes other than Core loopback |
| Ownership.NoRouteVanishes | migration_validator/engine.py:506-559 | every route is wanted by a scope or listed, and a scope shows all its routes exactly when their keys are distinct |
| Ownership.SelectBgpExactly | migration_validator/models/scope.py:215-247 | a scope selects exactly the records with a configured or deactivated address in its instance, the first of an IPVPN service and none of any other, each as often as reported |
| Ownership.SelectBfdExactly | migration_validator/models/scope.py:248-297 | and exactly the sessions on its interfaces with its neighbors, or of a Core transit, and multihop ones without a session of its own on an interface |
| Ownership.LastRecordIsShown | migration_validator/models/scope.py:376-382 | of several route records of one wanted key the last one is shown |
| Ownership.ViewPlusAmbiguousIsAll | migration_validator/models/scope.py:64-79 | view size plus ambiguous counts is the number of selected records |
| Ownership.ShownOrAmbiguous | migration_validator/models/scope.py:64-79 | a selected record is in the view itself, or its key is counted as ambiguous with at least two |
| Ownership.ByKey | migration_validator/models/scope.py:64-79 | the grouping loop gives the view and the ambiguous counts |
| Ownership.SelectRoutes | migration_validator/models/scope.py:376-382 | the loop over the routes; a later record of the same key replaces the earlier |
| Ownership.RouteViewShows | migration_validator/models/scope.py:376-382 | the route view has exactly the wanted keys, each with a record of that key |
| Ownership.RouteViewSize | migration_validator/models/scope.py:82-109 | it has as many entries as wanted records exactly when no two share (rib, prefix, protocol) |
| Ownership.NeverMixesHops | migration_validator/models/scope.py:248-297 | one scope never mixes single-hop and multihop sessions of one neighbor |
| Ownership.CoreLoopbackSessionShowsTwice | migration_validator/engine.py:596-618 | the exception: a Core loopback's multihop session is selected and listed as unassigned |
| BgpCheck.EveryRowIsJustified | migration_validator/checks/bgp.py:136-352 | every row's outcome and values follow from the two configurations and the number of records on each box: SKIP exactly for several now, UNCHANGED exactly for a measured baseline with the same unambiguous condition, and for a deactivated peer without a session BROKEN exactly when the baseline had it as active, DEGRADED otherwise |
| BgpCheck.RecordsAre | migration_validator/models/scope.py:321-324 | the records counted are those the scope owns at that address |
| BgpCheck.RowsExactly | migration_validator/checks/bgp.py:142-166 | the addresses with a row are those configured or deactivated now and those with just one record now or before |
| BgpCheck.RowsInOrder | migration_validator/checks/bgp.py:168-300 | peers with one session come first, then deactivated ones, then the others, each part sorted |
| BgpCheck.OneRowPerAddress | migration_validator/checks/bgp.py:142-166 | an address has a row exactly when it is configured, deactivated, measured or was measured, and just one for all of them exactly when no deactivated peer without a session is configured twice |
| BgpCheck.FactsCountRecords | migration_validator/models/scope.py:321-324 | one owned record is the peer's state, several make it ambiguous, and owned records belong to configured or deactivated peers |
| BgpCheck.RowIsJustified | migration_validator/checks/baseline.py:26-31 | the outcome for given record counts, with UNCHANGED behind its one gate |
| BgpCheck.RowIsTruthful | migration_validator/checks/bgp.py:169-351 | the value and the baseline value shown are those of the records |
| BgpCheck.AmbiguousBaselinePeerIsForgotten | migration_validator/checks/bgp.py:153-158 | a peer ambiguous in the baseline and no longer configured has no row |
| BgpCheck.Run | migration_validator/checks/bgp.py:136-352 | the three loops give the rows of measured, deactivated and missing peers, each part sorted |
| BgpCheck.MeasuredRows | migration_validator/checks/bgp.py:168-238 | the first loop |
| BgpCheck.InactiveRows | migration_validator/checks/bgp.py:254-298 | the second loop |
| BgpCheck.MissingRows | migration_validator/checks/bgp.py:300-351 | the third loop |
| LinkedBlocks.TogetherExactly | migration_validator/engine.py:258-324 | in the final order an L3 block is followed at once by exactly its L2 blocks in their order if and only if the L2 blocks stand under one port, or all under none with a block, or lie across the end of the last port's section |
| LinkedBlocks.LinkedBlocksStayTogether | migration_validator/engine.py:286-324 | sharing one parent port is enough, and when every L2 block hangs off a port with a block it is necessary as well |
| LinkedBlocks.TwoPortsTearApart | migration_validator/engine.py:286-299 | two L2 blocks on two ports with blocks are never in one piece with their L3 block |
| LinkedBlocks.BridgeIsTornApart | migration_validator/engine.py:286-299 | every bridge domain with an IRB and two access ports of its own is torn apart |
| LinkedBlocks.RunTogetherExactly | migration_validator/engine.py:302-324 | for any run of services: it stays in one piece through the grouping if and only if it has one home, or lies across the end of the last port's section |
| ReportPlaces.PlaceOfService | migration_validator/engine.py:286-324 | a service stands under the block of the first physical port of the block that carries it, the first L2 block in the results for an L3 block, or behind all port blocks when that port has none |
| ReportPlaces.BothSides | migration_validator/engine.py:227-255 | each link is told on both sides, with interfaces, instances and the routing table of master |
| ReportPlaces.FollowersAre | migration_validator/engine.py:260-267 | the L2 blocks that follow an L3 block are those that name it |
| ReportOrder.ReportKeepsAllResults | migration_validator/engine.py:258-324 | with distinct ids, distinct ports and no chains the whole pass is a permutation |
| ReportOrder.ReorderIsPermutation | migration_validator/engine.py:258-274 | reordering is a permutation exactly when no moving block waits for one that moves itself |
| ReportOrder.GroupIsPermutation | migration_validator/engine.py:302-324 | grouping is a permutation exactly when no two L1 blocks share a port |
| LinkedBlocks.LinkedHasNoChains | migration_validator/engine.py:227-255 | results with payloads of well-formed links have no chains |
| ReportOrder.LinkPayloads | migration_validator/engine.py:227-255 | an L2 side names its L3 side with interface and instance, an L3 side lists all its L2 sides in order with theirs |
| ReportOrder.CollectFollowers | migration_validator/engine.py:260-267 | the first pass collects the moving blocks by their L3 block |
| ReportOrder.ReorderLinked | migration_validator/engine.py:258-274 | both passes give the reordering |
| ReportOrder.EmitBlocks | migration_validator/engine.py:268-274 | the second pass emits each staying block with its followers |
| ReportOrder.GroupByLayer1 | migration_validator/engine.py:302-324 | the loop over the ports gives the grouping |
| Accounting.EveryScopeIsAccounted | migration_validator/engine.py:648-752 | in every mode each subject scope is shown, skipped by the profile, excluded as another step's or ignored by the mapping, exactly one of these; every unmatched scope is listed or excluded |
| Accounting.ReportShowsTheBooks | migration_validator/engine.py:754-773 | the reordered report shows as many scopes as were evaluated |
| Conservation.WhereABgpRecordIs | migration_validator/engine.py:658-752 | a BGP record is shown or listed as unassigned, never both, and in neither place exactly when it has an owner and all its owners are left out by the profile, of another step or ignored |
| Conservation.WhereABfdRecordIs | migration_validator/engine.py:596-618 | the same for BFD, and both exactly when a shown scope owns it and all its owners are Core loopbacks |
| Conservation.WhereARouteIs | migration_validator/engine.py:658-752 | the same for the key of a route |
| Conservation.ShownExactly | migration_validator/engine.py:658-742 | a subject scope has a result exactly when it is in the profile, not of another step and not ignored |
| Conservation.ProfileHidesAPeer | migration_validator/engine.py:661-665 | any peer of an only service that the profile leaves out is in neither place |
| Accounting.Evaluate | migration_validator/engine.py:658-752 | the loops keep these books |
| Accounting.Route | migration_validator/engine.py:694-732 | unmatched scopes of another step, and the others |
| Accounting.Sift | migration_validator/engine.py:641-665 | what the profile keeps and how many it skips |
| Accounting.CountStatuses | migration_validator/models/result.py:33-43 | each counter counts its status and the six add up to the number of rows |
| Accounting.CountUnchanged | migration_validator/models/result.py:123-124 | the number of marked rows |
| Accounting.UnchangedRowsPass | migration_validator/checks/base.py:183-192 | `pass_unchanged` is at most `pass`, whatever the checks found |
| ScopeStatus.StatusExactly | migration_validator/checks/base.py:183-256 | a scope fails exactly when a check that ran reports something broken at critical severity, warns when none does but one reports something degraded or broken at advisory severity, and so on down to SKIP |
| ScopeStatus.RowsOfCheck | migration_validator/checks/base.py:183-256 | one row for each finding of a check that ran, marked exactly for UNCHANGED; one SKIP for a check kept from running; none for one that is off or does not apply |
| Accounting.ScopeStatusIsWorst | migration_validator/models/result.py:24-30 | a scope is SKIP exactly when only SKIP was reported, otherwise the worst of the other rows |
| Profiles.StripIsCanonical | migration_validator/profiles/store.py:56-93 | among accepted sections with known checks and options the stripped forms are equal exactly when the settings and the empty checks are |
| Profiles.StripPreservesSettings | migration_validator/config.py:94-104 | stripping keeps a section loadable and every `enabled`, severity and known option of every registered check |
| Profiles.StripIsIdempotent | migration_validator/profiles/store.py:56-93 | stripping twice is stripping once, for any section |
| Profiles.EmptyCheckSurvives | migration_validator/profiles/store.py:69-71 | an empty check sets nothing and is not stripped |
| Profiles.StripExactly | migration_validator/profiles/store.py:56-93 | stripping keeps exactly the overrides that differ from what holds without them, the checks left with one, and entries that are no mapping or no known check |
| Profiles.SettingsExactly | migration_validator/config.py:94-104 | the settings of a check are what the section gives, else the default, else enabled with the severity of the registry |
| Profiles.AcceptedExactly | migration_validator/config.py:49-87 | a section loads exactly when each check is empty or a mapping with a known severity, a boolean `enabled` and options of their default's type |
| Profiles.StripCheckDefaults | migration_validator/profiles/store.py:56-93 | the nested loops drop exactly the redundant overrides and the checks left without any |
| Profiles.ValidateChecks | migration_validator/config.py:49-87 | the loops accept exactly the sections whose options have their types |
| Profiles.DefaultsAreSensible | migration_validator/config.py:13-20 | the table of defaults meets what the theorems ask of it |
| Manifest.LockedPairingStays | migration_validator/api.py:510-575 | over every run from a created one, a pairing of the two boxes that was locked once is present and locked ever after, and no old endpoint ever has two partners |
| Manifest.UpdateAndLocks | migration_validator/api.py:527-575 | an update goes through exactly when its pairs are consistent and contain every locked pairing's ports; a locked pairing survives exactly when it lies between the old and the new box |
| CapturedPairings.RefusedExactly | migration_validator/api.py:527-575 | an update is refused exactly when the run lacks its two boxes, or the pairs contradict each other, or leave out a pairing for which a record names the old or the new node with that end's port or none |
| CapturedPairings.AcceptedUpdate | migration_validator/api.py:560-572 | an accepted update leaves exactly the wanted pairings of the two boxes |
| CapturedPairings.CapturedPairingStays | migration_validator/api.py:510-575 | over every run, once either end of a pairing of the two boxes or the whole of either box is captured, the pairing is there in every later state |
| CapturedPairings.AddedExactly | migration_validator/runs/manifest.py:120-129 | a pairing that is there changes nothing, one whose old end is paired otherwise is refused, any other goes last as given |
| CapturedPairings.RecordedIsFound | migration_validator/runs/manifest.py:131-152 | a record is found by its phase, box and port, and recording hides no other |
| CapturedPairings.AcceptedCapture | migration_validator/runs/orchestrate.py:298-331 | an accepted capture adds its record and, when it was unknown, its box |
| CapturedPairings.AcceptedExactly | migration_validator/runs/manifest.py:155-176 | a capture is accepted exactly for a known box, or one more whose role is free |
| CapturedPairings.KindFitsExactly | migration_validator/runs/manifest.py:155-176 | which boxes a run of each kind may have |
| LockLoss.UpdatesAre | migration_validator/api.py:527-575 | an event counts as an update exactly when it is one and goes through in the state before it |
| LockLoss.CanBeLostExactly | migration_validator/api.py:510-575 | in any state of a created run a locked pairing can be lost later on if and only if it does not lie between the old and the new box and the locked ports are consistent |
| LockLoss.ThereUntilUpdated | migration_validator/api.py:527-575 | over every run a pairing of other nodes is there exactly when it was made, or there at first, and no update went through since, locked or not |
| LockLoss.LosingRunLoses | migration_validator/api.py:527-575 | a run of pairing, capture and update after which a locked pairing is gone |
| Manifest.RebuiltHolds | migration_validator/api.py:560-572 | the rebuilt mapping has exactly the wanted pairs, and exists exactly when no old port gets two new ones |
| Manifest.UpdateMapping | migration_validator/api.py:527-575 | the update as the code runs it, refusals included |
| Manifest.RunKeepsBetween | migration_validator/runs/manifest.py:155-176 | in every state each old endpoint maps to at most one new one and the two boxes stay the same |
| Manifest.CreatedIsBetween | migration_validator/api.py:135-198 | a created run starts that way |
| Manifest.LockSurvivesUpdate | migration_validator/api.py:510-524 | an update keeps a locked pairing of the two boxes |
| Manifest.LockSurvivesCapture | migration_validator/runs/orchestrate.py:298-331 | recording a capture keeps it locked |
| Manifest.AddedIsInsertion | migration_validator/runs/manifest.py:120-129 | adding keeps everything, adds the pairing, and fails exactly when the old endpoint has another partner |
| Manifest.PairedNewFindsThePartner | migration_validator/runs/manifest.py:110-118 | the partner is found exactly when there is one |
| Manifest.CapturesAreAMap | migration_validator/runs/manifest.py:131-152 | recording and finding captures behave as a map from (phase, device, port) |
| Manifest.CapturesUniqueExactly | migration_validator/runs/manifest.py:131-152 | captures are unique per (phase, device, port) after a run exactly when no accepted capture of a port "all" met a whole-box one of its phase and box |
| Manifest.EventKeepsUnique | migration_validator/runs/manifest.py:131-140 | one event keeps them unique exactly when it does not clash, as find_capture would show before |
| Manifest.LostStaysLost | migration_validator/runs/manifest.py:131-140 | a lost uniqueness never returns |
| Manifest.CapturesStayUnique | migration_validator/runs/manifest.py:131-140 | without a port named "all" captures are unique in every state |
| Manifest.PortNamedAllBreaksUniqueness | migration_validator/runs/manifest.py:189-192 | a port named "all" beside a whole-box capture gives two records of one key |
| Manifest.RunManifest.AddMapping | migration_validator/runs/manifest.py:120-129 | the scan and what it changes |
| Manifest.RunManifest.RecordCapture | migration_validator/runs/manifest.py:131-140 | the scan replaces the record of the key or appends |
| Manifest.RunManifest.FindCapture | migration_validator/runs/manifest.py:142-152 | the first record of the key |
| ManifestFile.LoadUndoesSave | migration_validator/runs/manifest.py:189-294 | a manifest that fits its kind can be saved, loads as itself but for ports named "all", and load undoes save exactly when there is none |
| ManifestFile.SavedField | migration_validator/runs/manifest.py:254-294 | what a saved manifest holds under every key |
| ManifestFile.DeviceFields | migration_validator/runs/manifest.py:267-274 | what is written about a box |
| ManifestFile.MappingFields | migration_validator/runs/manifest.py:247-278 | what is written about a pairing and its ends |
| ManifestFile.LoadedFits | migration_validator/runs/manifest.py:202-244 | whatever loads has the schema version, a known kind and boxes that fit it |
| ManifestFile.RecordComesBack | migration_validator/runs/manifest.py:189-199 | one capture record, with the whole box written as "all" |
| ManifestFile.EndpointComesBack | migration_validator/runs/manifest.py:183-186 | one endpoint, with its optional switch |
| ManifestFile.DeviceComesBack | migration_validator/runs/manifest.py:179-180 | one device |
| Multicast.EveryCoveredRouteOnce | migration_validator/checks/multicast.py:538-561 | a covered route is in exactly one list, once, that of a longest covering prefix; an uncovered one in none |
| Multicast.OnlyTableRoutes | migration_validator/checks/multicast.py:552-560 | nothing else is ever assigned |
| Multicast.ScanIsLongestMatch | migration_validator/checks/multicast.py:550-560 | scanning the prefixes sorted by length finds the Longest Match of section 5.2.4.3 of RFC 1812 |
| Multicast.LongestMatchIsLongest | migration_validator/checks/multicast.py:541-543 | the rule's choice covers, is longest, and is the first of the longest |
| Multicast.AssignSources | migration_validator/checks/multicast.py:538-561 | the loops give the assignment, each key with its route |
| Uptime.ParserUndoesPrinter | migration_validator/checks/multicast.py:165-172 | parsing a printed uptime gives it back from 0 on, and None for the missing one and for negative numbers |
| Uptime.PrintedExactly | migration_validator/checks/multicast.py:165-172 | days, hours, minutes and seconds print as two figures each between colons, after the days and a "d " when there are any, with the days of a negative uptime rounded down |
| Uptime.ParserIsTheGrammar | migration_validator/collectors/isis.py:30-55 | the parser accepts exactly the texts of the week/day/clock grammar, with their value |
| Uptime.GrammarIsParsed | migration_validator/collectors/isis.py:30-32 | no text has two values |
| Routes.ChangeMeansDifferentHops | migration_validator/checks/routes.py:440-468 | for next-hops without commas, "next-hop changed" is reported exactly when an active route has another multiset of next-hops than in the baseline, none and a lone "-" counting as one |
| Routes.OrderIsIrrelevant | migration_validator/checks/routes.py:65-78 | permuting next-hops in either snapshot leaves outcome, values and message unchanged |
| Routes.TextTellsHopsApart | migration_validator/checks/routes.py:65-78 | texts are equal exactly for equal multisets, but for a lone "-" |
| Routes.HiddenChanges | migration_validator/checks/routes.py:65-78 | a single next-hop spelled like a whole list of none or several hides the change between them from the verdict, in either direction |
| Routes.RaisedIsMaximum | migration_validator/checks/routes.py:492-545 | the annotated outcome has the maximum rank over the outcome and the deactivated next-hops, and the original is kept on ties |
| Routes.AnnotateInactiveHops | migration_validator/checks/routes.py:492-545 | the loop; only OK, RECOVERED and DEGRADED reach it, so its rank lookup is total |
| Routes.RouteFinding | migration_validator/checks/routes.py:392-489 | the finding of one route as the branches give it |
| Routes.DegradedVerdicts | migration_validator/checks/routes.py:392-489 | exactly when a route is DEGRADED, by the same |
| Routes.ValueShown | migration_validator/checks/routes.py:111-299 | the value shown, by the records and the configuration |
| Routes.BaselineShown | migration_validator/checks/routes.py:111-299 | the baseline value shown, and when none is |
| Routes.AnnotationShown | migration_validator/checks/routes.py:492-545 | the deactivated next-hops are listed exactly for an active route that has any, and called unfinished exactly when it is BROKEN |
| Routes.HopTextIs | migration_validator/checks/routes.py:65-78 | how next-hops are spelled |
| Routes.GoodVerdicts | migration_validator/checks/routes.py:111-299 | by the records and the configured next-hops: exactly when a route is OK, RECOVERED, UNCHANGED or SKIP |
| Routes.BrokenVerdicts | migration_validator/checks/deactivation.py:23-52 | by the records and the configured next-hops: BROKEN exactly for a regression, an unexplained absence, or something newly switched off |

## Left out

- NETCONF, XML, YAML and JSON text, gzip and the file system: a file is an abstract version with a key, a document a tree, a reply an element or a value.
- Writers that edit a file in place: every replacement of a file is one atomic installation, as the code's rename makes it.
- A thread that cannot be started, whose task stays queued for ever because it is stored before, and an error that is no `Exception` in a worker, whose task stays running after its slot is freed: every queued task gets a worker, every running one ends as done or failed.
- HTTP routes, cookies, the command line, audit logging and the static web pages.
- Password hashing and token generation: tokens are assumed fresh.
- Why a login that was let in may report nothing, as for a name that is no valid user name: in the model it stays in flight.
- RPC names with a leading underscore, which raise AttributeError, and the recorded device facts.
- `filter_xml` values that are not elements: they count as no filter.
- The ping itself and the reading of its output.
- Unicode digits and blanks in uptimes, and the `seconds` attribute, which the text branch only replaces.
- YAML `.nan` as an option value; the error texts and which error is reported first.
- The narrowing of the unassigned lists to one port, their order and their columns; the natural order of ports, which is a parameter.
- Scope selection for areas other than BGP, BFD and routes.
- The matcher, linker and service parser are not part of this model: the matcher is assumed to partition the services, links to be well formed.
- BGP prefix counts, aggregate routes, PIM, EVPN and the other checks; message wording, labels and families.
- White space around ports in a mapping update, and text fields of a manifest that hold other YAML values, which loading keeps as they are.
- Writes to `run.yml` by several processes: manifest operations follow one another.
- The summary cache of the run groups, whose key is taken after loading.
- FileCache.CachedFile.Get: one thread over a file that stays the same during the call; interleavings are the subject of the theorems.
- Throttle.AtMostThresholdPerWindow: judges each failure by `retry_after` at that instant; the route, which asks earlier, is the subject of LoginRoute.LargestPerWindow.
- Accounting.Evaluate: keeps the scopes and the counts, not the results themselves.
