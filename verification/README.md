# Verification of the cluster power manager node agent

A Dafny model of the parts of the cluster power manager in which a mistake would leave a
CPU in the wrong pool or at the wrong frequency, with proofs of what they promise. Run
`dafny verify dfyconfig.toml`.

## What is modelled

**The pool state machine** (`views.dfy`, `slices.dfy`, `settings.dfy`, `pools.dfy`,
`runs.dfy`). A host keeps every CPU in the reserved pool, the shared pool or a named
exclusive pool. The class `Host` holds the state twice, as the code does: a back-pointer per
CPU and an unordered list per pool, plus the registered pools as a Go slice (a real array
with a captured length) and the control files of every CPU. `Valid()` is the invariant: each
CPU is in exactly one registered list, once, and that list is its back-pointer's; pool names
are unique; and as long as no profile failed to apply, every CPU outside reserved is set as
its pool's profile prescribes. Every public operation, failing ones included, keeps it, and
states its effect on the abstract map from CPU to pool (a `View`). A hardware write may fail
at any time. The ghost counter `faults` counts the times a profile could not be applied to a
CPU, and `failedWrites` those of them that were failed writes; every operation states the
cause of a fault, which is a failed write or a CPU that cannot meet its pool's profile
(`Excuse`, and exactly in the contracts of the single operations). The main results therefore
read: if no write fails and every carried profile can be met. Without faults a call does to the
view what the function `Apply` says, failing calls included, and a run of calls what `ApplyAll`
says; `RunFromStart` carries that and the settings from the start of a host to the end of any
run of calls, with no hypothesis but those two.

**The procedures on top of it** (`nodeconfig_views.dfy`, `nodeconfig.dfy`, `aliasing.dfy`,
`aliasing_host.dfy`, `pods.dfy`, `profiles.dfy`, `interplay.dfy`). Applying a node configuration,
cleaning it up, moving the CPUs of pods in and out, propagating a changed profile and deleting
one. Each method is proved to end in a function of the first view, and lemmas say what that
function means: the exact result of a configuration, idempotence, the record of live pods and
the CPUs beyond it, no old profile version left. `interplay.dfy` puts the controllers side by
side: what a configuration does to the record of pods, the deletion of a pod to a configuration,
and replacing a configuration to a profile that is deleted and created again. Two loops range
over a slice whose backing array the loop body shortens by swap-removal; these run on a real
array. `aliasing.dfy` replays the CPU lists themselves on real arrays, for the places
where a captured header shares its array with the list being edited, and `aliasing_host.dfy`
proves that a valid host provides what the replay needs and ends in the lists it leaves.

**Derived state and arithmetic** (`settings.dfy`, `uncore.dfy`, `topology.dfy`,
`scaling.dfy`, `telemetry.dfy`). P-state clamping and percentages with Go's integer widths,
the uncore hierarchy, topology discovery, the frequency control loop and the telemetry
windows it reads.

**CPU lists** (`text.dfy`, `cpulists.dfy`). The two printers and the two parsers of the CPU
list format ("List format" in the FORMATS section of cpuset(7)).

**Admission and selection** (`admission.dfy`). Which configuration may exist, and which
one a node picks.

Methods are proved against functions, and each of these functions has a law that is told without
it: by names, CPU numbers, kHz, labels or letters. The law is a lemma (`AcceptedIff`,
`NewUncoreExact`, `CallsMean`) or an `ensures` of the operation itself, where the effect can be
seen in the control files, the pools or the record.

## Where code and documentation differ

- `AcceptedAbsoluteProfile`: a profile whose minimum passes validation in whole MHz is still
  refused on every core if the system minimum is not a whole MHz and the request rounds below it.
- `AcceptedTextProfile`, `PercentagesAboveRange`: validation accepts `"50"` without a percent sign,
  which no core carries out, and percentages above 100, which the resource definition keeps out.
- `CreateReachesAllIff`, `RecreatedProfileIsStaleIff`: when a profile is created again, a reserved
  group's pool that outlived it keeps the old version; only the update branch reaches all pools.
  Admission forbids deleting a profile that a configuration names
  (api/v1alpha1/powerprofile_webhook.go:126-148), unless it is switched off. With admission it takes
  `ReplaceDeleteRecreate`: the configuration is first replaced by one that does not name the
  profile and that the node does not accept, so that its pools stay.
- `HandleProfileDeletion`: the comment promises that the profile is removed from the power library
  (controllers/powerprofile_controller.go:235-237); its pool is removed only if the shared pool
  carries the profile.
- `DeletionAfterRequeueLeaks`: a reconcile that is cut short half way has moved CPUs it has not
  recorded; if the pod is then deleted, they stay in the profile pool.
- `CreateAgainForgets`: a recorded container that is reconciled again when its profile is no longer
  available is recorded without its CPUs (controllers/powerpod_controller.go:338-352), which stay in
  the profile pool.
- `RepeatedDeletionIff`: a deletion that could not write the status is tried again while the pod
  object exists, and then takes CPUs that have been handed to another pod since.
- `AccountedAfterConfigIff`, `DeletionKeepsGroupsIff`: a configuration takes CPUs from live pods
  without touching the record, and the deletion of such a pod takes them from the reserved group.
- `ContainsReachesSameIff`, `ContainsCanReachMore`: special reserved pools are found with
  `strings.Contains`, not by prefix (controllers/powerprofile_controller.go:203); it matters only for
  a pool that contains the text elsewhere and carries a profile it is not named after.
- `NewUncoreWithinHardware`: a normalised uncore minimum stays above the hardware minimum for
  every accepted request only if that minimum is a multiple of 100,000 kHz.
- `UsageExactIff`: a telemetry window of 2^64/100 busy cycles or more is reported too low.
- `RelabellingKeepsOneIff`: admission keeps one configuration per node only while no label is
  changed to one that two configurations match.

## Model

| member | source | states |
|---|---|---|
| Views.SetMembersExact | internal/power/pool.go:130-145 | a pool's membership becomes exactly the requested CPUs; evicted CPUs go to the neighbouring pool; no other CPU moves |
| Views.MoveReaches | internal/power/cpu.go:66-111 | moves that are allowed never take a CPU from one non-shared pool to another |
| Views.ReplaceReaches | internal/power/pool.go:185-219 | replacing a pool's membership, even in part, obeys the same restriction |
| Slices.SwapRemovedElements | internal/power/cpu.go:212-221 | swap-removal from a list without repetition drops exactly one element and repeats none |
| Slices.Remove | internal/power/pool.go:319-328 | the slot overwritten is the first that holds the element; the slot behind the new end keeps its content |
| Slices.Append | internal/power/pool.go:330-332 | append writes in place while there is capacity and copies otherwise |
| Pools.Host.constructor | internal/power/host.go:78-125 | every CPU starts in the reserved pool, once, and nothing else is registered |
| Pools.Host.DoSetPool | internal/power/cpu.go:114-135 | the CPU changes pools exactly if no write fails and it can meet the new pool's profile; otherwise membership is rolled back; the partition of CPUs into lists survives both; it stands last on the list it is on then |
| Pools.Host.SetPool | internal/power/cpu.go:66-111 | succeeds exactly for moves through shared (or none), without a failed write, of a CPU that can meet the new profile; without faults exactly if it is there already, is shared or goes to shared; the panic branch is unreachable |
| Pools.MoveKeepsPartition | internal/power/cpu.go:114-135 | the two list edits of a move keep each CPU in exactly one list, its back-pointer's |
| Pools.RollbackKeepsPartition | internal/power/cpu.go:125-129 | so does taking a CPU out and appending it again |
| Pools.ConsolidateAll | internal/power/pool.go:72-83 | applies a profile to each listed CPU and touches no other; fails exactly if a write fails or a listed CPU cannot meet the profile |
| Settings.Consolidate | internal/power/cpu.go:52-62 | succeeds exactly if no write fails and the range can be met; the control files then hold the governor, the energy preference unless it is left empty, the clamped or scaled range, and a state is disabled exactly if its latency is above the limit, or, without a limit, as the list says, or by default; files of an unsupported feature are not touched |
| Settings.SettledSays | internal/power/c_states.go:163-198 | what a settled CPU's control files say, in numbers: range, governor and preference of its profile or the defaults, and for every idle state whether it is disabled |
| Pools.Host.MoveCpus | internal/power/pool.go:34-41 | a failing call has moved exactly the CPUs listed before the one that failed; success exactly if all moves are allowed, no write fails and every CPU that moves can meet the profile |
| Pools.Host.MoveCPUIDs | internal/power/pool.go:229-238 | as MoveCpus; unknown ids change nothing; success exactly if all ids are known, all moves allowed and no profile failed |
| Pools.Host.PlaceCpu | internal/power/pool.go:257-275 | one round of each pool kind's setCpus: bring in, evict to the right neighbour, or leave alone |
| Pools.Host.SetCpus | internal/power/pool.go:185-219 | success makes the membership exactly the request; a failure has processed the host's CPUs below the one it stopped at, which is, without a fault, a requested CPU that may not come in; exactly when it succeeds, in terms of allowed moves, failed writes and profiles that can be met |
| Pools.Host.Rounds | internal/power/pool.go:185-219 | how far the loop gets, and that it stops only at a forbidden move, a failed write or a CPU that cannot meet its next profile |
| Pools.Host.SetCPUIDs | internal/power/pool.go:245-254 | as SetCpus, with the CPU it stopped at; unknown ids are refused before anything changes |
| Pools.Host.SetPowerProfile | internal/power/pool.go:72-83 | stores the profile, settles every CPU of the pool exactly if no write fails and all of them can meet it, touches no other CPU; reserved refuses |
| Pools.DropKeepsPartition | internal/power/pool.go:277-285 | unregistering a drained pool keeps the partition and the list of unique names |
| Pools.ListFeasible | internal/power/pool.go:72-83 | whether a pool's CPUs can meet a profile is the same question for its list and for the back-pointers |
| Pools.Host.Unregister | internal/power/pool.go:319-328 | exactly the named pool disappears, and which slot of the slice was overwritten |
| Pools.Host.RemovePool | internal/power/pool.go:277-285 | drains to shared and unregisters exactly that pool, exactly if no write fails and its CPUs can meet the shared profile; shared and reserved refuse |
| Pools.Host.AddExclusivePool | internal/power/host.go:270-285 | adds an empty pool exactly if the name is free |
| Pools.Host.GetExclusivePool | internal/power/host.go:289-291 | finds a pool exactly if it is registered |
| Runs.Perform | internal/power/pool.go:229-285 | any public call on any state keeps the host valid; a successful one has its stated effect, a failing one exactly the stated part of it; without faults whether it succeeds and what it does is the function Apply; a fault has a failed write or a profile that cannot be met behind it |
| Runs.CallsMean | internal/power/pool.go:229-285 | call by call, CPU by CPU and pool by pool: exactly which calls go through and what each of them leaves behind |
| Runs.MovableIds | internal/power/pool.go:34-41 | where a move stops: at the first listed CPU that may not go there |
| Runs.FirstBarred | internal/power/pool.go:185-219 | where setting a membership stops: at the first requested CPU of the host that may not come in |
| Runs.Run | internal/power/host.go:68-75 | every run of operations keeps each CPU in exactly one registered list, its back-pointer's, with pool names unique; while no profile fails to be applied it refines the machine on views, and one fails only by a failed write or a stored profile that cannot be met |
| Runs.RunFromStart | internal/power/host.go:78-125 | after any run from the start without failed writes and with profiles that can be met, each CPU is where the machine on views puts it and every CPU outside reserved is set as its pool's profile prescribes; what that is in numbers, as in SettledSays |
| Runs.ThroughShared | internal/power/cpu.go:66-111 | in every run a CPU passes through shared between two different other pools |
| Runs.SettingsDependOnPoolOnly | internal/power/p_states.go:225-277 | after any two runs from any control files, without failed writes and with profiles that can be met, governor, range and idle states agree on every CPU that ends in pools with the same profile; energy preference too unless left empty |
| Runs.SettledCpusAlike | internal/power/p_states.go:225-277 | two settled hosts agree on every CPU outside reserved whose pools carry the same profile |
| Aliasing.MoveRange | internal/power/pool.go:34-41 | moving a captured header out of the list it shares an array with visits every original CPU exactly once, up to the first whose profile fails, which is put back |
| Aliasing.MoveNext | internal/power/cpu.go:114-135 | one such move writes no slot ahead of the loop |
| Aliasing.PutBack | internal/power/cpu.go:125-129 | the roll-back keeps the list's CPUs, and the CPU stands last afterwards |
| Aliasing.AbsorbPool | controllers/powernodeconfig_controller.go:326-338 | the moved list and the shared list hold the same CPUs even while both write the same spare slots |
| Aliasing.CleanupLists | controllers/powernodeconfig_controller.go:325-340 | for every capacity the shared list ends empty and reserved gains each CPU once |
| AliasingHost.ChosenListsPermute | internal/power/pool.go:257-275 | a pool's list and the order in which draining visits its CPUs hold the same CPUs, on every valid host |
| AliasingHost.DrainedIsShared | internal/power/pool.go:257-275 | draining one more pool adds exactly its CPUs, once each, to those that are shared |
| AliasingHost.MovedOnce | controllers/powernodeconfig_controller.go:325-338 | the CPUs gathered by the cleanup of a valid host are, once each, those that are shared once the pools are gone |
| AliasingHost.CleanupOfHost | controllers/powernodeconfig_controller.go:325-340 | the cleanup on the slices of a valid host, for every capacity, leaves the lists of the cleaned-up view |
| Aliasing.AtMostOnce | internal/power/cpu.go:212-221 | a list has no repetition exactly if every multiplicity is at most one |
| NodeConfigViews.PoolNamesDiffer | controllers/powernodeconfig_controller.go:344-346 | groups with different first cores get different pool names |
| NodeConfigViews.NamesInLetters | controllers/powernodeconfig_controller.go:344-346 | the name of a group's pool, in letters, and which pools count as pseudo-reserved |
| NodeConfigViews.CleanupExact | controllers/powernodeconfig_controller.go:325-340 | after cleanup shared is empty, no pseudo-reserved pool is left, profile pools keep CPUs and profiles, all other CPUs are reserved |
| NodeConfigViews.AfterGroupExact | controllers/powernodeconfig_controller.go:288-319 | one group lands alone in its own pool or in reserved, disturbing no group placed before |
| NodeConfigViews.AfterGroupsExact | controllers/powernodeconfig_controller.go:271-321 | so do all groups, one after the other |
| NodeConfigViews.NextPlaced | controllers/powernodeconfig_controller.go:288-319 | a group gets a pool of its own exactly if its profile has a pool |
| NodeConfigViews.ConfigExact | controllers/powernodeconfig_controller.go:248-321 | the steps of the controller end in exactly the configured pools, profiles and membership |
| NodeConfigViews.ConfigIdempotent | controllers/powernodeconfig_controller.go:149-194 | applying the same configuration again changes no CPU, pool or profile |
| NodeConfigViews.ResultIsGood | controllers/powernodeconfig_controller.go:149-194 | the end state is one the same configuration can be applied to again |
| NodeConfigViews.ResultServes | controllers/powernodeconfig_controller.go:248-321 | every core of a group is alone with its group in a pool with the named profile if that has one, else in reserved; CPUs outside the groups keep their profile pool or are shared; shared has the named profile; profile pools keep theirs |
| NodeConfigViews.ConfigTwice | controllers/powernodeconfig_controller.go:149-194 | the whole sequence of steps, applied a second time, is the identity |
| NodeConfigViews.StillAccepted | controllers/powernodeconfig_controller.go:199-245 | a configuration that has been applied is accepted again |
| NodeConfigViews.AcceptedIff | controllers/powernodeconfig_controller.go:199-245 | exactly which configurations are accepted, told by the cluster and the pools: a group without a profile never stands in the way |
| NodeConfigViews.ClearingKeepsAccepted | controllers/powernodeconfig_controller.go:229-234 | clearing the profile of a group never turns an accepted configuration away |
| NodeConfigViews.ResultFeasible | controllers/powernodeconfig_controller.go:344-365 | a configuration brings in no profile that was not carried before |
| NodeConfigViews.TouchesTransitive | controllers/powernodeconfig_controller.go:271-321 | leaving alone what is outside the cores and the pseudo-reserved pools composes over steps, failing ones included |
| NodeConfigViews.NoDupMeansDisjoint | controllers/powernodeconfig_controller.go:199-245 | a configuration that passes the disjointness check has disjoint groups |
| NodeConfigViews.NoDupMeansOnce | controllers/powernodeconfig_controller.go:217-226 | the disjointness check passes exactly if no core stands at two places of the groups |
| NodeConfig.PowerNodeConfigReconciler.RemovePseudoPools | controllers/powernodeconfig_controller.go:276-283 | removing pools while ranging over the captured slice removes exactly the pseudo-reserved ones; a failing run touches nothing else |
| NodeConfig.PowerNodeConfigReconciler.RemoveIfPseudo | controllers/powernodeconfig_controller.go:276-283 | one round of a loop over a captured header: no slot ahead of it is written |
| NodeConfig.PowerNodeConfigReconciler.CreateReservedPool | controllers/powernodeconfig_controller.go:344-365 | the group's pool is created with its profile and CPUs, or nothing remains of the attempt; whatever fails, only the group's cores and pseudo-reserved pools are touched |
| NodeConfig.PowerNodeConfigReconciler.ConfigureGroup | controllers/powernodeconfig_controller.go:288-319 | one round of the group loop, with its fall back to the default reserved pool; whatever fails, only the group's cores and pseudo-reserved pools are touched |
| NodeConfig.PowerNodeConfigReconciler.ConfigureGroups | controllers/powernodeconfig_controller.go:285-321 | all groups: an entry for each, exactly those carry an error whose profile has no pool, as many errors as entries that carry one, or a single one if the loop is cut short; what it has touched then |
| NodeConfig.PowerNodeConfigReconciler.ConfigureReservedPools | controllers/powernodeconfig_controller.go:271-321 | old pools go first, then the groups are placed; the entries and errors are those of ConfigureGroups, told by the profile pools before; a failing run leaves all other CPUs and pools alone |
| NodeConfig.PowerNodeConfigReconciler.ConfigureSharedPool | controllers/powernodeconfig_controller.go:248-267 | succeeds exactly if the named profile has a pool with a profile and nothing failed; the reserved CPUs then join shared |
| NodeConfig.PowerNodeConfigReconciler.GatherCores | controllers/powernodeconfig_controller.go:325-338 | the remembered cores are exactly the CPUs shared once the pools are gone |
| NodeConfig.PowerNodeConfigReconciler.CleanupPools | controllers/powernodeconfig_controller.go:325-340 | without failed writes, and with profiles that can be met, cleanup reaches the state CleanupExact describes; whatever fails, profile pools keep their CPUs and profiles |
| NodeConfig.PowerNodeConfigReconciler.ReservedCoresDistinct | controllers/powernodeconfig_controller.go:217-226 | accepted exactly if no core is listed twice |
| NodeConfig.PowerNodeConfigReconciler.ProfileAvailable | controllers/common.go:175-207 | available exactly if no profile is named, or if it exists, has a pool on the node and matches it |
| NodeConfig.PowerNodeConfigReconciler.ValidateProfiles | controllers/powernodeconfig_controller.go:199-245 | accepted exactly if the shared profile is marked shared, no core is listed twice and every named profile is available |
| NodeConfig.PowerNodeConfigReconciler.ApplyPowerNodeConfig | controllers/powernodeconfig_controller.go:149-194 | refused exactly if the shared profile is missing, not marked shared or not available, a core is listed twice, or a profile that a group names is missing, has no pool or is not for this node, and then nothing changes; an accepted configuration, if no write fails and every carried profile can be met on every CPU, is applied without an error and ends in ConfigResult and in what ResultServes says; whatever fails, profile pools keep their profiles and their CPUs outside the groups; the reported shared list is the sorted shared pool |
| NodeConfig.PowerNodeConfigReconciler.ApplyTwice | controllers/powernodeconfig_controller.go:149-194 | a second reconciliation of the same configuration is accepted and applied again, and changes no CPU, pool or profile |
| Pods.CreateThenDelete | controllers/powerpod_controller.go:137-174 | creating a pod and deleting it again is the identity on membership |
| Pods.CreateStep | controllers/powerpod_controller.go:137-174 | after a completed creation recorded CPUs sit in their pools; stray are those from before and those on record for the pod before, unless its containers take them |
| Pods.RequeueStep | controllers/powerpod_controller.go:153-163 | a reconcile that is cut short makes exactly the CPUs it has placed and that were not on record stray |
| Pods.DeleteStep | controllers/powerpod_controller.go:272-287 | a deletion frees exactly what its pod is recorded to use; CPUs without a record stay where they are |
| Pods.AlwaysAccounted | controllers/powerpod_controller.go:80-250 | every interleaving of completed creations and deletions that forget no CPU keeps each profile pool equal to the recorded CPUs of its live pods |
| Pods.CreateAgainForgets | controllers/powerpod_controller.go:137-225 | recording a pod anew leaves behind exactly the CPUs that were on record for it and that its containers do not take; the pools stay accounted exactly if there are none |
| Pods.StraysExact | controllers/powerpod_controller.go:80-304 | with attempts cut short, changing containers and lost node states in between, the CPUs beyond the record are exactly those placed without a record, or forgotten, and not taken in or freed since |
| Pods.RetryRestores | controllers/powerpod_controller.go:153-163 | an attempt cut short that completes later leaves no trace |
| Pods.DeletionAfterRequeueLeaks | controllers/powerpod_controller.go:255-304 | one whose pod is deleted instead leaves behind exactly the CPUs it had placed and that were not on record |
| Pods.RepeatedDeletionIff | controllers/powerpod_controller.go:255-304 | a deletion tried again leaves the other pods their CPUs exactly if none of those on the stale entry has been handed to another pod |
| Pods.WaitsAlone | controllers/powerpod_controller.go:137-174 | whether a container has to wait does not depend on what the others with disjoint CPUs have taken |
| Pods.DetectCoresAdded | controllers/powerpod_controller.go:451-461 | exactly the desired cores that the pool lacks |
| Pods.PowerPodReconciler.AreCPUsInSharedPool | controllers/powerpod_controller.go:635-643 | true exactly if every CPU is in the shared list |
| Pods.PowerPodReconciler.PlaceContainer | controllers/powerpod_controller.go:145-174 | waits, changing nothing, exactly while the profile has a pool and a CPU is in neither that pool nor shared; otherwise completes as a move into the profile pool exactly if that has a pool and no profile fails |
| Pods.PowerPodReconciler.TryContainers | controllers/powerpod_controller.go:137-215 | the loop over the containers: those with errors are passed over, those without a pool reported, and it stops at the first that has to wait or behind one whose profile cannot be read again |
| Pods.PowerPodReconciler.ReconcilePod | controllers/powerpod_controller.go:80-250 | in every outcome pools and record are those of one event: a creation if the containers are recorded, reported errors or not, else an attempt cut short; which container it waits for; it goes through if every wanted CPU is shared or in its pool already, and then all are there and no other CPU has moved; no error is reported exactly if none comes from elsewhere and all profiles have pools |
| Pods.ReconcileTwice | controllers/powerpod_controller.go:145-174 | the run of two calls: reconciling a pod again after it went through ends the same way and changes neither pools nor record |
| Pods.RetryAfterSharing | controllers/powerpod_controller.go:145-174 | the run in which the CPUs a reconcile waits for are shared in between: the second attempt goes through and every wanted CPU is in its pool |
| Pods.PowerPodReconciler.ReleaseContainers | controllers/powerpod_controller.go:272-287 | the recorded CPUs, and only those, are shared again |
| Pods.PowerPodReconciler.HandlePodDeletion | controllers/powerpod_controller.go:255-304 | a completed deletion is one deletion event: CPU by CPU, what is on record for the pod is shared and no other CPU has moved; the CPUs go back even if the status cannot be written, and the record is kept then; with a missing node state nothing moves |
| Pods.Serve | controllers/powerpod_controller.go:80-304 | one request to the two methods, whatever its containers and inputs, is one admissible event |
| Pods.ServeAll | controllers/powerpod_controller.go:80-304 | any run of requests in which no live pod's CPUs are handed to another is a run of these events, so its stray CPUs are exactly those StraysExact computes; CPUs may be handed out again after a deletion |
| Profiles.UpdateReachesAll | controllers/powerprofile_controller.go:165-213 | after an update no affected pool carries an older version |
| Profiles.PropagatedMeans | controllers/powerprofile_controller.go:165-213 | pool by pool what an update or a creation leaves behind |
| Profiles.DeletedMeans | controllers/powerprofile_controller.go:238-284 | pool by pool and CPU by CPU what a deletion leaves behind |
| Profiles.CreateReachesAllIff | controllers/powerprofile_controller.go:165-181 | after a creation that holds exactly if the shared pool and the special reserved pools carry no other version before |
| Profiles.RecreatedProfileIsStaleIff | controllers/powerprofile_controller.go:165-266 | a profile of an applied configuration is deleted and created with another content: an old version is left behind exactly if it was the shared profile and a reserved group uses it too |
| Profiles.ContainsReachesSameIff | controllers/powerprofile_controller.go:203-205 | exactly when searching for the text anywhere in a name reaches more pools than its prefix would |
| Profiles.ContainsCanReachMore | controllers/powerprofile_controller.go:203-205 | the witnesses for it: pools named with another character before the node's name |
| Profiles.PowerProfileReconciler.Propagate | controllers/powerprofile_controller.go:165-213 | membership is unchanged, exactly the affected pools carry the profile, all their CPUs have it applied, and exactly when no older version is left |
| Profiles.PowerProfileReconciler.PropagateToUsers | controllers/powerprofile_controller.go:182-213 | the profile's own pool, shared if it uses it, and the special pools that do, in order |
| Profiles.PowerProfileReconciler.PropagateToSpecial | controllers/powerprofile_controller.go:194-213 | the loop over all pools reaches every special user and no other pool |
| Profiles.PowerProfileReconciler.HandleProfileDeletion | controllers/powerprofile_controller.go:238-284 | shared loses the profile and its pool is drained and removed if the shared pool carries it, otherwise all pools stay; exactly when that is an error |
| Interplay.RecordedStaysIff | controllers/powernodeconfig_controller.go:285-321 | a configuration leaves a recorded CPU in its profile's pool exactly if no group names it |
| Interplay.AccountedAfterConfigIff | controllers/powernodeconfig_controller.go:285-321 | after a configuration the pools hold exactly what is on record exactly if no recorded CPU is in a reserved group |
| Interplay.DeletionKeepsGroupsIff | controllers/powerpod_controller.go:272-287 | deleting a pod leaves the reserved groups in place exactly if none of its recorded CPUs is in one |
| Interplay.ReplaceDeleteRecreate | controllers/powerprofile_controller.go:238-284 | the run of both controllers, admission obeyed, that ends as RecreatedProfileIsStaleIff says |
| Settings.PlanClamps | internal/power/p_states.go:238-277 | exactly when a request is carried out, that min is raised and max lowered to the core's range, and exactly when the two stay ordered |
| Settings.ScaleUpMonotone | internal/power/p_states.go:312-324 | percentages scale monotonically from 0 to the whole range; the result is that share of the range, rounded up |
| Settings.PercentagesFitEveryCore | internal/power/p_states.go:279-324 | percentages 0 <= min <= max <= 100 land ordered inside every core's own range, each at its share of that range rounded up |
| Settings.NumbersAreClamped | internal/power/p_states.go:238-277 | absolute limits are carried out exactly if they lie within the system's, and are then cut off at the core's own |
| Settings.NumbersAccepted | internal/power/power_profile.go:91-181 | exactly which profiles with at least one absolute limit pass validation, in whole MHz, and that a missing limit is the system's |
| Settings.TextsAccepted | internal/power/power_profile.go:91-181 | exactly which profiles with percentages, or with no limit at all, pass validation, and that a missing limit is 0% or 100% |
| Settings.MixedRefused | internal/power/power_profile.go:121-131 | one absolute limit and one percentage never pass, and no core carries them out, nor a text without a percent sign |
| Settings.AcceptedAbsoluteProfile | internal/power/power_profile.go:91-181 | an accepted absolute profile aborts exactly if its minimum is below the system's, never if that is a whole MHz |
| Settings.AcceptedTextProfile | internal/power/power_profile.go:129-181 | a core carries an accepted text profile out exactly if both texts end in a percent sign and the scaled range lies within the system's; from 0 to 100 percent the signs decide |
| Settings.PercentagesAboveRange | internal/power/power_profile.go:150-166 | percentages above 100 pass validation and are not carried out on a core as wide as the system |
| Settings.AcceptedIsFeasibleEverywhere | internal/power/p_states.go:225-277 | no profile, accepted percentages from 0 to 100, and accepted absolute profiles on a system with a whole-MHz minimum can be met on every CPU |
| Settings.SetDriverValues | internal/power/p_states.go:238-277 | success exactly if no write fails and the plan exists; the range written is the clamped request, or the share of the core's range that the percentages name, rounded up; an abort leaves both frequencies as they were, and the governor set; a failed write leaves each file as it was or as wanted, none ahead of its turn |
| Settings.ApplyCStates | internal/power/c_states.go:219-243 | on success every wanted state's disable flag is the opposite of what is wanted; a failing call has left each of them so or as before; no other flag changed |
| Uncore.NewUncoreWithinHardware | internal/power/uncore.go:32-55 | accepted limits stay ordered and below the maximum; above the minimum exactly if that is a whole step |
| Uncore.NewUncoreExact | internal/power/uncore.go:32-55 | a request is refused exactly if it is reversed or leaves the hardware range; otherwise both limits are multiples of the step less than a step below what was asked |
| Uncore.Normalize | internal/power/uncore.go:201-203 | the largest multiple of the step not above the request |
| Uncore.Topology.ApplyDie | internal/power/uncore.go:57-73 | the die's registers hold its most specific setting; a failing write leaves them as before or with the new maximum only; no other die changes |
| Uncore.Topology.ApplyPackage | internal/power/uncore.go:164-171 | every die of the package settles; a failing call leaves each of them settled, as before or half written; dies of other packages stay settled |
| Uncore.Topology.SetUncore | internal/power/uncore.go:140-158 | whatever was there before, every die settles |
| Uncore.Topology.SetPackageUncore | internal/power/uncore.go:159-171 | a settled machine stays settled when a package's setting changes |
| Uncore.Topology.SetDieUncore | internal/power/uncore.go:180-194 | a settled machine stays settled when a die's setting changes |
| Uncore.RunSets | internal/power/uncore.go:140-194 | after any run of successful calls that starts at topology level, every die holds its most specific setting |
| Uncore.OrderOfKeysIrrelevant | controllers/uncore_controller.go:198-241 | selectors for different packages or dies may come in either order |
| Uncore.UncoreReconciler.ResetUncoreSettings | controllers/uncore_controller.go:260-286 | no setting is left at any level and every die holds the default |
| Uncore.UncoreReconciler.ApplySelector | controllers/uncore_controller.go:199-240 | applied exactly if it can be carried out; the settings follow the last valid selectors |
| Uncore.UncoreReconciler.ApplySelectors | controllers/uncore_controller.go:198-241 | errors are reported exactly if some selector cannot be carried out, one for each |
| Uncore.UncoreReconciler.ApplyUncoreConfig | controllers/uncore_controller.go:156-257 | every die holds the last valid die selector, else the last valid package selector, else system-wide, else the default; in numbers: both registers are multiples of the step less than a step below that request; one error for each selector and for the pair of limits that cannot be carried out |
| Uncore.WantedIsAsked | controllers/uncore_controller.go:156-241 | which selector a die follows, told by the list alone, and the two limits it leads to |
| CpuLists.PrettifyCoreList | controllers/common.go:344-374 | scanning ahead prints the runs of the sorted list |
| CpuLists.PrintRun | controllers/common.go:348-371 | one round finds the next run, to its end, and prints it |
| CpuLists.CpuSetString | pkg/cpuset/cpuset.go:224-262 | extending the last range in place prints the runs of the sorted elements |
| CpuLists.CollapseRanges | pkg/cpuset/cpuset.go:236-247 | the ranges found in place are those of the recursive definition |
| CpuLists.RangesApart | pkg/cpuset/cpuset.go:236-247 | no two neighbouring ranges could be joined |
| CpuLists.ToSlice | pkg/cpuset/cpuset.go:180-187 | the elements, sorted |
| CpuLists.Parse | pkg/cpuset/cpuset.go:278-317 | the loops compute the item-by-item specification, including its errors |
| CpuLists.GetCleanCoreList | controllers/powerpod_controller.go:493-523 | as Parse for the other parser: a malformed item empties the list |
| CpuLists.SortedUnique | controllers/common.go:345-348 | there is only one sorted permutation of a list |
| CpuLists.ReadBack | controllers/powerpod_controller.go:493-523 | a reader that understands every item reads back the printed list |
| CpuLists.PrettifyThenCleanIsSort | controllers/powerpod_controller.go:493-523 | printing then cleaning is sorting, with the same multiplicities, the empty list included |
| CpuLists.StringThenParseIsIdentity | pkg/cpuset/cpuset.go:278-317 | parsing a printed set gives the set back |
| CpuLists.PrintersAgree | controllers/common.go:344-374 | both printers give the same text for the same ids in any order |
| CpuLists.RenderInLetters | controllers/common.go:344-374 | a printed list in letters: the first run as its number or its two ends with a hyphen, then a comma and the rest |
| CpuLists.ItemsInLetters | controllers/powerpod_controller.go:496-519 | how both parsers read an item without, with one and with two hyphens, told by the numbers in it |
| CpuLists.JoinedListsRead | pkg/cpuset/cpuset.go:278-317 | both parsers on any list of items: refused exactly if an item cannot be read, else exactly the CPUs of the items |
| Text.ItoaRoundTrip | controllers/powerpod_controller.go:500-517 | reading a printed number gives the number |
| Text.NumbersInLetters | controllers/powerpod_controller.go:500-517 | numbers digit by digit, signs, and where the two number parsers overflow |
| Text.OnlyDigits | controllers/powerpod_controller.go:500-517 | nothing but digits, after at most one sign, is read as a number |
| Text.SplitJoin | controllers/powerpod_controller.go:495-497 | splitting joined items gives the items back |
| Text.ContainsMeans | controllers/powerprofile_controller.go:203 | a name contains a text exactly if the text stands somewhere in it |
| Text.TrimsSuffix | internal/power/power_profile.go:151-156 | trimming takes one suffix off, and only that |
| Topologies.MembersExact | internal/power/topology.go:45-70 | a level's CPU list holds each of its CPUs once and nothing else |
| Topologies.RefinedKeysGiveDisjointUnion | internal/power/topology.go:133-188 | a list is the disjoint union of its children's lists |
| Topologies.CpuTopology.AddToCore | internal/power/topology.go:349-356 | the core gains the CPU and is classified by its limits |
| Topologies.CpuTopology.AddToGroup | internal/power/topology.go:233-257 | a die or cluster gains the CPU exactly if everything below can be read |
| Topologies.CpuTopology.AddToPackage | internal/power/topology.go:133-188 | likewise a package, on a supported architecture |
| Topologies.CpuTopology.AddCPU | internal/power/topology.go:45-70 | likewise the topology; the CPU is stored at its own index |
| Topologies.CpuTopology.AddNext | internal/power/topology.go:45-70 | adding CPUs in order keeps every list at every level complete |
| Topologies.CpuTopology.Discover | internal/power/topology.go:374-388 | succeeds exactly if every CPU can be read, told by what sysfs holds and the architecture; each id then stands at its own index and every list is complete |
| Topologies.CpuTopology.ListsAreExact | internal/power/topology.go:374-388 | which CPUs are in a package, a die or cluster and a core, told by the numbers in sysfs: dies where the architecture has them, clusters on the other |
| Topologies.CpuTopology.LevelsAreDisjointUnions | internal/power/topology.go:374-388 | packages are disjoint unions of dies or clusters, and these of cores |
| Topologies.CpuTopology.DiscoverLimits | internal/power/p_states.go:98-122 | after discovery every CPU's limits lie inside the absolute range |
| Topologies.AppendIfUnique | internal/power/p_states.go:98-108 | the index names the set, the list grows only by a new set |
| Topologies.GetAbsMinMaxFreq | internal/power/p_states.go:110-122 | the tightest range containing every core type |
| Topologies.ByID | internal/power/cpu.go:229-244 | finds an id exactly if it is listed; with unique ids the same position as linear search |
| Topologies.ManyByIDs | internal/power/cpu.go:245-256 | all positions, or none exactly if an id is missing |
| Scaling.FallbackInRange | controllers/powerpod_controller.go:659-662 | the fallback frequency is within every CPU's limits exactly if the percentage is at most 100 |
| Scaling.GenerateCPUScalingOpts | controllers/powerpod_controller.go:647-685 | options for exactly the known CPUs, in order, each built from that CPU's own limits, with the tolerance in kHz and the fallback at its share of the range rounded down; the rest reported |
| Scaling.KnownSplits | controllers/powerpod_controller.go:647-660 | the known CPUs of a list, one id after the other |
| Scaling.DistanceShrinks | internal/scaling/updater.go:68-69 | a step removes exactly the scale factor's share of the distance to the ideal frequency |
| Scaling.RoundedApproachesIdeal | internal/scaling/updater.go:68-77 | truncation and clamping cost at most 1 kHz of that |
| Scaling.NextIsCalledFor | internal/scaling/updater.go:68-77 | the next frequency is the ideal one, rounded down and cut off at the hardware limits |
| Scaling.AfterSteps | internal/scaling/updater.go:31-97 | on a constant load the distance shrinks geometrically over any number of unrounded steps |
| Scaling.CPUScalingOpts.SetTarget | internal/scaling/updater.go:79-88 | sets a new target unless it is within the allowed difference; the invariant survives a refused write |
| Scaling.CPUScalingOpts.Update | internal/scaling/updater.go:31-107 | exactly when a frequency is attempted, told by usage, target and tolerances, and which one: the fallback without a reading, else what NextIsCalledFor says; only a successful regular change waits for the cooldown |
| Scaling.Run | internal/scaling/updater.go:31-107 | over any run every frequency passed on is within the hardware limits and called for by some report, the target is unset or the last success, and consecutive successes differ by more than allowed |
| Telemetry.UsageIsShare | internal/scaling/dpdk_client.go:358-375 | a reading is the busy share of the window rounded down, refused exactly on a reset or a share of 101% and more; an empty window reads as idle |
| Telemetry.UsageExactIff | internal/scaling/dpdk_client.go:358-375 | a consistent window is reported as its busy share exactly if the product does not wrap, and too low otherwise; the exact condition for inconsistent windows |
| Telemetry.WrapMisreports | internal/scaling/dpdk_client.go:365 | the witness for UsageExactIff: a fully busy window of 2^62 cycles is reported as idle |
| Telemetry.WindowsTelescope | internal/scaling/dpdk_client.go:332-390 | over a clean run the weighted percentages add up to the whole run's busy share, up to rounding |
| Telemetry.ReportsAreWindows | internal/scaling/dpdk_client.go:332-390 | the percentages reported over a run, weighted by their windows, are the weighted windows of what was observed |
| Telemetry.ReportsTelescope | internal/scaling/dpdk_client.go:332-390 | so what a connection reports over a clean run adds up to the busy cycles of the whole run, up to rounding |
| Telemetry.DpdkTelemetryConnection.HandleCpu | internal/scaling/dpdk_client.go:348-386 | one CPU's reading and baseline after a sample, no other CPU's |
| Telemetry.DpdkTelemetryConnection.HandleUsage | internal/scaling/dpdk_client.go:332-390 | every watched CPU is handled, CPUs of other connections are not touched |
| Telemetry.DpdkTelemetryConnection.ClearMetrics | internal/scaling/dpdk_client.go:392-397 | the listed CPUs start over, others keep their state |
| Telemetry.DpdkTelemetryConnection.GetUsagePercent | internal/scaling/dpdk_client.go:140-147 | a percentage is within 0..100 and belongs to the two latest observations |
| Telemetry.TwoSamples | internal/scaling/dpdk_client.go:332-390 | the run of two samples: what is reported afterwards is the busy share between the two readings of that CPU, the last one of each sample |
| Telemetry.Run | internal/scaling/dpdk_client.go:332-397 | after any run of samples and broken connections the report is exactly that of the latest window |
| Telemetry.NothingToReport | internal/scaling/dpdk_client.go:332-397 | when there is nothing to report: after a broken connection, without a reading in the latest sample, or on the first |
| Telemetry.RunReporting | internal/scaling/dpdk_client.go:332-397 | a connection asked after every event reports the latest window each time |
| Admission.CompareSelectors | api/v1alpha1/webhook_helpers.go:72-79 | separates the peers with an identical selector from the rest |
| Admission.CheckNodes | api/v1alpha1/webhook_helpers.go:87-106 | reports exactly the peers that select a common node, with those nodes |
| Admission.RequirementMeans | api/v1alpha1/webhook_helpers.go:65-97 | what each kind of requirement asks of the labels, and which requirements are malformed |
| Admission.RequirementsCombine | api/v1alpha1/webhook_helpers.go:65-97 | an empty selector matches everything, and every further label or requirement narrows it |
| Admission.ClashesMeans | api/v1alpha1/webhook_helpers.go:72-105 | two selectors clash exactly if they are identical or select a common node |
| Admission.FindNodeSelectorConflicts | api/v1alpha1/webhook_helpers.go:54-112 | admitted exactly if the selector is valid, identical to no peer's and selects no node together with a peer, all of which are valid; every conflict reported is real and none is missing |
| Admission.Cluster.Serve | api/v1alpha1/powernodeconfig_webhook.go:157-172 | exactly which requests go through; at most one configuration per node before and after |
| Admission.ServeAll | api/v1alpha1/powernodeconfig_webhook.go:86-99 | any run of creations, updates and deletions keeps at most one configuration selecting any node |
| Admission.NoClashKeepsOne | api/v1alpha1/webhook_helpers.go:54-112 | an admitted selector keeps it that way |
| Admission.RelabellingKeepsOneIff | api/v1alpha1/webhook_helpers.go:54-112 | new labels of a node keep it exactly if no two configurations match them |
| Admission.RelabellingCanBreakIt | api/v1alpha1/webhook_helpers.go:81-85 | an added label can break it |
| Admission.AdmittedNeverAmbiguous | controllers/common.go:96-109 | from admitted configurations at most one matches a node |
| Admission.FilterByNodeSelector | controllers/common.go:96-109 | exactly the items with a valid selector that matches, in order |
| Admission.MatchingSplits | controllers/common.go:98-108 | the matches of two lists in a row are those of the first and then those of the second |
| Admission.SortByAge | controllers/common.go:136-143 | a permutation in which nobody stands behind a younger item |
| Admission.OlderIsOrder | controllers/common.go:136-143 | creation time then name orders items with different names totally |
| Admission.LessMeans | controllers/common.go:140 | names are ordered letter by letter, a proper prefix first |
| Admission.SelectActiveOrOldest | controllers/common.go:118-145 | the active item if it still matches, else one before which no other was created, the first by name among those of the same time |
| Admission.SelectionIgnoresOrder | controllers/common.go:118-145 | with unique names the choice does not depend on the order of the list |
| Admission.ChoiceIsSticky | controllers/common.go:118-145 | over a run a choice is kept for as long as it still matches |

## Left out

- CPUs and pools are named by id and name; their fields are columns of the host's state. Pointer identity, and so a stale handle to a removed pool of the same name, is not captured.
- The CPU lists inside `Host` are sequences; updates in place of a shared backing array are replayed on arrays in `Aliasing` and `AliasingHost`, not inside `Host`.
- Goroutines, tickers, the host mutex and the synchronised maps: each public operation is one atomic step.
- Kubernetes client calls, Server-Side Apply, requeueing and watches: their outcomes are inputs; a profile that cannot be read counts as absent in validation. The record of pods is a plain map.
- Reading sysfs and procfs, sockets, JSON and logging: what is read is an input, a write may fail. What a failed write leaves behind in the control files of that CPU is told by the single writes (`SetDriverValues`, `ApplyCStates`), not by the operations of the host.
- Which architectures, vendors, drivers and features are supported, and the checks on names of energy preferences and C-states.
- Extended resources, the uncore configuration text, the status conditions and a profile whose selector stops matching the node.
- The percentage library rounds up a float64 quotient; the model rounds up the exact one. The two can differ only for products of percentage and range beyond 2^53.
- Floating point in the frequency loop: frequencies are computed with reals, without rounding before the truncation. The target usage must be positive; the code divides by zero otherwise.
- Negative CPU ids, which the int-based CPU set type allows, are not printed in the model. A range ending at 2^63-1 makes the source's Parse loop wrap around; the model's stops.
- Syntax checks on label keys and values, and the difference between a nil and an empty map when selectors are compared.
- Admission's checks on reserved CPUs and profiles are one Boolean input of a request.
- The builder, the set algebra and the cloning of CPU sets: easy members.
- Aliasing.AtMostOnce: a fact about lists that the array replays rest on, not a behaviour of its own.
- Pods.Serve: in a run the status of a deletion can be written; RepeatedDeletionIff says what a second try does otherwise.
- NodeConfig.PowerNodeConfigReconciler.CreateReservedPool: how far an attempt got whose own removal failed as well is bounded (only the group's cores and its own pool) but not given exactly.
