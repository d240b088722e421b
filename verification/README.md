# MC-Kube: budget pool, preemption and node pressure

This project models two parts of the MC-Kube operator and proves properties of them.

**The real-time budget pool.** Every node has a pool of cores. A core keeps a map of the pods registered on
it and, next to the map, a cached sum of their budgets in millicores. Admission looks for a (node, core) pair
by worst fit and, when nothing fits, by a greedy lookahead that would evict pods of lower criticality. Two
webhooks use it: the mutator picks a pair and writes it into the custom resource, the validator decides on
what the resource then says. The controller later makes room for real: it migrates or evicts victims and
registers the pod.

**The node-pressure state machine.** While a node's CPU is busy, its pods' CPU requests are reduced, then one
pod of the tier is evicted, then the next criticality tier is taken on. Counters and latches limit how much
harm one episode can do.

## How the model is built

Objects that the program updates in place are classes (`CoreInfo`, `Pool`, `Registry`, `McKube`, `PodSpec`,
`Reconciler`, `PerTierState`, `NodePressureState`, `Handler`). Each of their methods states its effect as a
function on an abstract value, and the theorems are lemmas about those functions, over all inputs and all
runs. Ranging over a Go map is an arbitrary enumeration (`CpuPool.NextKey`), `sort.Slice` is any sort that
meets its comparator, slices sorted in place are arrays. API calls enter as outcomes that the methods
receive. A method guarded by a mutex in the program is one atomic step.

Budgets are exact: millicores are integers, 950 per core for admission and 900 for the controller, and the
required budget is the real number 1000 * budget_hi / period.

| file | content |
|---|---|
| `GoTypes.dfy`, `Criticality.dfy`, `Ordering.dfy` | shared types, criticality ranks, in-place sorting |
| `Victims.dfy`, `VictimTheorems.dfy` | the greedy victim selection and what it minimises |
| `Accounting.dfy`, `CpuPool.dfy` | the pools as values, runs of pool steps, the pool classes |
| `Scheduling.dfy`, `SchedulingTheorems.dfy` | the search over all pairs, the check of one pair |
| `CoreSet.dfy`, `Settings.dfy`, `Webhooks.dfy` | core-set notation, validation and rounding, the two webhooks |
| `Preemption.dfy`, `Controller.dfy`, `ReconcileTheorems.dfy` | preemption, registration, reconciliation |
| `Tiers.dfy`, `Degradation.dfy`, `Pressure.dfy`, `PressureTheorems.dfy`, `EventHandler.dfy` | the pressure state machine |

`dafny verify dfyconfig.toml` checks the project.

## Where code and documentation differ

- "Minimum set" of victims (internal/cpupool/cpupool.go:413, 440): not in general. `GreedyIsSmallestCoverIff`
  gives the exact condition, `GreedyMayExceedSmallestCover` a case where two pods are taken though one would do,
  and `GreedyIsRankOptimal` what is minimal nevertheless.
- "The Pod with the lowest Criticality among currently deployed Pods" is degraded
  (internal/ipvs/event_handler.go:187): the handler stays on its tier when a lower one appears later.
  `LowestTierIsServedIff` gives the exact condition.
- docs.md:207-217 shows preemption of all victims; the code takes the greedy selection only.
- docs.md and docs/RUNTIME_ESCALATION.md write criticalities as "High" or "high"; the code knows only "LOW",
  "MIDDLE" and "HIGH". Any other string ranks 0 in the pool and is ignored by the tiers.
- A migration's target may already hold the victim, which the registration then counts twice
  (`MigrationMayDoubleCount`); `UsageIsExactIff` says exactly when the cached sums stay right.
- A reconciliation looks at the recorded allocation but registers on the requested core
  (`BudgetChangeAfterMigrationRegistersTwice`). `ReconcileSettlesIff` says exactly when a second
  reconciliation finds nothing left to do.
- A pod can be a victim of its own preemption check once its criticality has been raised
  (`OwnVictimIff` says exactly when); `RoundsSpare` gives the guard under which it never is.
- The check of one pair takes a core that the node's pool lacks for an empty one, so admission can name a core
  that is never registered; `DecidersDifferIff`, `MissingCoreIsAdmittedIff` and `AdmittedPairIsRegisteredIff`
  give the exact conditions.
- Degradation need not come to an end in a tier with several containers per pod
  (`SeveralContainersMayStick`). `DegradationConvergesIff` says exactly which tiers converge, from each pod's
  own sequence of totals; `SingleRequestsConverge` and `EqualRequestsConverge` are two families that do.

## Model

| member | source | states |
|---|---|---|
| Ordering.SortSlice | internal/cpupool/cpupool.go:443-450 | sorting in place: afterwards no later element belongs before an earlier one, and the elements are a permutation |
| Criticality.OutranksIff | internal/cpupool/cpupool.go:402-411 | HIGH outranks everything else, MIDDLE everything but HIGH and itself, and no other name outranks anything |
| Victims.GreedyMinVictims | internal/cpupool/cpupool.go:442-462 | sorts the candidates in place and returns the names of a greedy selection: the prefix that first reaches the need, of some order the comparator accepts |
| Victims.SelectMinimumVictims | internal/cpupool/cpupool.go:416-438 | the same selection as records, on a copy |
| Victims.GreedyCovers | internal/cpupool/cpupool.go:452-461 | given enough budget, the victims are candidates, cover the need, and no proper prefix of them does |
| Victims.GreedyTakesAllWhenShort | internal/cpupool/cpupool.go:452-461 | candidates that cannot cover the need are all taken |
| Victims.GreedyTakesLowerRanksFirst | internal/cpupool/cpupool.go:443-450 | a pod is taken only when every candidate of lower rank is taken |
| Victims.GreedyIsRankOptimal | internal/cpupool/cpupool.go:440-461 | every covering sub-collection reaches the greedy's top rank m, and one confined to ranks up to m has at least as many pods of rank m |
| Victims.GreedyIsMinimumInOneClass | internal/cpupool/cpupool.go:413-437 | among candidates of one rank no covering sub-collection is smaller |
| VictimTheorems.PrioritizedPermutationsAgree | internal/cpupool/cpupool.go:419-426 | two orders of the same pods that the comparator accepts show the same ranks and budgets in the same places |
| VictimTheorems.GreedyIsDeterminedByContents | internal/cpupool/cpupool.go:416-462 | any two outcomes for the same pods agree on the count, on ranks and budgets in order, and on the freed total |
| VictimTheorems.MayBeChosenIff | internal/cpupool/cpupool.go:442-462 | a candidate can be among the victims exactly when the candidates strictly before it do not cover the need |
| VictimTheorems.GreedyIsSmallestCoverIff | internal/cpupool/cpupool.go:413-415 | for any candidates: the selection is a smallest cover exactly when the shortest covering prefix in priority order is as long as the shortest one in the order of budgets |
| VictimTheorems.GreedyMayExceedSmallestCover | internal/cpupool/cpupool.go:413-415 | a LOW pod of 1 and a MIDDLE pod of 900 for a need of 900: two victims, though one covers |
| Accounting.EmptyPool | internal/cpupool/cpupool.go:76-85 | a fresh pool has cores 0 to n-1, all empty |
| Accounting.AddDrift | internal/cpupool/cpupool.go:161-164 | registering adds exactly the overwritten budget to the gap between cache and entries |
| Accounting.DropDrift | internal/cpupool/cpupool.go:172-177 | deregistering leaves that gap alone |
| Accounting.KeepOnlyDrift | internal/cpupool/cpupool.go:129-136 | purging leaves that gap alone |
| Accounting.AddKeepsExactIff | internal/cpupool/cpupool.go:157-165 | registering keeps an exact cache exact just when no budget is overwritten |
| Accounting.PurgeIsDropInAnyOrder | internal/cpupool/cpupool.go:108-136 | on a core, purging everything outside a set equals dropping the stale names in any order, with any repetition |
| Accounting.PurgeEqualsRemovals | internal/cpupool/cpupool.go:100-139 | the same for all pools: one purge equals a sequence of cluster-wide removals |
| Accounting.RemovalIsExact | internal/cpupool/cpupool.go:100-119 | a removal leaves the pod on no core, all other entries alone, and takes exactly its budget off each cache |
| Accounting.RegisterOnKeepsDrift | internal/controller/mckube_controller.go:1410-1415 | re-registration on any list of cores never overwrites, whatever was there |
| Accounting.MoveDrift | internal/controller/mckube_controller.go:1140-1141 | a migration changes no cache's gap except on a target that held the pod, by the budget it held |
| Accounting.ApplyExactIff | internal/cpupool/cpupool.go:97-178 | one pool step keeps all caches exact just when it is not a migration onto a core holding the victim's budget |
| Accounting.RunNeverUndercounts | internal/cpupool/cpupool.go:97-178 | over every run with non-negative budgets no cache claims less than before beyond its entries: a gap never shrinks |
| Accounting.UsageIsExactIff | internal/cpupool/cpupool.go:97-178 | over every run from exact caches, all caches end exact if and only if every migration avoids a core that holds the victim's budget |
| Accounting.MigrationMayDoubleCount | internal/controller/mckube_controller.go:1185-1194 | a pod on cores 2 and 3 migrated from 2 to 3 is counted twice: cache 600, entries 300 |
| CpuPool.CoreInfo.DropPod | internal/cpupool/cpupool.go:109-113 | removes one entry and its budget, and says whether there was one |
| CpuPool.CoreInfo.KeepPods | internal/cpupool/cpupool.go:130-135 | deleting while ranging in any order leaves exactly the existing pods and takes off exactly the others' budgets |
| CpuPool.CoreInfo.ListPods | internal/cpupool/cpupool.go:189-193 | lists every entry once, in any order |
| CpuPool.Pool.constructor | internal/cpupool/cpupool.go:76-85 | a new pool is an empty pool with its own records |
| CpuPool.Pool.GetCoreUtilization | internal/cpupool/cpupool.go:145-154 | the cached usage, and 0 for an unknown core |
| CpuPool.Pool.AddPodToCore | internal/cpupool/cpupool.go:157-165 | writes the entry and adds its budget on that core only; nothing on an unknown core |
| CpuPool.Pool.RemovePodFromCore | internal/cpupool/cpupool.go:168-178 | removes the entry and its budget on that core only |
| CpuPool.Pool.GetPodsOnCore | internal/cpupool/cpupool.go:181-194 | the core's entries, each once; none for an unknown core |
| CpuPool.Registry.GetPoolForNode | internal/cpupool/cpupool.go:91-95 | the node's pool, or nothing |
| CpuPool.Registry.GetOrCreateCPUPool | internal/cpupool/cpupool.go:68-88 | leaves an existing pool alone and otherwise adds an empty one; all other pools stay |
| CpuPool.Registry.RemovePodFromPool | internal/cpupool/cpupool.go:100-119 | drops the pod on every core of every pool and reports whether it was anywhere |
| CpuPool.Registry.RemovePodsNotIn | internal/cpupool/cpupool.go:123-139 | purges every core of every pool |
| Scheduling.NumCores | internal/cpupool/cpupool.go:256-261 | always a positive count: the reported capacity when that is positive, and 16 only otherwise |
| Scheduling.PoolEvictionLookahead | internal/cpupool/cpupool.go:402-411 | the pods of strictly lower rank and the sum of their budgets |
| Scheduling.CheckNodeCoreFeasibility | internal/cpupool/cpupool.go:360-396 | accepts an unknown node, and otherwise exactly when free budget, alone or with the lower-ranked budget, covers the need; victims are a greedy selection for the gap |
| Scheduling.FilterValidCores | internal/cpupool/cpupool.go:464-472 | exactly the preferred cores that the node has |
| Scheduling.CoresToCheck | internal/cpupool/cpupool.go:265-281 | preferred cores if any, else the pool's cores, else all cores of the node |
| Scheduling.AssessCore | internal/cpupool/cpupool.go:283-317 | a core is a direct candidate when it fits, and an evicting one when lower-ranked budget makes it fit |
| Scheduling.BestDirect | internal/cpupool/cpupool.go:322-331 | a candidate with the most free budget, without victims |
| Scheduling.BestWithEvict | internal/cpupool/cpupool.go:335-349 | a candidate least by number of victims, then by most free budget |
| Scheduling.SelectBestNodeAndCore | internal/cpupool/cpupool.go:233-353 | feasible if and only if some considered pair admits the pod; a direct winner has the most free budget of all considered cores; otherwise nothing fits and the winner is least by victims, then free budget |
| SchedulingTheorems.SearchSucceedsIff | internal/cpupool/cpupool.go:300-319 | with non-negative budgets the verdict is exactly: some considered core has free plus strictly lower-ranked budget enough |
| SchedulingTheorems.ConsideredIff | internal/cpupool/cpupool.go:265-281 | which cores of a node the search looks at: preferred ones within its count, else its pool's, else all of its count |
| SchedulingTheorems.WinnerIsBest | internal/cpupool/cpupool.go:322-349 | in terms of usage: where the pod fits at all the winner is least used and nobody is evicted; otherwise no core that can make room needs fewer victims, and none that needs as many is less used |
| SchedulingTheorems.VictimsAreLowerAndSuffice | internal/cpupool/cpupool.go:306-316 | the victims are entries of the chosen core, rank strictly below the newcomer, suffice with the free budget, and no proper prefix does |
| SchedulingTheorems.RoomFreesTheSame | internal/cpupool/cpupool.go:307-309 | two answers for one core name equally many pods and free the same budget |
| SchedulingTheorems.SearchDependsOnContents | internal/cpupool/cpupool.go:252-350 | verdict, victim count and the winner's free budget do not depend on the order of nodes, preferred cores or maps, nor on how sorting breaks ties |
| SchedulingTheorems.CheckConfirmsSearch | internal/cpupool/cpupool.go:360-396 | the check accepts whatever the search picked, with as many victims freeing as much |
| SchedulingTheorems.SearchConfirmsCheck | internal/cpupool/cpupool.go:366-395 | a pair the check accepts makes the search succeed, except where the node's pool lacks the core, or the node has no pool and the need exceeds a whole core |
| SchedulingTheorems.DecidersDifferIff | internal/cpupool/cpupool.go:360-396 | for one node, exactly when the check accepts and the search finds nothing: in those two cases, in the first with no existing core that admits the pod |
| SchedulingTheorems.DecidersOnUnknownNode | internal/cpupool/cpupool.go:370-372 | on a node without a pool the two agree exactly when the need fits an empty core |
| CoreSet.ParseCoreSet | internal/cpupool/cpupool.go:476-504 | the loops compute the IDs denoted by the notation |
| CoreSet.CoreIDsNonNegative | internal/cpupool/cpupool.go:482-502 | no input whatsoever yields a negative ID |
| CoreSet.ManyDashesYieldNothing | internal/cpupool/cpupool.go:485-490 | a part with more than one dash yields nothing |
| CoreSet.BrokenRangeYieldsNothing | internal/cpupool/cpupool.go:486-495 | a range with an end that is no number yields nothing |
| CoreSet.RaggedNumber | internal/cpupool/cpupool.go:497-500 | a part without a dash is read as far as its number goes; what follows is ignored, and a number beyond 64 bits yields nothing |
| CoreSet.NoNumberNoID | internal/cpupool/cpupool.go:497-500 | a part without a dash that does not start with a number yields nothing |
| CoreSet.EntryRoundTrip | internal/cpupool/cpupool.go:483-501 | one written number or range, with any spacing, reads back as its expansion |
| CoreSet.ParseInvertsText | internal/cpupool/cpupool.go:474-504 | parsing inverts writing for every list of numbers and ranges |
| CoreSet.SingleCoreRoundTrip | internal/webhook/pod_mutator.go:113 | a core number written with %d reads back as that core alone |
| Settings.ValidIff | internal/webhook/rt_validator.go:127-155 | the guards amount to 0 < lo <= hi, hi at most 95 % of a positive period exactly, and no empty core string |
| Settings.ValidNeedsAtMostOneCore | internal/webhook/rt_validator.go:146-150 | validated settings never ask for more than an empty core offers |
| Settings.RequiredIff | internal/webhook/rt_validator.go:55 | what admission asks for is covered by x millicores exactly when 1000 * budget_hi <= x * period, with the order reversed for a negative period |
| Settings.RecordedMillisIsRecord | internal/controller/mckube_controller.go:1373-1380 | for every runtime and period the record is the share in thousandths rounded towards zero, or 100 where that is zero or the period is not positive |
| Settings.RecordedBounds | internal/controller/mckube_controller.go:1373-1380 | records of validated settings lie in 1..950, less than one millicore below the true share, never above it except for the default of 100 |
| Settings.RoundingHidesLessThanOnePerPod | internal/controller/mckube_controller.go:1373-1380 | on an exactly cached core with n pods the true utilisation is below the cache plus n |
| Webhooks.PatchMcKubeCore | internal/webhook/pod_mutator.go:192-199 | the local copy changes in any case, the stored one only when the API server accepts |
| Webhooks.SelectCore | internal/webhook/pod_mutator.go:98-148 | searches only when no core is set and nodes can be listed; binds the pod to the winner and, unless a dry run, writes core and node; the annotation follows the local copy |
| Webhooks.MutatorFindsIff | internal/webhook/pod_mutator.go:98-112 | the search succeeds exactly when on some considered core the free budget, alone or with the lower-ranked budget, covers budget_hi |
| Webhooks.ValidatorHandle | internal/webhook/rt_validator.go:24-109 | the verdict by lookup, validation, node listing, the fixed pair, or the full search |
| Webhooks.ValidatorAllowsIff | internal/webhook/rt_validator.go:24-109 | the whole verdict by settings and pools alone: denied exactly when a resource is found and its settings are invalid, or its fixed core string names no core, or neither free nor free plus lower-ranked budget covers budget_hi on the fixed core, or on any considered core |
| Webhooks.ValidatorChecksPickIff | internal/webhook/rt_validator.go:60-76 | after a stored patch the validator checks the picked pair if and only if the resource named no other node and no allocation starting elsewhere |
| Webhooks.ValidatorConfirmsMutator | internal/webhook/rt_validator.go:58-88 | on a fresh resource the validator parses back the picked core and admits, with as many victims freeing as much |
| Webhooks.MutatorConfirmsValidator | internal/webhook/pod_mutator.go:98-112 | if the validator admits a fixed pair the search succeeds, unless the node's pool lacks the core |
| Webhooks.MissingCoreIsAdmittedIff | internal/webhook/rt_validator.go:60-88 | a core the node's pool lacks is taken for an empty one: the pair is admitted exactly when the settings are valid |
| Preemption.PreemptionConservesUsage | internal/controller/mckube_controller.go:1132-1175 | any sequence of migrations, evictions and failures leaves the node's summed usage unchanged |
| Preemption.PreemptionBoundsUsage | internal/controller/mckube_controller.go:1177-1202 | no core ends above both its usage before and 900 |
| Preemption.RoundsConserveAndBound | internal/controller/mckube_controller.go:1034-1090 | both hold for the whole check, for any list of target cores |
| Preemption.PreemptsNobodyIff | internal/controller/mckube_controller.go:1034-1062 | a core is left alone exactly when the newcomer stays within 900 there, or no pod on it ranks lower |
| Preemption.RoundTakesWhatIsNeeded | internal/controller/mckube_controller.go:1064-1087 | above 900 the victims rank lower and cover the excess, no proper prefix does; all lower-ranked pods when those do not cover it |
| Preemption.VictimFate | internal/controller/mckube_controller.go:1115-1202 | a fetched victim is migrated exactly when it fits under 900 on some other core, then to a least used of those, and otherwise evicted |
| Preemption.MigrationsClearCore | internal/controller/mckube_controller.go:1140-1141 | on the victims' core exactly their entries and budgets are gone |
| Preemption.MigratedStays | internal/controller/mckube_controller.go:1140-1141 | a migrated victim stays on its new core while others are moved, and that core stays within 900 |
| Preemption.MigratedToLeastLoaded | internal/controller/mckube_controller.go:1177-1202 | every victim of a run went to a core that was, among those that would take it, a least loaded one at that moment |
| Preemption.UntouchedEntry | internal/controller/mckube_controller.go:1132-1175 | names that are not among the victims keep their entries on every core |
| Preemption.GreedyVictimsDiffer | internal/controller/mckube_controller.go:1096-1112 | the victims of one check are different entries of the core, all of lower rank |
| Preemption.PreemptionMakesRoom | internal/controller/mckube_controller.go:1034-1112 | with enough lower-ranked budget and every victim migrated, the pod ends on its core at no more than 900, exactly the victims gone, each of lower rank and now on a core that was least loaded and is within 900, and every other entry of the node as it was |
| Controller.Reconciler.FindMigrationTargetCore | internal/controller/mckube_controller.go:1177-1202 | a least-loaded other core that stays within the threshold, and nothing only when there is none |
| Controller.Reconciler.FindPreemptionVictims | internal/controller/mckube_controller.go:1096-1112 | exactly the pods of strictly lower rank on the core |
| Controller.Reconciler.PreemptPod | internal/controller/mckube_controller.go:1115-1175 | migrates to such a core, evicts only when there is none, changes nothing when the pod cannot be fetched; the new core is recorded when the API server takes it |
| Controller.Reconciler.UpdatePodCoreAffinity | internal/controller/mckube_controller.go:1287-1313 | records the new core in the victim's resource only |
| Controller.Reconciler.PreemptOnCore | internal/controller/mckube_controller.go:1034-1087 | nothing under the threshold; otherwise one legal action for each pod of a greedy selection covering the excess |
| Controller.Reconciler.CheckAndPreemptForPod | internal/controller/mckube_controller.go:1018-1091 | one such round per target core in order, on that node's pool only |
| Controller.Reconciler.UpdateCPUPoolForPod | internal/controller/mckube_controller.go:1350-1428 | registers on all requested cores unless all match; nothing without a core or a node |
| Controller.Reconciler.AllRegistered | internal/controller/mckube_controller.go:294-308 | whether every checked core holds the pod with this budget and criticality |
| Controller.Reconciler.ReconcilePool | internal/controller/mckube_controller.go:244-334 | the pool section: initial status, the check by recorded allocation, preemption rounds, registration |
| Controller.Reconciler.CleanupPodState | internal/controller/mckube_controller.go:656-685 | forgets the pod's runtime mode and drops it from every pool |
| Controller.Reconciler.RevertRuntimes | internal/controller/mckube_controller.go:417-498 | on recovery exactly the pods in the high mode that have settings and a known host go back to the low mode |
| Controller.RevertedIff | internal/controller/mckube_controller.go:417-498 | exactly the recovering pods that were in the high mode have changed, to the low one |
| ReconcileTheorems.RoundsSpare | internal/controller/mckube_controller.go:1096-1112 | a pod not registered under a lower rank on the target cores is never a victim of its own check |
| ReconcileTheorems.OwnVictimIff | internal/controller/mckube_controller.go:1096-1112 | a pod can be a victim of its own check on a core exactly when the core would exceed 900, its old entry ranks below the pod, and the candidates strictly before that entry do not cover the excess |
| ReconcileTheorems.RegisterPodReaches | internal/controller/mckube_controller.go:1390-1415 | after registration every existing core of the set holds the pod as requested, and every other core what it held of it |
| ReconcileTheorems.ReconcileLeaves | internal/controller/mckube_controller.go:254-334 | what one reconciliation leaves of the pod on each core, and of its resource: only an empty recorded allocation is filled in, when the API server accepts |
| ReconcileTheorems.ReconcileUsesRuntimeInForce | internal/controller/mckube_controller.go:1364-1380 | checks, makes room for and registers the record of budget_hi in the mode "hi" and of budget_lo in every other mode or none |
| ReconcileTheorems.OtherResourcesStay | internal/controller/mckube_controller.go:1287-1313 | resources of other pods change only for migrated victims |
| ReconcileTheorems.ReconcileSettlesIff | internal/controller/mckube_controller.go:254-334 | a second reconciliation changes no core and preempts nobody if and only if every core of the recorded allocation exists, and is requested or held the pod as requested from the start |
| ReconcileTheorems.ReconcileTwiceIsOnce | internal/controller/mckube_controller.go:254-334 | when the recorded allocation is the requested core set or empty, that is exactly when every requested core exists |
| ReconcileTheorems.MigratedVictimIsSettled | internal/controller/mckube_controller.go:1308-1311 | a just-migrated victim's next reconciliation leaves the pool alone |
| ReconcileTheorems.BudgetChangeAfterMigrationRegistersTwice | internal/controller/mckube_controller.go:1387-1415 | after a migration the old entry stays as it is, and the pod comes to be on the requested core too exactly when the budget has changed (or it was there) |
| ReconcileTheorems.AdmittedPairIsRegisteredIff | internal/controller/mckube_controller.go:1390-1415 | a reconciliation leaves the pod registered on the pair that the validator checked exactly when the core exists in the pool found there (0 to 15 in a new one), and is requested or held the pod before |
| ReconcileTheorems.ReconcileMakesRoom | internal/controller/mckube_controller.go:254-334 | for a single requested core, one reconciliation ends with the pod on it at no more than 900, exactly the victims gone and each on a core within 900 that was least loaded, all other entries as they were |
| ReconcileTheorems.ReconcileIsARun | internal/controller/mckube_controller.go:293-328 | what a reconciliation does to the pools is a run of creation, migration and registration steps |
| ReconcileTheorems.ReconcileKeepsUsageExactIff | internal/controller/mckube_controller.go:1140-1141 | with non-negative budgets in the pools and of the pod, it keeps all caches exact just when none of its migrations goes to a core holding the victim's budget |
| Tiers.CollectSortedTiers | internal/ipvs/event_handler.go:399-425 | exactly the ranked criticalities present, strictly ascending, whatever order the set is listed in |
| Tiers.NextHigherTier | internal/ipvs/event_handler.go:447-464 | the loop finds the next present tier up |
| Tiers.NextHigherIsNext | internal/ipvs/event_handler.go:446-464 | it is present, above, and nothing present lies between; none means none is above |
| Tiers.FilterPodsByCriticality | internal/ipvs/pod_spec_handler.go:127-141 | the pods of a tier in their order |
| Tiers.InTierMembers | internal/ipvs/pod_spec_handler.go:127-141 | exactly the pods of that criticality; non-empty just when the tier is present |
| Tiers.InTierConcat | internal/ipvs/pod_spec_handler.go:127-141 | the pods of a tier keep their order |
| Tiers.HasActionableInTier | internal/ipvs/pod_spec_handler.go:144-160 | whether some container of the tier requests more than 10m |
| Tiers.PickHighestCPUFromMilli | internal/ipvs/pod_spec_handler.go:111-123 | the loop's choice by position |
| Tiers.HighestIsFirstMaximum | internal/ipvs/pod_spec_handler.go:111-123 | that choice is the first of the heaviest listed pods, and none only when none is listed |
| Degradation.DegradePodRequests | internal/ipvs/pod_spec_handler.go:32-108 | on success every nonzero request becomes four fifths of it, rounded down, but at least 10m, and all else stays; nothing to patch counts as success; failure changes nothing |
| Degradation.ReducedBounds | internal/ipvs/pod_spec_handler.go:63-67 | never below 10m, a decrease exactly above it, four fifths rounded down otherwise |
| Degradation.ListPodMilliCPU | internal/ipvs/data_collector.go:52-67 | total request of each pod by name |
| Degradation.StepProgress | internal/ipvs/event_handler.go:243-264 | degrading the heaviest pod strictly lowers the total above 10m, exactly unless the tier is stuck |
| Degradation.StuckIsForever | internal/ipvs/pod_spec_handler.go:111-123 | a stuck tier stays stuck |
| Degradation.RepeatEnds | internal/ipvs/event_handler.go:243-264 | every unchanging tier is exhausted or stuck after at most as many steps as millicores above 10m |
| Degradation.BlockedForGood | internal/ipvs/event_handler.go:243-264 | no degradation makes or removes such an outweighing |
| Degradation.DegradationConvergesIff | internal/ipvs/event_handler.go:243-264 | from each pod's own degradations: repetition exhausts the tier, within as many steps as millicores above 10m, if and only if no pod at its lightest while degradable is outweighed by another at its lightest up to idle |
| Degradation.SingleRequestsConverge | internal/ipvs/pod_spec_handler.go:144-160 | with at most one requesting container per pod the tier ends without an actionable container |
| Degradation.EqualRequestsConverge | internal/ipvs/pod_spec_handler.go:144-160 | so it does with equally many requesting containers in every pod, each at 10m or more |
| Degradation.SeveralContainersMayStick | internal/ipvs/event_handler.go:243-252 | two containers of 10m outweigh one of 15m for ever |
| PressureTheorems.RefreshIsCoherent | internal/ipvs/event_handler.go:428-444 | from any earlier state, the current tier is present, ranked, at its index, and has pods |
| PressureTheorems.NothingToProtect | internal/ipvs/event_handler.go:161-169 | without a ranked tier an event changes no record and leaves no current tier |
| PressureTheorems.HandleIsCoherent | internal/ipvs/event_handler.go:161-181 | the same after the whole event; the branch for a tier without pods is never taken |
| PressureTheorems.DegradesIff | internal/ipvs/event_handler.go:237-266 | exactly when an event degrades the tier in turn, when it marks it with 999, and what the counters become |
| PressureTheorems.EvictsIff | internal/ipvs/event_handler.go:268-280 | exactly when an event tries the eviction: once, from ten seconds on, when the tier counts as degraded and a pod of it is listed |
| PressureTheorems.UnlistedTierIsLeftAlone | internal/ipvs/event_handler.go:237-280 | with no listed pod in the tier its record stays |
| PressureTheorems.AbsentTierIsPassedOverIff | internal/ipvs/event_handler.go:212-233 | processing a tier without pods passes on to a higher one exactly at the second miss |
| PressureTheorems.ActKeepsBounded | internal/ipvs/event_handler.go:238-280 | successes are three seconds apart and stop at the eviction, due at ten seconds |
| PressureTheorems.HarmIsBounded | internal/ipvs/event_handler.go:191-301 | over any run, a tier suffers at most 4 degradations and 1 eviction attempt, a node at most 12 and 3 |
| PressureTheorems.FourDegradationsHappen | internal/ipvs/event_handler.go:238-280 | the bound of 4 and 1 is reached, at 1, 4, 7 and 10 seconds |
| PressureTheorems.EscalationIff | internal/ipvs/event_handler.go:282-300 | the current tier moves on exactly when it is through and a higher tier is present, and then to the next |
| PressureTheorems.MovesOnIff | internal/ipvs/event_handler.go:282-300 | spelled out: it moves on to the next tier exactly when the count is positive, the eviction has been tried, and no container of the tier requests more than 10m, in the pods as last answered |
| PressureTheorems.TopTierStays | internal/ipvs/event_handler.go:288-300 | with no higher tier present the tier in turn stays |
| PressureTheorems.RankMovesInOrder | internal/ipvs/event_handler.go:282-300 | its rank falls only when the tier vanished; while present it rises only to the next tier, when degraded, eviction tried and nothing above 10m |
| PressureTheorems.RecoveryStartsOver | internal/controller/mckube_controller.go:500-505 | after a completed recovery nothing that happened before matters, and every tier starts from zero |
| PressureTheorems.OtherEventsLeaveNoTrace | internal/ipvs/event_handler.go:82-148 | unreadable events, events without pods and recoveries that stop early leave no trace in a run |
| PressureTheorems.LowestTierIsServedIff | internal/ipvs/event_handler.go:184-190 | an event changes the record of one tier only, and whichever it changes is that of the lowest present tier exactly when the current tier vanished or was the lowest |
| PressureTheorems.LowerTiersSufferFirst | internal/ipvs/event_handler.go:184-301 | while the tiers seen stay the same, through recoveries and events without pods, no tier is harmed before every lower one has had its eviction tried |
| EventHandler.PerTierState.Degrade | internal/ipvs/event_handler.go:237-266 | the degradation part, counting successes |
| EventHandler.PerTierState.Evict | internal/ipvs/event_handler.go:268-280 | the eviction part: the latch is set whether or not the API grants it |
| EventHandler.NodePressureState.ReindexCurrentTier | internal/ipvs/event_handler.go:428-444 | keeps the current tier at its new index, or restarts from the lowest |
| EventHandler.NodePressureState.ProcessCurrentTier | internal/ipvs/event_handler.go:191-301 | the whole processing of a tier, including the recursion past tiers without pods |
| EventHandler.Handler.HandleNodeCPUPressure | internal/ipvs/event_handler.go:82-182 | one event changes only its node's entry, as the state machine says; a missing or negative busy time counts as 0; an unreadable event changes nothing |
| EventHandler.Handler.HandleCPURecovery | internal/controller/mckube_controller.go:500-505 | clears the node's entry, and no other, unless the pods cannot be listed or none has the label |

## Left out

- Floating point: budgets are exact integers and reals, and the reduction by a fifth is exact; IEEE rounding at the boundaries is not part of this model.
- Settings.Required: a zero period, for which the source's quotient is infinite or not a number, is represented by a value beyond every 64-bit budget.
- The API server, its caches and conflicts: calls enter only as success or failure, and the copy a handler reads equals the stored one (stale caches are not modelled).
- Webhooks.SelectCore: the early exits on annotations and on a missing resource, the annotations other than the core, and the background goroutine that applies settings are not modelled.
- CoreSet.ParseCoreSet: a range whose upper end is the largest 64-bit number makes the source's loop run for ever; here it denotes its expansion.
- Concurrency: handlers are atomic steps; the unguarded sharing of pressure states between the reconciler and the node-event goroutine is not modelled.
- Pod identity: pools are keyed by bare pod names, as in the source; equal names in different namespaces are not told apart.
- Containers' requests below one millicore, which the source rounds up, and API responses to a resize other than as a new list of pods.
- The node agent's requests (cgroup changes, pre-eviction throttling and its time-to-live map) and their effect on running containers.
- The status field that repeats a pod's runtime mode.
- Runtime escalation on overrun events, the taint thread, finalizers, logging, HTTP, tokens, JSON and manifests.
- FindLeastLoadedCore: unused in the source; the same loop as the migration target without its conditions.
- The absence of overcommitment: admission reserves nothing and uses a higher limit than the controller, so no such property holds.
