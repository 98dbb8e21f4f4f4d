# Stellaris multi-cluster controllers: a verified model

Stellaris spreads resources over member clusters. This project models the controllers that decide
where replicas go and that keep the stored objects in step, and proves what they keep.

**The replica scheduler** (`Policies`, `RoundRobin`, `WaterLevel`, `TurnOrder`, `TurnRun`,
`WeightedScheduler`, `WeightedController`, `RoleRoundRobin`, `RoleTurns`, `RoleEnd`, `RoleScheduler`,
`RoleExamples`, `RoleController`, `ProportionalShares`). Step one gives every cluster a truncated share
clamped to its range; step two spreads the signed debt evenly and hands out the remainder one by one
over a shrinking, weight-sorted list with a cyclic index. There is one form per named cluster and one per cluster role.

**Failover and bindings** (`Snapshot`, `Failover`, `FailoverWalk`, `Bindings`, `BindingController`). The
cursor with four indices is a filter: it takes the next online candidate, wherever no other name stands
in its way. Bindings generated on one snapshot of the API server name online clusters only.

**The binding reconciler** (`Slices`, `ResourceRemoval`, `Labels`, `BindingCleanup`, `Names`, `StatusMerge`,
`SharedMerge`, `Overrides`, `Sync`, `SharedSync`, `SyncController`, `Wants`, `BindingSync`). Cluster resources
converge to what a binding wants, status lists to what the clusters report, labels to an index that
answers like a scan; deleting a resource removes it from every binding, and a changed override wakes
every binding it concerns.

**The monitor and the cluster status machine** (`Monitor`, `Lifecycle`, `Availability`). What the scheduler calls
online is traced back to the heartbeats of a cluster.

Code that updates objects, arrays and lists step by step is modelled by classes and methods, each proved
equal to a specification function; the lemmas about these functions carry the results. A schedule
call sees one snapshot of the API server, `Snapshot.World`; a sync works on a mutable `SyncController.Store`.
The share `int((float64(R)/float64(T))*float64(w))` is an arbitrary function of the three numbers, so the
results do not depend on how it rounds.

## Where the code departs from its intent

The model follows the code. For the departures that break a promise, lemmas give an input that shows
it and the exact condition under which the promise holds.

- The weighted loop tests `addNum` once per pass over the policies only, so a pass can drive it below
  zero; the loop then runs until every cluster is at its bound. `RoundRobin.Rounds` is the loop as
  written, `RoundRobin.Meant` the one with the guard that the role loop has; `WeightedScheduler.AsWrittenExact`
  compares them by a condition on the input.
- The `break` in the role loop leaves the `switch` only, and the next cluster reads the sorted list at
  index -1. The flag `asWritten` of `RoleRoundRobin.RoleSweep` chooses between this and leaving the cluster
  loop; `RoleScheduler.RoleAsWrittenExact` compares them.
- A role with two policies counts twice in the total weight and the sum of shares, once in the counts
  (`RoleScheduler.RoleAim`, `RoleExamples.RoleTwiceHalves`).
- When no cluster carries any role left in the sorted list, the role loop never ends (`RoleRoundRobin.SpinsForever`,
  `RoleExamples.SpareRoleSpins`).
- On which inputs the role loop returns, panics or never ends is computed from the counts after step one, by
  `RoleEnd.EndOf` (`RoleScheduler.RoleSchedule`, `RoleScheduler.RoleEndExact`). It can depend on the order of the
  clusters alone (`RoleExamples.ClusterOrderDecides`).
- Skipping an offline last member of a failover cluster set runs the set index past its end, and an empty
  set has no member to read. `Failover.CursorRefinesFilter` says how far the cursor gets; `Failover.Passable`
  is the condition under which it gets everywhere.
- The failover check collects a cluster set that cannot be read under its own name among the unavailable clusters, so
  an online cluster of that name is skipped (`Failover.DeletedSetHidesCluster`). `Failover.Unshadowed` is the exact
  condition under which no name stands in for another; `FailoverWalk.Walk` tells the names placed in every case.
- `&resource` and `&item` are addresses of one loop variable under Go 1.16 (`go.mod:3`). The datatype
  `LoopVar` has both readings, `Shared` for the code and `PerIteration` for the intent.
- A heartbeat turns each proxy condition into itself and a blank one. The register step's test
  for an online cluster looks at the object built for the request and is never true.
- `NewOverridePolicyFunc` does not reset its flag between bindings, so bindings can be
  enqueued in vain (`Overrides.QueueIsExact`).
- A binding labelled for the first time loses the labels others gave it (`Labels.OthersKept`).
- The scheduler writes replica counts to `Override[0].Value` of a binding cluster, a field that
  `pkg/apis/multicluster/v1alpha1/resource_binding_type.go:30-32` no longer has. The model holds one integer
  per cluster instead.
- `ApplyResourceOverride` and the sync compare raw contents that may be absent; where the source
  dereferences a nil pointer the model's outcome is `NilPanic`.

## Model

| member | source | states |
|---|---|---|
| WeightedScheduler.AsWrittenExact | pkg/controller/resource-schedule-policy/resource_schedule_policy_controller.go:301-347 | Allocation by weight as written, for every share function, policy list with distinct weight-and-name pairs and ordered ranges, and every sort of it: each count stays in its [Min, Max]; the total is Replicas or every cluster sits at the bound on the debt's side; the total is the intended one (Replicas clamped to [sum of Min, sum of Max]), and the counts are those of the guarded loop, if and only if `GivesTooMany` fails. That is a condition on the rooms after the fill, the remainder and the positions of the sorted entries in the policy list, with no loop run: the entry that gets the last replica and the next entry with room, together with the entries met between them, stand in that order in the policy list (also lines 383-486) |
| WeightedScheduler.AsMeantTotal | pkg/controller/resource-schedule-policy/resource_schedule_policy_controller.go:382-486 | With the role loop's `addNum == 0` guard (642-644) in the inner loop the total is always Replicas clamped to [sum of Min, sum of Max] and every count lies in its range |
| TurnRun.OvershootsFromStart | pkg/controller/resource-schedule-policy/resource_schedule_policy_controller.go:428-483 | The sweep that uses up the remainder serves another policy if and only if that static condition holds of the start: saturated policies and drops at any time included |
| TurnOrder.SortedExact | pkg/controller/resource-schedule-policy/resource_schedule_policy_controller.go:428-483 | When the sorted entries stand in policy-list order, the condition is only that the last replica is given out before the end of a turn of the list |
| WeightedScheduler.UnsaturatedExact | pkg/controller/resource-schedule-policy/resource_schedule_policy_controller.go:390-483 | The condition when the even fill leaves everybody with room: a remainder is left over, and the first policy by weight that gets none of it is listed behind the last one that does |
| WeightedScheduler.HeaviestFirstExact | pkg/controller/resource-schedule-policy/resource_schedule_policy_controller.go:390-483 | A policy list already sorted by weight gives too many if and only if the last replica of the remainder does not end a turn, saturated clusters included |
| WeightedScheduler.HeaviestFirstGivesTooMany | pkg/controller/resource-schedule-policy/resource_schedule_policy_controller.go:428-483 | A policy list already sorted by weight gives too many whenever the debt does not divide evenly and the fill leaves room |
| WeightedScheduler.EqualWeightsExample | pkg/controller/resource-schedule-policy/resource_schedule_policy_controller.go:301-347 | The concrete input: 20 replicas over three equal clusters of at most 15 end as 15, 15, 15 |
| WeightedScheduler.StepTwoIsFair | pkg/controller/resource-schedule-policy/resource_schedule_policy_controller.go:383-486 | Both forms of step two move every cluster from its clamped share by one common level, or as far as its bound allows, and single extra replicas go by weight |
| WeightedScheduler.FillConserves | pkg/controller/resource-schedule-policy/resource_schedule_policy_controller.go:401-426 | The even fill keeps replicas plus signed debt, takes nobody past the bound, and leaves a debt that is not negative |
| WeightedScheduler.SpreadInRange | pkg/controller/resource-schedule-policy/resource_schedule_policy_controller.go:383-486 | Step two, in either form, keeps every count inside its own range |
| WeightedScheduler.OvershootTotal | pkg/controller/resource-schedule-policy/resource_schedule_policy_controller.go:428-483 | When the remainder runs out in mid-sweep and somebody is still served, every cluster ends at its bound and more was moved than was owed; otherwise the two forms agree |
| WeightedScheduler.SplitIsDivision | pkg/controller/resource-schedule-policy/resource_schedule_policy_controller.go:390-399 | The even part and the leftover, defined by repeated subtraction, are the code's quotient and remainder |
| ProportionalShares.SharesAreNearest | pkg/controller/resource-schedule-policy/resource_schedule_policy_controller.go:360-379 | Step one by weight: a cluster's count is the share of its weight in the sum of the weight fields, or the end of its range that is nearer to that share (also lines 835-837) |
| ProportionalShares.WeightedIsProportional | pkg/controller/resource-schedule-policy/resource_schedule_policy_controller.go:301-347 | Where Replicas is k for each unit of the summed weights, the shares of k times a weight are exact and they fit the ranges, the schedule by weight gives every cluster exactly k times its weight (also lines 828-847) |
| ProportionalShares.FloorSharesAreExact | pkg/controller/resource-schedule-policy/resource_schedule_policy_controller.go:362 | Integer division is such a share function |
| RoundRobin.VisitStep | pkg/controller/resource-schedule-policy/resource_schedule_policy_controller.go:430-481 | One visit keeps replicas plus signed debt and all bounds and index limits, and the measure (room in the debt's direction plus list length) falls by one exactly when the visited policy is the current one |
| RoundRobin.Sweep | pkg/controller/resource-schedule-policy/resource_schedule_policy_controller.go:429-482 | One pass over the policies keeps replicas plus signed debt and well-formedness even when addNum goes negative, and its measure falls strictly when the current entry is among the policies it visits |
| RoundRobin.Rounds | pkg/controller/resource-schedule-policy/resource_schedule_policy_controller.go:428-483 | The whole loop as written ends, with addNum 0 or the list empty, never reads outside the list, and conserves replicas plus signed debt |
| RoundRobin.Meant | pkg/controller/resource-schedule-policy/resource_schedule_policy_controller.go:428-483 | The guarded loop ends with addNum 0 or the list empty, addNum never negative, conserving replicas plus signed debt |
| RoundRobin.RoundsFromMeant | pkg/controller/resource-schedule-policy/resource_schedule_policy_controller.go:428-483 | The written loop does what the guarded loop does, then finishes that loop's last sweep and goes on |
| RoundRobin.RoundsMeetMeant | pkg/controller/resource-schedule-policy/resource_schedule_policy_controller.go:428-483 | The written loop ends in the guarded loop's counts when no sweep serves a policy past the remainder; otherwise it only stops on the empty list, with room having been left |
| WaterLevel.VisitKeepsFair | pkg/controller/resource-schedule-policy/resource_schedule_policy_controller.go:436-481 | Fairness at every step: with one level c, every listed entry has received c, plus one below the cursor, and every dropped entry stands at its bound within that level; grants, wrap-around and removals keep it |
| WaterLevel.RoundsKeepFair | pkg/controller/resource-schedule-policy/resource_schedule_policy_controller.go:428-483 | The same over the whole loop as written, also once addNum is negative |
| WaterLevel.MeantKeepsFair | pkg/controller/resource-schedule-policy/resource_schedule_policy_controller.go:428-483 | The same over the guarded loop |
| WaterLevel.StartsFair | pkg/controller/resource-schedule-policy/resource_schedule_policy_controller.go:1009-1018 | A fresh sort of distinct policies starts fair at level zero, whatever order sort.Slice gives to equal weights |
| WaterLevel.FairIsWaterFilled | pkg/controller/resource-schedule-policy/resource_schedule_policy_controller.go:428-483 | What fairness means for the counts: every policy moved by the level (plus at most one), or to its bound |
| WeightedController.CalculateWeight | pkg/controller/resource-schedule-policy/resource_schedule_policy_controller.go:828-847 | The total weight is the sum of the weight fields, and the debt is Replicas minus the sum of the truncated shares |
| WeightedController.FirstReplaceReplicasByWeight | pkg/controller/resource-schedule-policy/resource_schedule_policy_controller.go:360-379 | The share, or the nearest count in the range; count plus debt is the share plus the old debt |
| WeightedController.FirstPass | pkg/controller/resource-schedule-policy/resource_schedule_policy_controller.go:315-337 | All clamped shares in place, and their sum plus DiffReplicas is Replicas |
| WeightedController.FillReplicas | pkg/controller/resource-schedule-policy/resource_schedule_policy_controller.go:390-426 | The in-place fill loop is the specified fill |
| WeightedController.VisitPolicy | pkg/controller/resource-schedule-policy/resource_schedule_policy_controller.go:430-481 | The in-place loop body is the specified visit of one policy |
| WeightedController.RoundRobinLoop | pkg/controller/resource-schedule-policy/resource_schedule_policy_controller.go:428-483 | The nested loop over the shrinking list and cyclic index computes the specified rounds |
| WeightedController.ReplaceReplicasByWeight | pkg/controller/resource-schedule-policy/resource_schedule_policy_controller.go:383-486 | Fill and round robin together compute step two |
| WeightedController.ScheduleByWeight | pkg/controller/resource-schedule-policy/resource_schedule_policy_controller.go:301-347 | The two steps over the array of counts compute the allocation the theorems above are about, and give exactly proportional counts wherever Replicas divides evenly and fits |
| RoleScheduler.PairSumByCluster | pkg/controller/resource-schedule-policy/resource_schedule_policy_controller.go:532-576 | Summing over policies and then clusters is summing over clusters through the first policy with the cluster's role, nothing for unmatched clusters (also lines 849-875) |
| RoleScheduler.AimIsReplicas | pkg/controller/resource-schedule-policy/resource_schedule_policy_controller.go:849-875 | With distinct policy roles the total that step two steers for is Replicas |
| ProportionalShares.RoleSharesAreNearest | pkg/controller/resource-schedule-policy/resource_schedule_policy_controller.go:532-576 | Step one by role: a cluster's count is the share of the first policy with its role in the weights of all clusters, or the end of that policy's range that is nearer to the share; nothing for a cluster whose role no policy has (also lines 855-861) |
| ProportionalShares.RoleIsProportional | pkg/controller/resource-schedule-policy/resource_schedule_policy_controller.go:488-530 | Where Replicas is k for each unit of weight over all clusters, with exact shares that fit, the schedule by role returns with exactly k times the weight of its role's policy for every cluster, also with two policies for a role (also lines 849-875) |
| RoleExamples.RoleTwiceHalves | pkg/controller/resource-schedule-policy/resource_schedule_policy_controller.go:849-875 | The concrete input with a repeated role: ten replicas over one cluster of at most ten with two policies for its role end as five, since its weight counts twice and its share once (also lines 532-576) |
| RoleScheduler.RoleOutcome | pkg/controller/resource-schedule-policy/resource_schedule_policy_controller.go:578-699 | Either reading of the role loop: ranges hold, addNum is never negative and is exactly what the total lacks or exceeds, a remainder on return means every listed role has a cluster at its bound, and a run that never returns has an uncarried role left in the list |
| RoleScheduler.RoleAsWrittenExact | pkg/controller/resource-schedule-policy/resource_schedule_policy_controller.go:671-691 | The loop as written, whose `break` only leaves the switch, reads index -1 if and only if the loop as meant drops the last entry of the list before the last cluster, and otherwise the two return the same; with distinct roles on the list this is the case exactly if the computed end is `Panics` |
| RoleScheduler.RoleSchedule | pkg/controller/resource-schedule-policy/resource_schedule_policy_controller.go:488-530 | The role schedule as written, for every share function, every list of policies with distinct roles and every set of clusters: it ends as `SpreadEnd` computes from the shares. With all given out the total is Replicas; whenever it returns, every count is in its role's range, the total is off by exactly the remainder, and a remainder is left only if every policy's role has a cluster at its bound |
| RoleScheduler.RoleEndExact | pkg/controller/resource-schedule-policy/resource_schedule_policy_controller.go:578-699 | Step two in either reading, for every list with distinct roles, any number of clusters to a role and clusters without a policy: it panics, never ends, or returns, with which remainder and total, if and only if the computed end says so |
| RoleEnd.RunEnds | pkg/controller/resource-schedule-policy/resource_schedule_policy_controller.go:634-696 | From the middle of any sweep the run ends as `EndOf` computes. That gives out no replica one by one: until a cluster is full when its turn comes every pass is the same, so the place of the first full cluster and what is given by then follow from the rooms; its role leaves the list, and the same question is asked of the shorter list |
| RoleEnd.LoopEnds | pkg/controller/resource-schedule-policy/resource_schedule_policy_controller.go:634-696 | The same for the loop from the front of the list |
| RoleEnd.ReadingsAgree | pkg/controller/resource-schedule-policy/resource_schedule_policy_controller.go:671-691 | The loop as meant never panics, and the loop as written ends in the same way unless it panics |
| RoleTurns.ReachFull | pkg/controller/resource-schedule-policy/resource_schedule_policy_controller.go:641-695 | From any place of a pass before the first full cluster, the run gives out everything, or it gets to that cluster with every cluster having received what is due |
| RoleScheduler.FullAtExists | pkg/controller/resource-schedule-policy/resource_schedule_policy_controller.go:634-696 | There is such a first full cluster if and only if some cluster has a listed role; otherwise the code returns only if the fill leaves nothing over, with the total at Replicas, and never ends in every other case |
| RoleScheduler.RoomMeansReturned | pkg/controller/resource-schedule-policy/resource_schedule_policy_controller.go:586-696 | When the even fill leaves every cluster with room, everything is given out, in both readings, and nobody panics |
| RoleScheduler.RoleNeverReturns | pkg/controller/resource-schedule-policy/resource_schedule_policy_controller.go:634-696 | When some listed role is carried by no cluster and Replicas lies outside the sums of the ranges, the code does not return; as meant, the loop never ends |
| RoleScheduler.RoleMeantExact | pkg/controller/resource-schedule-policy/resource_schedule_policy_controller.go:578-699 | The closed form for one cluster to a role, clusters without a policy included: as meant the loop never ends if and only if some listed role is uncarried and Replicas does not fit the ranges, and otherwise the total is Replicas clamped to them |
| RoleExamples.SpareRoleSpins | pkg/controller/resource-schedule-policy/resource_schedule_policy_controller.go:488-530 | The concrete input on which the code as written never returns: ten replicas over one cluster of at most five, and a policy for a role that no cluster has |
| RoleScheduler.RoleScheduleEnds | pkg/controller/resource-schedule-policy/resource_schedule_policy_controller.go:634-696 | It ends whenever every policy's role is carried by some cluster of the set |
| RoleExamples.StandbyFirstPanics | pkg/controller/resource-schedule-policy/resource_schedule_policy_controller.go:488-530 | The concrete input on which the code reads index -1, from the policies on: 15 replicas, a standby cluster of at most 1 listed before a main cluster of at most 20; step one gives 1 and 10 |
| RoleExamples.ClusterOrderDecides | pkg/controller/resource-schedule-policy/resource_schedule_policy_controller.go:488-530 | The concrete input on which the order of the clusters decides: 8 replicas over roles of weight 3, 2, 1 and at most 1, 6, 1 replicas end as 1, 6, 1, and with the last two clusters exchanged the code reads index -1 |
| RoleRoundRobin.RoleSweepKeeps | pkg/controller/resource-schedule-policy/resource_schedule_policy_controller.go:641-695 | One sweep keeps ranges, the total plus remainder, and what is saturated; it makes progress when a cluster ahead carries the current role; only the written form can read index -1 |
| RoleRoundRobin.SweepProgress | pkg/controller/resource-schedule-policy/resource_schedule_policy_controller.go:634-696 | Termination: while some listed role is carried, each turn with its sweep lowers the measure |
| RoleRoundRobin.SpinsForever | pkg/controller/resource-schedule-policy/resource_schedule_policy_controller.go:634-696 | When no listed role is carried and replicas remain, any number of further turns moves the cursor only |
| RoleRoundRobin.RoundsPanic | pkg/controller/resource-schedule-policy/resource_schedule_policy_controller.go:634-696 | The whole written loop is the meant loop, or reads index -1 exactly when that one strands |
| RoleController.CalculateWeightByRole | pkg/controller/resource-schedule-policy/resource_schedule_policy_controller.go:849-875 | The total weight is every policy's weight once for each cluster with its role, and the debt Replicas minus the sum of the shares over the same pairs |
| RoleController.FirstReplaceReplicasByClusterRole | pkg/controller/resource-schedule-policy/resource_schedule_policy_controller.go:532-576 | The share through the first policy of the cluster's role, or the nearest count in that policy's range, with the debt adjusted |
| RoleController.FirstPassByRole | pkg/controller/resource-schedule-policy/resource_schedule_policy_controller.go:502-521 | All first counts in place, and their sum plus DiffReplicas is what step two steers for |
| RoleController.FillAllByRole | pkg/controller/resource-schedule-policy/resource_schedule_policy_controller.go:586-633 | The in-place fill over the clusters, with Go's truncating division of a negative debt, is the specified fill |
| RoleController.SweepClusters | pkg/controller/resource-schedule-policy/resource_schedule_policy_controller.go:641-695 | One in-place sweep: goes on, returns on the empty list, or reads index -1, exactly as specified |
| RoleController.RoleLoop | pkg/controller/resource-schedule-policy/resource_schedule_policy_controller.go:634-696 | The whole in-place loop computes the specified rounds, with each of its three endings: done, index -1, and a list of uncarried roles over which the source loops for ever |
| RoleController.ReplaceReplicasByClusterRole | pkg/controller/resource-schedule-policy/resource_schedule_policy_controller.go:578-699 | Fill and loop together compute step two by role, with the same endings |
| RoleController.ScheduleByRole | pkg/controller/resource-schedule-policy/resource_schedule_policy_controller.go:488-530 | Both steps over the array of counts compute the allocation the theorems above are about, with the same endings, repeated roles included: step two then steers for `RoleAim` in place of Replicas. Wherever Replicas divides evenly over the clusters' weights and fits, it returns exactly proportional counts |
| Failover.AdvanceTakesNext | pkg/controller/resource-schedule-policy/resource_schedule_policy_controller.go:901-948 | From a cursor in line with the candidates, none of them shadowed, one call takes the next online candidate before the first entry the cursor cannot pass, fails if there is none, and leaves the cursor in line; covers the skip index that stays on its last entry |
| Failover.CallsTakeOnline | pkg/controller/resource-schedule-policy/resource_schedule_policy_controller.go:901-948 | Progress of k calls on one index model when no candidate is shadowed: the names so far are the first k online candidates in reach and the cursor stands right behind them |
| Failover.CheckIsFilter | pkg/controller/resource-schedule-policy/resource_schedule_policy_controller.go:737-772 | The check's count is the number of online candidates, whatever can be read; its list is the offline part of the flattened candidates if all sets can be read |
| Failover.CursorRefinesFilter | pkg/controller/resource-schedule-policy/resource_schedule_policy_controller.go:737-772 | The first k calls succeed for exactly those k that online candidates are within reach if and only if no online candidate within reach is shadowed, that is, has the very name the check collected next; they then place the first k online candidates. When every set can be read, is non-empty and ends in an online member, nothing is shadowed and all candidates are within reach, as many as the check counted (also lines 901-948) |
| Failover.ShadowedFails | pkg/controller/resource-schedule-policy/resource_schedule_policy_controller.go:901-948 | With a shadowed candidate within reach, fewer calls succeed than there are online candidates within reach |
| Failover.PlacedAreOnline | pkg/controller/resource-schedule-policy/resource_schedule_policy_controller.go:901-948 | Shadowed or not, every name the calls place is an online cluster |
| FailoverWalk.CallsWalk | pkg/controller/resource-schedule-policy/resource_schedule_policy_controller.go:901-948 | For every list of unavailable names, the first k calls on one index model succeed if and only if k is at most the length of one flat walk over the candidates, which skips a candidate when it has the name that is next on the list; they place its first k names |
| FailoverWalk.WalkIsFilter | pkg/controller/resource-schedule-policy/resource_schedule_policy_controller.go:901-948 | On the check's own list the walk is the online candidates within reach if and only if none of them is shadowed, and shorter otherwise; it never has an offline cluster |
| FailoverWalk.WalkEnds | pkg/controller/resource-schedule-policy/resource_schedule_policy_controller.go:901-948 | The first call that fails does so where the walk stops: with the error of a set that cannot be read, in the endless loop over an entry of another type, or with an index past the end of the entries or of a set |
| Failover.DeletedSetHidesCluster | pkg/controller/resource-schedule-policy/resource_schedule_policy_controller.go:745-768 | The concrete input: a deleted cluster set with the name of an online cluster is collected under that name, so the first call skips the cluster and returns the error for the set, although one candidate was counted (also lines 921-935) |
| Failover.OfflineLastMemberBlocks | pkg/controller/resource-schedule-policy/resource_schedule_policy_controller.go:938-943 | The concrete input: a cluster set whose last member is offline hides the online cluster behind it, although two candidates were counted |
| BindingController.FailoverPolicyCheck | pkg/controller/resource-schedule-policy/resource_schedule_policy_controller.go:737-772 | Count and list of the check, entry by entry |
| BindingController.DoFailoverPolicy | pkg/controller/resource-schedule-policy/resource_schedule_policy_controller.go:901-948 | The cursor object after one call, the appended name, and each way of not succeeding, the loop over an entry of another type included |
| Snapshot.GetClusterListByClusterSet | pkg/controller/resource-schedule-policy/resource_schedule_policy_controller.go:878-898 | The clusters of a set: the named ones, or those its selector matches, or none |
| Snapshot.SelectedInOrder | pkg/controller/resource-schedule-policy/resource_schedule_policy_controller.go:878-898 | The clusters a selector picks are those whose labels the selector's would not change, in the order of the list |
| Availability.BoundAreAlive | pkg/controller/resource-schedule-policy/resource_schedule_policy_controller.go:199-284 | From heartbeats to bindings: every cluster of a binding exists, and no monitor step since its last register or heartbeat looked the expiration time later; a primary cluster of which this is true stays in its place |
| Bindings.BindingSound | pkg/controller/resource-schedule-policy/resource_schedule_policy_controller.go:199-244 | When the check passes on a snapshot: names are generated if and only if the walk has a name for every offline primary, and the k-th offline one is replaced by the k-th of them; they are then as many as the primary clusters, online primaries keep their position and every bound cluster is online. If no candidate within reach is shadowed the walk is the online candidates within reach; if one is, it is shorter than these (also lines 262-284) |
| Bindings.BindIsCalls | pkg/controller/resource-schedule-policy/resource_schedule_policy_controller.go:266-284 | The names of a resource are the primary clusters with the answers of one index model's calls, in order, in place of the offline ones; there are none if and only if one of these calls fails |
| Bindings.BindIsWalk | pkg/controller/resource-schedule-policy/resource_schedule_policy_controller.go:266-284 | For every list of unavailable names, names are generated if and only if the walk over the candidates is as long as the list of offline primaries, and the walk's names take their places; otherwise it fails where the walk stops |
| Bindings.CheckAccepts | pkg/controller/resource-schedule-policy/resource_schedule_policy_controller.go:199-244 | The check accepts if and only if there are at least as many online failover candidates as offline primary clusters; it then returns the positions of these in order, and what it found unavailable if there are any |
| Bindings.GeneratedExactly | pkg/controller/resource-schedule-policy/resource_schedule_policy_controller.go:262-299 | When the check accepts, names are generated if and only if the walk has one for every offline primary, always when nothing is in the cursor's way, and otherwise it fails where the walk stops |
| BindingController.CheckClusters | pkg/controller/resource-schedule-policy/resource_schedule_policy_controller.go:215-243 | Offline positions, the failover check's list, and acceptance if and only if there are as many online failover candidates as offline primaries |
| BindingController.BindClusters | pkg/controller/resource-schedule-policy/resource_schedule_policy_controller.go:266-284 | The loop over the primary clusters computes the specified names, with each ending |
| BindingController.GenerateBinding | pkg/controller/resource-schedule-policy/resource_schedule_policy_controller.go:262-299 | Accepts if and only if there are as many online failover candidates as offline primaries; every resource of the policy then gets the same names, each with its own index model, all online and as many as the primaries. It ends without error if and only if the walk is long enough, always when nothing is in the cursor's way, and otherwise in the way the walk stops (also lines 701-734) |
| Sync.SyncConverges | pkg/controller/resource-binding/common.go:27-98 | With a variable per iteration a sync succeeds if and only if nothing wanted is blocked in the store, and then leaves exactly the target (also lines 158-168) |
| Sync.TargetIs | pkg/controller/resource-binding/common.go:27-98 | The target: every wanted key holds the patched content under this binding's label, nothing else of the binding is left in a control-plane namespace, everything unrelated is unchanged (also lines 100-122) |
| Sync.TargetInFull | pkg/controller/resource-binding/common.go:27-122 | The target object by object: a stored object under a wanted key only gets the new content, a new one has the binding's label and no status; of the others only this binding's own in control-plane namespaces are gone |
| Sync.SyncBlocked | pkg/controller/resource-binding/common.go:27-98 | How a blocked sync with a variable per iteration fails: on the first pair in the way, with the nil dereference if the binding's own object or the patched resource has no content and with AlreadyExists otherwise; the pairs before have been put into the store and nothing was deleted |
| Sync.SyncIsIdempotent | pkg/controller/resource-binding/common.go:27-98 | With a variable per iteration, a second sync of the same wants, over any listing of the new store, writes nothing |
| Sync.TargetIsStable | pkg/controller/resource-binding/common.go:27-98 | The target blocks nothing that is wanted and is its own target |
| Sync.QuietChangesNothing | pkg/controller/resource-binding/common.go:27-98 | In both readings of the loop variable a sync that writes nothing changes nothing |
| SharedSync.SharedExact | pkg/controller/resource-binding/common.go:156-168 | With the one loop variable that Go 1.16 gives, a sync that nothing blocks reaches the target if and only if the last listed resource has content wherever something is compared with it, and the variable does no harm: the other listed resources already have their content, and either nothing is left over and the last listed one ends with its own content, or it is itself the one thing left over |
| SharedSync.SharedAgain | pkg/controller/resource-binding/common.go:46-83 | With the one loop variable, a second sync of a store at its target writes nothing if and only if everything wanted has the content of the last listed resource (also lines 158-168) |
| SharedSync.SharedWritesAgain | pkg/controller/resource-binding/common.go:46-83 | The concrete input: two stored, wanted resources with different contents; the second sync writes twice, with a variable per iteration not at all (also lines 158-168) |
| SharedSync.TwoLeftoversFail | pkg/controller/resource-binding/common.go:86-97 | Two stale resources are enough to fail: the second deletion does not find its object; with a variable per iteration it does (also lines 158-168) |
| SyncController.ChangeClusterResourceListToMap | pkg/controller/resource-binding/common.go:158-168 | The map from key strings to addresses stands for the listed control-plane resources: own copies, or all one variable |
| SyncController.ListingIsOwned | pkg/controller/resource-binding/common.go:158-178 | A listing by label, reduced to control-plane namespaces, is the binding's own set of resources |
| SyncController.SyncPair | pkg/controller/resource-binding/common.go:46-83 | One resource and cluster: created, left alone or updated through the map, each error included |
| SyncController.DeleteLeft | pkg/controller/resource-binding/common.go:86-97 | The deletion loop, in any order of the map |
| SyncController.SyncClusterResource | pkg/controller/resource-binding/common.go:27-98 | The whole routine over a mutable store: contents, outcome and number of writes are those of the specified run; an empty binding changes nothing |
| Wants.WantedIsRight | pkg/controller/resource-binding/common.go:33-42 | What a binding wants, from the binding and the inputs: one entry for each readable resource and each of its clusters, in order, in that cluster's namespace, named after the binding and the kind, with the content patched as meant for the pair; two entries have the same key if and only if they are for the same cluster and the same kind (also lines 103-150) |
| Wants.EmptyStore | pkg/controller/resource-binding/common.go:27-98 | A sync over an empty store succeeds, in both readings of the loop variable, if and only if no two pairs of a resource and a cluster agree on cluster and kind, and then leaves one object for each |
| Names.NamesTellKinds | pkg/controller/resource-binding/common.go:147-150 | The object names of one binding are equal if and only if group, version and lower-case kind are, over versions and kinds without a dot (also pkg/common/config.go lines 58-64) |
| BindingSync.ListForBinding | pkg/controller/resource-binding/common.go:170-178 | The listing by label is each resource of the binding once, in some order |
| BindingSync.SyncClusterResourceWithBinding | pkg/controller/resource-binding/common.go:17-24 | Listing and sync over the store, for both readings of the loop variable. With one per iteration the sync succeeds if and only if nothing wanted is blocked, then leaves the target of the binding's own wants, and on a store at its target writes nothing. With the one variable of Go 1.16 a sync that nothing blocks succeeds and leaves the target if and only if the last listed resource has content where it is compared and the variable does no harm, and on the target it writes nothing if and only if all is like the last listed resource. Keys and namespaces stay in order in every case. When nothing is stored yet it succeeds if and only if no two pairs agree on cluster and kind, and leaves one object for each |
| BindingSync.SyncTwice | pkg/controller/resource-binding/common.go:17-98 | Two such syncs in a row: if the first one leaves the target, the second one changes and writes nothing, with a variable per iteration always, with the one variable if and only if all is like the resource listed last then |
| StatusMerge.StepExact | pkg/controller/resource-binding/resource_binding_controller.go:135-180 | Merging one cluster resource leaves exactly one agreeing entry and every other entry alone, if and only if: a variable per iteration, or no entry yet, or its entry has the last key, or both it and the last entry already agree |
| StatusMerge.MergeIsRight | pkg/controller/resource-binding/resource_binding_controller.go:135-171 | With a variable per iteration, from unique keys: every reporting resource has exactly one entry, agreeing on phase, message and generation; other keys keep their multiset; keys stay unique |
| StatusMerge.ReportsAreListed | pkg/controller/resource-binding/resource_binding_controller.go:135-186 | In plain fields, over cluster names without a dot: every reporting resource ends with one entry under its cluster's name and its own, with its phase, message and generation |
| StatusMerge.EntriesAreReports | pkg/controller/resource-binding/resource_binding_controller.go:135-171 | In both readings of the loop variable every entry was there before or is the report of one of the resources, labelled with this binding |
| StatusMerge.MergeTwice | pkg/controller/resource-binding/resource_binding_controller.go:135-171 | With a variable per iteration, a second run on the result changes nothing and writes nothing |
| SharedMerge.SharedMergeExact | pkg/controller/resource-binding/resource_binding_controller.go:135-180 | A whole run with the one loop variable does what it should if and only if each reporting resource in turn has no entry yet, or has the key of the last entry of the list at that time, or agrees with both; a wrong step is repaired by no later one |
| SharedMerge.SharedQuietExact | pkg/controller/resource-binding/resource_binding_controller.go:135-180 | A run with the one loop variable, a second one too, changes and writes nothing if and only if every reporting resource has an entry and agrees with the last entry of the list |
| StatusMerge.SharedLosesOther | pkg/controller/resource-binding/resource_binding_controller.go:173-180 | The concrete input under Go 1.16: a new phase of the first cluster removes the second cluster's entry and leaves the first one twice |
| StatusMerge.BindingClusterStatusMap | pkg/controller/resource-binding/resource_binding_controller.go:173-180 | The map of addresses: the last item under each key, or the last item of all |
| StatusMerge.BindingStatus.UpdateBindingStatus | pkg/controller/resource-binding/resource_binding_controller.go:135-171 | The loop over cluster resources computes the specified merge and whether to write |
| StatusMerge.BindingStatus.RemoveItem | pkg/controller/resource-binding/common.go:124-145 | Removes the first equal entry, in the order the slice helper leaves |
| Labels.LabelsStabilise | pkg/controller/resource-binding/resource_binding_controller.go:194-242 | One labelling step leaves nothing to change |
| Labels.IndexIsScan | pkg/common/config.go:66-72 | On a stable non-empty binding the label index answers exactly what a scan of its resources would |
| Labels.OthersKept | pkg/controller/resource-binding/resource_binding_controller.go:220-234 | Other labels survive the step if and only if there are none or the binding already had a resource label |
| Labels.BuildShouldExistLabels | pkg/controller/resource-binding/resource_binding_controller.go:236-242 | The label map of a binding's resources |
| Labels.LabelMap.ReplaceLabels | pkg/controller/resource-binding/resource_binding_controller.go:220-234 | The new label map, updated in place, in all three cases |
| ResourceRemoval.RemoveFromBinding | pkg/controller/multi-cluster-resource/multi_cluster_resource_controller.go:94-100 | The find-and-remove loop, ranging over the list as it was, leaves as a multiset precisely the entries with another name, duplicates included |
| Slices.RemoveObject | pkg/controller/multi-cluster-resource/multi_cluster_resource_controller.go:160-180 | Copy, find and remove drops exactly one occurrence |
| Slices.RemovedAtDropsOne | pkg/utils/slice/slice_util.go:46-59 | Whichever branch the index takes, exactly one occurrence is gone |
| Slices.RemovedAtOrder | pkg/utils/slice/slice_util.go:46-59 | The others keep their order, except that index 1 sends the first element to the end |
| Slices.RemoveObjectWithIndex | pkg/utils/slice/slice_util.go:46-59 | The in-place removal returns that list, also where it overwrites the argument; the argument then holds the returned list and its old last element, and is unchanged in the other branches |
| Slices.GetIndexWithObject | pkg/utils/slice/slice_util.go:32-44 | The first index of an object, or -1 exactly when it is absent |
| BindingCleanup.BindingStore.UpdateBinding | pkg/controller/multi-cluster-resource/multi_cluster_resource_controller.go:87-119 | Every listed binding loses the resource or is deleted when nothing is left; the others are untouched |
| BindingCleanup.NoBindingNamesIt | pkg/controller/multi-cluster-resource/multi_cluster_resource_controller.go:87-119 | With stable labels, afterwards no binding names the resource, a binding is gone if and only if it named nothing else, and no other entry is lost |
| Names.ClusterNameRoundTrip | pkg/common/config.go:47-56 | The cluster name comes back from its namespace if and only if it does not contain the prefix |
| Names.CutAllShortens | pkg/common/config.go:51-56 | Cutting out all occurrences changes a string exactly when there is one, and shortens it then |
| Names.MapKeyInjective | pkg/controller/resource-binding/common.go:152-154 | Keys are equal exactly for equal namespace and name, over namespaces without a dot |
| Overrides.ConcernsMeansPatches | pkg/controller/resource-binding/resource_override.go:24-51 | A binding is concerned by an override if and only if applying it to one of its resource and cluster pairs gives a patch |
| Overrides.ApplyResourceOverride | pkg/controller/resource-binding/resource_override.go:24-51 | The nested loops give the last document of a chain: there is one patch for every cluster entry meant for the pair, in order of overrides and entries; the result is a document if and only if each patch leads from the document before to the next one, and nothing if and only if there was no content or a patch failed on the way (also pkg/controller/common/json_patch_util.go lines 12-32) |
| Overrides.PatchesForArePatches | pkg/controller/resource-binding/resource_override.go:37-49 | The collected patches are those of all cluster entries that name the cluster in overrides that name the resource, in order |
| Overrides.ApplyAllIsPatched | pkg/controller/common/json_patch_util.go:12-32 | Applying patches one by one gives a document if and only if a chain of documents leads to it, and nothing if and only if there is no content or the chain breaks off |
| Overrides.QueueIsComplete | pkg/controller/resource-binding/resource_override.go:62-107 | Every binding the override concerns is enqueued, and none twice |
| Overrides.QueueIsExact | pkg/controller/resource-binding/resource_override.go:70-105 | Nothing is enqueued in vain if and only if no binding that names the resource without the cluster follows the flag being set |
| Overrides.QueueInFull | pkg/controller/resource-binding/resource_override.go:62-107 | A binding is enqueued exactly if one of its resources is named by the override and it, or a binding before it in the list, is concerned |
| Overrides.NewOverridePolicyFunc | pkg/controller/resource-binding/resource_override.go:62-107 | The loops with their never-reset flag compute the specified queue |
| Monitor.ContainedIsListed | pkg/core/monitor/monitor.go:112-125 | For an existing cluster the monitor's membership test agrees with the scheduler's list of the set |
| Monitor.ClusterSetContainsCluster | pkg/core/monitor/monitor.go:112-135 | The membership test: by name, or by labels |
| Monitor.ShouldReSchedule | pkg/core/monitor/monitor.go:92-110 | For every policy, true exactly when the policy is one it asks about and the scheduler's check would inspect the cluster |
| Monitor.MarksWhatTheCheckSees | pkg/core/monitor/monitor.go:67-110 | When marking and inspecting agree: for every policy with failover clusters and a valid source, unless it names a set that holds the cluster and lists no policies |
| Monitor.MarkedHasOfflinePrimary | pkg/core/monitor/monitor.go:67-90 | A policy that is marked for an offline cluster stands for an offline primary cluster, by the list the scheduler's check goes through, and has failover clusters (also pkg/controller/resource-schedule-policy/resource_schedule_policy_controller.go lines 207-232) |
| Monitor.MarksExactly | pkg/core/monitor/monitor.go:67-110 | For every policy: without failover clusters it is never marked; with them, exactly if it names the cluster itself, or its cluster set contains it and it lists any policy, by the kind of its source |
| Monitor.PolicyStore.PolicyReSchedule | pkg/core/monitor/monitor.go:67-90 | Exactly those policies are marked and nothing else changes |
| Lifecycle.RunIsSafe | pkg/controller/cluster/common.go:16-34 | Every run of register, heartbeat, monitor and auto-deploy steps: stored conditions are the trimmed log, an online cluster's newest own condition is ClusterReady or ClusterNotReady, an offline one's is ClusterNotReachable and its last heartbeat is at least the expiration time old |
| Lifecycle.StoredAreLastTen | pkg/controller/cluster/common.go:29-34 | Stored conditions are the last min(10, n) of the n ever appended, in order, whatever the clocks do |
| Lifecycle.NewestTellsStatus | pkg/core/handler/heartbeat_handler.go:74-91 | With no proxy-sent conditions the newest stored condition tells the status |
| Lifecycle.ProxyConditionOnTop | pkg/core/handler/heartbeat_handler.go:74-91 | With proxy-sent conditions a heartbeat of an online cluster leaves the proxy's condition on top, after a blank one |
| Lifecycle.OfflineExactly | pkg/core/monitor/monitor.go:48-62 | Over every run, whatever the clocks do: a cluster is offline if and only if it was heard of and a later monitor step looked at least the expiration time after the last register or heartbeat; otherwise it is online, or was never heard of |
| Lifecycle.HealthIsReported | pkg/core/handler/heartbeat_handler.go:74-91 | Over every run the stored health is what the last register or heartbeat reported, and before the first of them the cluster is initialising exactly if the proxy was deployed |
| Lifecycle.NewestSaysLastWrite | pkg/common/cluster-health/check.go:46-82 | Over every run the newest condition of the control plane says what the event told that wrote it: ClusterReady for a register or a healthy heartbeat, ClusterNotReady for an unhealthy one, ClusterNotReachable for the monitor |
| Lifecycle.Cluster.Register | pkg/core/handler/register_handler.go:91-110 | The register step on an existing cluster |
| Lifecycle.Cluster.ReceiveHeartbeat | pkg/core/handler/heartbeat_handler.go:74-91 | The heartbeat step, blank conditions included |
| Lifecycle.Cluster.CheckExpired | pkg/core/monitor/monitor.go:48-62 | The monitor step, and whether it took the cluster offline |
| Lifecycle.Cluster.GoOffline | pkg/controller/cluster/common.go:16-27 | Going offline appends one condition and trims; an offline cluster is left alone |
| Lifecycle.Cluster.DeployProxy | pkg/controller/cluster/cluster_controller.go:68-75 | The auto-deploy step only turns a fresh cluster into an initialising one |

## Left out

- WeightedScheduler.AsWrittenExact: assumes policies distinct by weight and name and Min <= Max; with two equal entries one visit can serve the other's turn.
- WeightedScheduler.EqualWeightsExample: uses exact integer division as its share function.
- RoleScheduler.RoleSchedule: assumes distinct policy roles, as `RoleScheduler.RoleEndExact` does; without them `RoleScheduler.RunStrands` follows the run. It does not claim the total is Replicas clamped to the ranges, since a role leaves the list at its first saturated cluster even if others of the role have room.
- RoleScheduler.RoleMeantExact: assumes at most one cluster to a role; `RoleScheduler.RoleEndExact` covers the others.
- RoleScheduler.RoomMeansReturned: assumes a policy for every cluster's role; a cluster without one has no room.
- RoleScheduler.PairSumByCluster: assumes distinct policy roles; with a repeated role the two sums differ.
- RoleController.ScheduleByRole: assumes that the set lists its clusters, and a cluster listed more than once always with the same role. Where the source never returns, the method ends with the outcome `NeverEnds`, as `BindingController.DoFailoverPolicy` does for an entry of another type.
- SharedSync.SharedAgain: assumes that patching leaves every wanted resource with content, as `Sync.SyncIsIdempotent`, `Sync.TargetIsStable` and `BindingSync.SyncTwice` do; without content the comparison is a nil dereference.
- BindingSync.SyncClusterResourceWithBinding: with the one variable, says nothing of a sync that the store blocks.
- SharedMerge.SharedMergeExact: assumes at most one listed resource and one entry to a key.
- Names.NamesTellKinds: lower case is that of ASCII letters, and versions and kinds have no dot.
- StatusMerge.ReportsAreListed: restricted to cluster names without a dot.
- Names.MapKeyInjective: restricted to namespaces without a dot, as the API server admits them; `Names.MapKeyClash` shows the need.
- Slices.RemoveObjectWithIndex: leaves out indices on which slicing panics, and spare capacity behind the slice.
- Lifecycle.RunIsSafe: assumes the clock is not set back between a monitor's reading and the step that follows it.
- Go's 64-bit wrap-around: integers are unbounded.
- Floating-point rounding of the share: any function of the three numbers.
- The order `sort.Slice` gives to equal weights: any sorted permutation, as a parameter.
- Patches (section 4 of RFC 6902): an opaque partial function.
- Conversion between strings and integers, the replicas field and namespace-mapping overrides, and the counts of duplicated-mode policies.
- API calls that fail for reasons other than a missing or an existing object, resource-version conflicts, and lists that are stale.
- Creation of new clusters beyond their empty first status, update of a binding's status subresource, finalizers, garbage collection, watches, requeue delays and logging.
- The gRPC channel, heartbeat addons, proxy deployment, kubeconfig handling, CUE rendering, webhooks and generated code.
- Label selectors that do not parse.
