# Verified model of the power HAL core

This project models the stateful core of a vendor power HAL and proves what it keeps over every run.

* **Resource arbiter.** Up to 256 scenario slots ask for values of hundreds of resources, each slot with a
  priority (a lower number wins). The service keeps the winning value of each resource incrementally.
  `Arbitration` is the theory of one resource, `PerfServiceSpec` the service as a state machine whose steps
  are the locked API calls, `PerfServiceProofs` what every run keeps, `PerfServiceLaws` what each call means to its
  callers, `PerfService` the class whose array loops carry the steps out. The reference is `IsOptimum`: the lexicographic optimum over the requests in force, with
  no history in it.
* **CPU frequency limits** (`CpuFreq`): the requests for cores, clusters and hard windows, and the floor and ceiling
  written for them.
* **Linked containers**: the doubly linked list with bisecting insertion and bottom-up merge sort
  (`DoublyLinkedList`, `OrderedInsert`, `ListSort`, `MergeSort`), the chained hash table (`HashTable`) and the
  two-dimensional priority queue (`PriorityQueue`). Links are heap fields; a ghost sequence says what they spell.
  `MiUtil` and `Bounds` hold what modules share.
* **Timers**: wrapping time arithmetic and list order (`TimerClock`), the timer manager (`PTimer`) and the pool of
  callback timers (`PowerTimer`).
* **Base64** (section 4 of RFC 4648, newlines skipped as section 3.1 allows): meaning and round trip (`Base64`), the
  buffer loops (`Base64Codec`), streaming, sizes and the shifted configuration files (`Base64Stream`).
* **Application list** (`AppListSpec`, `AppList`): resumed activities, scenario selection, and the locks taken and
  given back for them.

State that the code changes in place is changed in place here: classes over arrays and linked nodes, each method
specified by a function or relation of the old state, and the theorems proved of those. `dafny verify dfyconfig.toml`
checks everything.

What the environment decides is a parameter: the clock, which processes exist, the answers of the lock server,
the pattern match of package names, and the outcome of one comparison with uninitialised memory (below).

Where code and intention part, the code is modelled, and the results say exactly when the intention holds:

* A re-acquire can leave a winning value stale: by lowering the priority of the scenario that alone holds it
  (`Arbitration.DemotionGoesStale`), or by weakening its request in a call taken for unchanged
  (`Arbitration.WeakenedGoesStale`). `Arbitration.ChangeExact` and `PerfServiceProofs.ChangeScnExact` give the exact
  condition for one call, `PerfServiceProofs.EveryRunOptimal` for whole runs, and `PerfServiceWitness` a run from boot that goes
  stale.
* `perfLockAcq` compares the new request with a buffer it has just allocated and not filled. The outcome is a free
  parameter (`bufferEqual`) of every result; `PerfServiceProofs.MeantRunsOptimal` is what the comparison with the list
  last applied would guarantee.
* `perfLockAcq` succeeds only for a registered handle, because its time-stamp helper rejects index -1; registration is
  `perfLockCheckHdl`.
* Timers are kept in order of seconds only (`TimerClock.FinerOrderIsLost`, `TimerClock.FinerOrderExact`,
  `TimerClock.HeadWithinASecond`).
* A CPU frequency ceiling of 0 or less, asked for a core or a cluster, is no ceiling, except together with a floor
  (`CpuFreq.NoCeilingExact`). As a hard ceiling it is taken literally and stops the cluster
  (`CpuFreq.HardCeilingOfZeroPins`, `CpuFreq.NoHardCeilingExact`).
* The foreground count compares package names by prefix (`AppListSpec.ForegroundCountExact`,
  `AppListSpec.MultiWindowExact`), and names that do not fit their buffer are never recognised again
  (`AppListSpec.LongNameListedTwice`).
* A comment in the Base64 encoder says that its size is 0 when adding 2 to the length overflows; it is 1. The test made
  there is exact all the same (`Base64Stream.OverflowTestExact`).
* An active scenario may hold no lock. When a process dies its entries give back their locks, but a scenario that stays
  selected keeps status 1 (`AppList.DeathLeavesNoLock`); and a reload looks up the process by the configured name, so a
  scenario selected through a pattern becomes active without a lock (`AppList.WildcardNeverLocked`). The contracts of
  `AppList.Service.NotifyAppState` and `AppList.Service.Reload` say exactly when every active scenario holds one.

## Model

| member | source | states |
|---|---|---|
| `Arbitration.OptimumUnique` | power/lib/powerhal/perfservice.cpp:1461-1677 | the lexicographic optimum (lowest priority number, then best value) over the scenarios that are on is unique, so "the winning value" is well defined without any history |
| `Arbitration.OptimumIsExtreme` | power/lib/powerhal/perfservice.cpp:1461-1677 | what winning means: no request in force is in a more urgent class, and within the class the value is the least (SMALLEST) or greatest (BIGGEST) asked for; with none in force it is the reset value at the lowest priority |
| `Arbitration.SentinelLoses` | power/lib/powerhal/perfservice.cpp:3383-3390 | the "no request" value lies next to the worst legal value, outside the range, and loses to every legal one |
| `Arbitration.ScanIsOptimum` | power/lib/powerhal/perfservice.cpp:1590-1677 | the rescan over all slots yields exactly that optimum, and its setter is a scenario that attains it, or -1 when nobody asks |
| `Arbitration.RescanCorrect` | power/lib/powerhal/perfservice.cpp:1590-1677 | after a rescan the kept value, priority and setter are right, and the hardware was last given the kept value, or the default once it is the reset value |
| `Arbitration.InitialCorrect` | power/lib/powerhal/perfservice.cpp:3368-3404 | a freshly loaded table entry is the optimum of no requests |
| `Arbitration.EnableKeepsCorrect` | power/lib/powerhal/perfservice.cpp:1340-1391 | the one-comparison update on switching a scenario on gives the from-scratch optimum over all scenarios including it, with the right setter and the right value pushed |
| `Arbitration.EnableIdempotent` | power/lib/powerhal/perfservice.cpp:1340-1391 | enabling a scenario that is already on changes nothing |
| `Arbitration.DisableKeepsCorrect` | power/lib/powerhal/perfservice.cpp:1573-1677 | the guard that decides whether to rescan never skips a departure that mattered: the entry is the from-scratch optimum of the rest |
| `Arbitration.DisableLeavesOthers` | power/lib/powerhal/perfservice.cpp:1590-1636 | a departure that did not hold the winning value leaves the entry, setter and hardware included, as it is |
| `Arbitration.InvalidStays` | power/lib/powerhal/perfservice.cpp:1350-1351 | a resource that is not valid is never touched, in either table |
| `Arbitration.ChangeExact` | power/lib/powerhal/perfservice.cpp:1340-1677 | when a scenario changes its request, by a forced update or by an enable, the entry stays right if and only if the call does not pass over an entry that only this scenario was holding up; for value and priority alone and for whole entries (setter, hardware) alike. A forced update passes over by the skip at line 1583, an enable when the new request is weaker |
| `Arbitration.KeptExact` | power/lib/powerhal/perfservice.cpp:1573-1592 | leaving an entry alone while one request weakens is right if and only if that request was not the only one behind it |
| `Arbitration.DemotionGoesStale` | power/lib/powerhal/perfservice.cpp:1583-1584 | a concrete demotion, by forced update, after which the kept value is not the optimum |
| `Arbitration.WeakenedGoesStale` | power/lib/powerhal/perfservice.cpp:1340-1391 | a concrete weaker request, enabled as if unchanged, after which the kept value is not the optimum |
| `Arbitration.OffersDecide` | power/lib/powerhal/perfservice.cpp:1461-1677 | the optimum depends only on the set of (priority, value) requests in force, not on slots, processes or order |
| `Arbitration.Confluence` | power/lib/powerhal/perfservice.cpp:1238-1737 | two optimal entries with the same requests in force hold the same value and priority |
| `Arbitration.EnableDisableUndo` | power/lib/powerhal/perfservice.cpp:1238-1737 | enabling and disabling again restores value and priority |
| `Arbitration.ConScanAgrees` | power/lib/powerhal/perfservice.cpp:1479-1542 | the control table's differently written rescan computes the same value and priority as the resource table's |
| `Arbitration.ConStepsAgree` | power/lib/powerhal/perfservice.cpp:1258-1339 | every control-table step is the resource-table step on the shared fields, so all results carry over |
| `Arbitration.ConValues` | power/lib/powerhal/perfservice.cpp:1461-1568 | disabling and changing a control entry does to it what it does to the value and priority of a resource entry |
| `Arbitration.Clamp` | power/lib/powerhal/perfservice.cpp:2007-2037 | clamping a request gives a legal value that is never the "no request" sentinel, and leaves legal values alone |
| `PerfServiceProofs.EnableScnKeeps` | power/lib/powerhal/perfservice.cpp:1238-1428 | switching on any scenario that was off keeps every entry of both tables right |
| `PerfServiceProofs.EnableOnIsIdle` | power/lib/powerhal/perfservice.cpp:1238-1428 | enabling a scenario that is on is the identity on the whole state |
| `PerfServiceProofs.DisableScnKeeps` | power/lib/powerhal/perfservice.cpp:1439-1737 | switching off any scenario keeps both tables correct |
| `PerfServiceProofs.ChangeScnExact` | power/lib/powerhal/perfservice.cpp:1238-1737 | both tables survive new settings of a scenario, by forced update or enable, if and only if no valid entry that it alone holds up is passed over |
| `PerfServiceProofs.NoDemotionIsSafe` | power/lib/powerhal/perfservice.cpp:1583-1584 | a forced update that keeps or raises the priority is always safe |
| `PerfServiceProofs.UnchangedIsSafe` | power/lib/powerhal/perfservice.cpp:1238-1428 | enabling again with unchanged settings is always safe |
| `PerfServiceProofs.HandleCycle` | power/lib/powerhal/perfservice.cpp:2166-2173 | the counter yields the closed form, never 0, with period HANDLE_RAND_MAX - 1 |
| `PerfServiceProofs.HandlesDiffer` | power/lib/powerhal/perfservice.cpp:2166-2173 | allocations less than one period apart get different handles |
| `PerfServiceProofs.LookupUnique` | power/lib/powerhal/perfservice.cpp:2175-2191 | lookup of a live handle returns its own slot and no other |
| `PerfServiceProofs.RegisterKeeps` | power/lib/powerhal/perfservice.cpp:2963-3088 | registering keeps the invariant: tables, handles, free slots reset |
| `PerfServiceProofs.ReleaseKeeps` | power/lib/powerhal/perfservice.cpp:3245-3275 | releasing keeps the invariant and resets exactly that slot |
| `PerfServiceProofs.ReapKeeps` | power/lib/powerhal/perfservice.cpp:2350-2388 | reaping resets exactly the reapable slots, leaves the others untouched, and keeps the invariant |
| `PerfServiceProofs.ScreenOffKeeps` | power/lib/powerhal/perfservice.cpp:2282-2325 | the screen-off sweep makes of every slot what its state, its screen-off action and the life of its process call for (kept, off, waiting for restore, or freed), and keeps the invariant |
| `PerfServiceProofs.CheckHdlKeeps` | power/lib/powerhal/perfservice.cpp:2963-3088 | handle checking and registration keep the invariant |
| `PerfServiceProofs.ExhaustionIsReal` | power/lib/powerhal/perfservice.cpp:2963-3088 | a well-formed registration fails iff every slot is in use and none is reapable |
| `PerfServiceProofs.CheckHdlRegisters` | power/lib/powerhal/perfservice.cpp:2963-3088 | a new handle is found again, its slot is off and asks for nothing |
| `PerfServiceProofs.RequestLegal` | power/lib/powerhal/perfservice.cpp:1921-2051 | applying any request list leaves only legal values and does not touch identity or state of the slot |
| `PerfServiceProofs.RequestMeaning` | power/lib/powerhal/perfservice.cpp:1921-2051 | after a request list each resource has the last value the list asks for it, clamped; resources the list does not name are left alone; the last priority wins |
| `PerfServiceProofs.AcquireExact` | power/lib/powerhal/perfservice.cpp:3148-3243 | an acquire keeps the invariant if and only if it strands no resource, whatever the comparison with the unfilled buffer says |
| `PerfServiceProofs.RelKeeps` | power/lib/powerhal/perfservice.cpp:3245-3275 | releasing any handle, known or not, keeps the invariant |
| `PerfServiceProofs.SecondReleaseFails` | power/lib/powerhal/perfservice.cpp:3245-3275 | a second release of a handle returns -1 and changes nothing |
| `PerfServiceProofs.StepExact` | power/lib/powerhal/perfservice.cpp:2282-3275 | every API call keeps the invariant if and only if it is fair; only an acquire can be unfair |
| `PerfServiceProofs.BootInv` | power/lib/powerhal/perfservice.cpp:3368-3404 | the state after loading the tables satisfies the invariant |
| `PerfServiceProofs.EveryRunOptimal` | power/lib/powerhal/perfservice.cpp:1238-3275 | at every point of a run from boot each incrementally kept value of both tables is the from-scratch optimum over the scenarios that are on, if and only if no call strands a resource; likewise for whole entries, with setter and pushed value |
| `PerfServiceWitness.DemotionRunGoesStale` | power/lib/powerhal/perfservice.cpp:1583-1584 | a run from boot, two registrations and three acquires, that is unfair and ends with a value that is not the optimum |
| `PerfServiceProofs.AcquiredIsSettled` | power/lib/powerhal/perfservice.cpp:3185-3223 | applying the list last applied again changes no setting |
| `PerfServiceProofs.AsMeantIsFair` | power/lib/powerhal/perfservice.cpp:3204-3217 | if the comparison says whether the list is the one last applied, and no live scenario is demoted, the call is fair |
| `PerfServiceProofs.MeantRunsOptimal` | power/lib/powerhal/perfservice.cpp:1238-3275 | so every run from boot with that comparison and without such demotions keeps whole entries right throughout |
| `PerfServiceProofs.RunsConfluent` | power/lib/powerhal/perfservice.cpp:1238-3275 | two runs whose values stayed optimal and that end with the same requests in force end with the same effective values, whatever the calls, their order and the slots |
| `PerfServiceProofs.EnableDisableRestores` | power/lib/powerhal/perfservice.cpp:1238-1737 | enabling then disabling an off scenario restores every effective value of both tables |
| `PerfServiceLaws.CheckHdlAnswers` | power/lib/powerhal/perfservice.cpp:2963-3088 | a live handle is returned unchanged; an illegal size, or a dead caller without a bounded duration, gets 0; neither changes anything; otherwise an answer other than 0 is the next handle |
| `PerfServiceLaws.CheckHdlSlot` | power/lib/powerhal/perfservice.cpp:2993-3085 | a new handle comes with a slot of that process, hint, kind and duration, off, at normal priority |
| `PerfServiceLaws.SweepFreesTheDead` | power/lib/powerhal/perfservice.cpp:2350-2388 | after a sweep the living and the protected have the slots they had; what is in use is alive, always valid or bounded in duration; what was freed was none of these |
| `PerfServiceLaws.ScreenOffQuietens` | power/lib/powerhal/perfservice.cpp:2282-2325 | with the screen off only what asked to runs, what asked to wait waits, dead holders of plain locks are gone, and nobody else loses a slot or a setting |
| `PerfServiceLaws.AcquireAnswers` | power/lib/powerhal/perfservice.cpp:3148-3243 | an acquire returns its handle iff the list is valid and the handle live, and then that slot alone is on with exactly the settings the list asks for; else it returns 0 and nothing changes |
| `PerfServiceLaws.ReacquireIsIdle` | power/lib/powerhal/perfservice.cpp:3208-3236 | a live scenario that acquires what it has, and is recognised, disturbs no resource |
| `PerfServiceLaws.RelAnswers` | power/lib/powerhal/perfservice.cpp:3245-3275 | a release returns 0 iff the handle is live, and then that slot alone is freed; else -1 and nothing changes |
| `PerfService.Service.PerfScnEnable` | power/lib/powerhal/perfservice.cpp:1238-1428 | the in-place loops perform the enable step |
| `PerfService.Service.RescanResource` | power/lib/powerhal/perfservice.cpp:1590-1677 | the in-place rescan of one resource, over the slot array |
| `PerfService.Service.RescanControl` | power/lib/powerhal/perfservice.cpp:1473-1567 | the in-place rescan of one control entry |
| `PerfService.Service.PerfScnUpdate` | power/lib/powerhal/perfservice.cpp:1439-1737 | the in-place loops perform the disable or forced-update step |
| `PerfService.Service.ResetScenario` | power/lib/powerhal/perfservice.cpp:1879-1919 | the slot is reset, wholly or in its requests only |
| `PerfService.Service.CmdSetting` | power/lib/powerhal/perfservice.cpp:1921-2051 | one command is applied to the slot, clamped to every table entry with that id |
| `PerfService.Service.AllocNewHandleNum` | power/lib/powerhal/perfservice.cpp:2166-2173 | the next handle of the generator, positive and below the bound |
| `PerfService.Service.FindHandleToIndex` | power/lib/powerhal/perfservice.cpp:2175-2191 | the first slot in use with that handle, or -1 |
| `PerfService.Service.PerfUserScnCheckAll` | power/lib/powerhal/perfservice.cpp:2350-2388 | the sweep performs the reaping step |
| `PerfService.Service.PerfUserScnDisableAll` | power/lib/powerhal/perfservice.cpp:2282-2325 | the sweep performs the screen-off step |
| `PerfService.Service.PerfLockCheckHdl` | power/lib/powerhal/perfservice.cpp:2963-3102 | state and return value are those of the check-handle step |
| `PerfService.Service.PerfLockAcq` | power/lib/powerhal/perfservice.cpp:3148-3243 | state and return value are those of the acquire step |
| `PerfService.Service.PerfLockRel` | power/lib/powerhal/perfservice.cpp:3245-3275 | state and return value are those of the release step |
| `CpuFreq.Resolver.constructor` | power/lib/powerhal/perfservice.cpp:1115-1180 | at the start nobody asks: floors of 0, ceilings at the top, limits in line with them |
| `CpuFreq.Resolver.UpdateCPUFreqInfo` | power/lib/powerhal/perfservice.cpp:725-745 | the core's limit is its request with the ceiling capped and never below the floor; bad indices change nothing |
| `CpuFreq.Resolver.UpdateClusterFreqInfo` | power/lib/powerhal/perfservice.cpp:747-787 | soft limit and hard window of the cluster, capped, each with minimum at most maximum |
| `CpuFreq.Resolver.FindFloor` | power/lib/powerhal/perfservice.cpp:848-882 | the loop finds the maximum of the clamped floors of all cores that count and of the cluster, and a setter who asked for it |
| `CpuFreq.Resolver.FindCeiling` | power/lib/powerhal/perfservice.cpp:884-929 | the loop finds the minimum of the clamped ceilings, and a setter who asked for it |
| `CpuFreq.Combine` | power/lib/powerhal/perfservice.cpp:931-964 | floor at most ceiling, both inside the hard window; soft limits that already satisfy this are written unchanged |
| `CpuFreq.Resolver.Resolve` | power/lib/powerhal/perfservice.cpp:844-964 | the written pair is the closed form of the limits: highest floor, lowest ceiling raised to it, both clamped to the hard window, with the setters that decided |
| `CpuFreq.Resolver.SetCPUFreq` | power/lib/powerhal/perfservice.cpp:831-986 | one resolved pair is written for the core, or for the first core of the cluster; bad indices write nothing; the core's own limit is refreshed when it is driven on its own, and other cores' limits stay |
| `CpuFreq.Resolver.SetClusterFreq` | power/lib/powerhal/perfservice.cpp:988-1004 | the limits of the cluster are those of its requests; one write per core in order, ending at the first core driven by cluster; each is the resolution of the limits in force at the end |
| `CpuFreq.Resolver.ResolutionUnique` | power/lib/powerhal/perfservice.cpp:844-964 | the limits determine the written floor and ceiling |
| `CpuFreq.Resolver.ResolvedIsPair` | power/lib/powerhal/perfservice.cpp:844-964 | in every reachable state the pair resolved for a core is the closed form of the requests in force: its own request when it is driven on its own (none otherwise), its cluster's, and the hard window |
| `CpuFreq.PairOfCluster` | power/lib/powerhal/perfservice.cpp:844-964 | in a cluster driven as a whole the cluster's own clamped floor and ceiling decide alone |
| `CpuFreq.ClampIsNearest` | power/lib/powerhal/perfservice.cpp:849-850 | clamping gives the nearest frequency the cluster has |
| `CpuFreq.NobodyAsks` | power/lib/powerhal/perfservice.cpp:844-964 | while nobody asks for anything the whole range of the cluster is written |
| `CpuFreq.RequestsShow` | power/lib/powerhal/perfservice.cpp:844-964 | a floor asked for a core or cluster is the least written, as far as cluster and hard window go; a ceiling is passed only by the floor |
| `CpuFreq.LoneRequestShows` | power/lib/powerhal/perfservice.cpp:844-964 | a lone request for a frequency the cluster has is written as it is asked |
| `CpuFreq.Withdrawn` | power/lib/powerhal/rsc_util/utility_sys.cpp:87-151 | -1 undoes a request, whatever it was, and leaves the other half alone |
| `CpuFreq.Resolver.NowIsARange` | power/lib/powerhal/perfservice.cpp:931-964 | in every reachable state the floor is within the hard window and at most the ceiling, and the ceiling at most the top of the cluster |
| `CpuFreq.NoCeilingExact` | power/lib/powerhal/perfservice.cpp:757-765 | a ceiling of 0 or less asked for a core or a cluster means "no ceiling" if and only if no floor comes with it that holds the ceiling down, since the ceiling is first raised to the floor |
| `CpuFreq.CeilingOfZeroPins` | power/lib/powerhal/perfservice.cpp:757-765 | a concrete request of that kind: alone it is no ceiling, with a floor it pins the ceiling to the floor |
| `CpuFreq.NoHardCeilingExact` | power/lib/powerhal/perfservice.cpp:767-781 | a hard ceiling of 0 or less, which the text for the hard driver ignores, leaves the written pair what it would be without it if and only if the ceiling asked for does not pass the hard floor anyway, or is itself 0 |
| `CpuFreq.HardCeilingOfZeroPins` | power/lib/powerhal/perfservice.cpp:939-964 | without a hard floor it makes the pair (0, 0), whatever cores and clusters ask |
| `CpuFreq.Resolver.HardZeroStopsCluster` | power/lib/powerhal/perfservice.cpp:767-964 | so in every reachable state with such a hard request in force all cores of the cluster are written (0, 0) |
| `CpuFreq.Resolver.SetClusterMin` | power/lib/powerhal/rsc_util/utility_sys.cpp:87-96 | the floor is recorded (-1 withdraws it), the limits are brought in line, and every core of the cluster is announced with the closed form of the requests in force |
| `CpuFreq.Resolver.SetClusterMax` | power/lib/powerhal/rsc_util/utility_sys.cpp:98-107 | the same for a ceiling |
| `CpuFreq.Resolver.SetHardMin` | power/lib/powerhal/rsc_util/utility_sys.cpp:109-118 | the same for the hard window's floor; with a hard driver of its own nothing is announced |
| `CpuFreq.Resolver.SetHardMax` | power/lib/powerhal/rsc_util/utility_sys.cpp:120-129 | the same for the hard window's ceiling |
| `CpuFreq.Resolver.SetCoreMin` | power/lib/powerhal/rsc_util/utility_sys.cpp:131-140 | the core's floor is recorded and one pair announced; in a cluster driven as a whole the pair is the one in force before |
| `CpuFreq.Resolver.SetCoreMax` | power/lib/powerhal/rsc_util/utility_sys.cpp:142-151 | the same for a core's ceiling |
| `PriorityQueue.FrontIsFirstMin` | power/timer/mi_util.cpp:1438-1600 | the front of the stable ordered queue is the earliest arrival of smallest priority, and the rest is the ordered queue of the other arrivals |
| `PriorityQueue.RunsServeByUrgencyThenArrival` | power/timer/mi_util.cpp:1438-1600 | for every run of pushes and pops, the nodes handed out are by smallest priority, first in first out among equals, re-queued nodes included |
| `PriorityQueue.Queue.PopHead` | power/timer/mi_util.cpp:1438-1491 | pops the front, repairs row, column and tail links, keeps the link shape and count; the node is no longer the queue's, whatever its links still say |
| `PriorityQueue.Queue.PushTail` | power/timer/mi_util.cpp:1513-1600 | any node not queued, new or popped before, is inserted behind all nodes of at most its priority, whether that makes a new row or lengthens one; keeps the link shape, tail and count; refused when full |
| `PriorityQueue.Queue.Requeue` | power/timer/mi_util.cpp:1438-1600 | a popped node with its stale links goes back behind its class |
| `MergeSort.MergeInOrder` | power/timer/mi_util.cpp:985-1068 | merging two runs in order gives one in order, equal keys keeping their original order |
| `MergeSort.PassDoublesRuns` | power/timer/mi_util.cpp:985-1068 | one pass turns sorted runs of length k into sorted runs of length 2k |
| `MergeSort.SortCorrect` | power/timer/mi_util.cpp:985-1068 | bottom-up merge sort gives a sorted, stable permutation |
| `ListSort.MergeRuns` | power/timer/mi_util.cpp:1019-1051 | the inner loop relinks two runs in place into their merge |
| `ListSort.SortPass` | power/timer/mi_util.cpp:999-1056 | one pass over the list relinks it into the merged runs |
| `ListSort.Sort` | power/timer/mi_util.cpp:985-1068 | same nodes, right next and previous links, head, tail and count for every comparator; sorted and stable for every total preorder; terminates |
| `OrderedInsert.SearchPos` | power/timer/mi_util.cpp:865-904 | the bisection ends, between its bounds, at a position whose neighbours were compared with the new key |
| `OrderedInsert.InsertPos` | power/timer/mi_util.cpp:812-907 | where the insertion puts the key, for any comparator |
| `OrderedInsert.InsertKeepsSorted` | power/timer/mi_util.cpp:812-907 | the list stays sorted in every transitive order the comparator does not contradict |
| `OrderedInsert.InsertIsLinear` | power/timer/mi_util.cpp:812-907 | with distinct keys and a three-way order, the bisection lands where linear insertion would |
| `OrderedInsert.DeleteKeepsSorted` | power/timer/mi_util.cpp:233-267 | deleting never disturbs an order |
| `DoublyLinkedList.List.PushTail` | power/timer/mi_util.cpp:102-133 | appends, with links, ends and count right; refused when full |
| `DoublyLinkedList.List.PushHead` | power/timer/mi_util.cpp:155-187 | prepends, with links, ends and count right; refused when full |
| `DoublyLinkedList.List.Delete` | power/timer/mi_util.cpp:233-267 | takes exactly that node out and clears its links |
| `DoublyLinkedList.List.InsertAfter` | power/timer/mi_util.cpp:342-371 | inserts behind the given node, or at the head without one |
| `DoublyLinkedList.List.InsertBefore` | power/timer/mi_util.cpp:396-425 | inserts in front of the given node, or at the tail without one |
| `DoublyLinkedList.List.Step` | power/timer/mi_util.cpp:561-599 | the node that many steps on, or back, or null past either end |
| `DoublyLinkedList.List.Locate` | power/timer/mi_util.cpp:860-904 | the bisection over the linked nodes terminates and computes the search position, without midpoint overflow |
| `DoublyLinkedList.List.Insert` | power/timer/mi_util.cpp:812-907 | the node is inserted exactly once, at the position of the bisection, and the links stay right, for every comparator |
| `HashTable.Table.Insert` | power/timer/mi_util.cpp:1147-1167 | the node is stored and becomes head of its bucket's chain, the other chains unchanged; refused when full |
| `HashTable.Table.Delete` | power/timer/mi_util.cpp:1189-1222 | exactly that node is taken out of its chain; one that is not stored leaves the table alone |
| `HashTable.Table.Find` | power/timer/mi_util.cpp:1268-1285 | a result is the stored node with an equal key that was inserted last; none means no equal key in that bucket, and with equal keys hashing alike none anywhere |
| `HashTable.Table.WalkIsStored` | power/timer/mi_util.cpp:1304-1364 | the walk order holds every stored node exactly once and nothing else |
| `HashTable.Table.First` | power/timer/mi_util.cpp:1304-1319 | the first node of the walk, or null for an empty table |
| `HashTable.Table.Next` | power/timer/mi_util.cpp:1341-1364 | the successor in the walk, or null at its end |
| `TimerClock.ExpiryExact` | power/timer/ptimer.cpp:269-277 | the expiry is the current microsecond plus 1000 times the milliseconds, in normal form, iff that fits the counter |
| `TimerClock.DurationExact` | power/timer/ptimer.cpp:147-160 | the wrapping formula is the true distance in whole milliseconds iff that distance is representable |
| `TimerClock.DurationIs` | power/timer/ptimer.cpp:137-162 | the wait returned is the distance in whole milliseconds, and 0 once the time has passed, iff that is representable |
| `TimerClock.DueWindow` | power/timer/ptimer.cpp:204-214 | a timer is returned less than one millisecond early at most, and always once its time has come; exact window |
| `TimerClock.WaitedIsDue` | power/timer/ptimer.cpp:123-226 | after sleeping at least the returned duration the head is due, second boundaries included |
| `TimerClock.TimerInsertKeepsSeconds` | power/timer/ptimer.cpp:53-73 | insertion with the timer comparator keeps the list in order of expiry seconds |
| `TimerClock.FinerOrderIsLost` | power/timer/ptimer.cpp:67-72 | it does not keep the order by microseconds: a concrete list |
| `TimerClock.InsertIsBisect` | power/timer/ptimer.cpp:53-73 | on a list in microsecond order the insertion lands where a purely numeric bisection does, told only how many timers there are, are earlier, and expire in the second or before |
| `TimerClock.FinerOrderExact` | power/timer/ptimer.cpp:53-73 | the microsecond order survives a start if and only if that bisection stops no later than the timers that are not later |
| `TimerClock.HeadWithinASecond` | power/timer/ptimer.cpp:189-226 | the head is less than a second behind the earliest armed timer |
| `TimerClock.HeadAfterInsert` | power/timer/ptimer.cpp:282-283 | a start leaves the earlier of the new timer and the old head at the head |
| `PTimer.Manager.Start` | power/timer/ptimer.cpp:251-286 | the timer, armed or not before, ends up on the list exactly once with the right expiry, and the invariant holds: armed iff listed, links right, seconds in order |
| `PTimer.Manager.Stop` | power/timer/ptimer.cpp:288-304 | off the list and marked so; a timer that is not armed is left alone |
| `PTimer.Manager.Delete` | power/timer/ptimer.cpp:306-324 | off the list, marked so and gone |
| `PTimer.Manager.GetNextDuration` | power/timer/ptimer.cpp:123-163 | 1 for an empty list, else the wait for the head, 0 if its time has passed |
| `PTimer.Manager.GetExpired` | power/timer/ptimer.cpp:165-226 | takes off the head iff it is due, and touches no other timer |
| `PowerTimer.Pool.AtMost64` | power/timer/power_timer.cpp:60-69 | used slots and timers are in bijection, so the list never holds more than 64 |
| `PowerTimer.Pool.AllocateTimer` | power/timer/power_timer.cpp:88-98 | the first free slot, or -1 when all are used |
| `PowerTimer.Pool.FindTimer` | power/timer/power_timer.cpp:100-111 | the first used slot with that callback, or -1 |
| `PowerTimer.Pool.AddTimerCallback` | power/timer/power_timer.cpp:220-242 | fails iff all slots are used and then changes nothing; else one armed timer in the first free slot; every timer added is armed, fired or cancelled, exactly one of them |
| `PowerTimer.Pool.CancelTimerCallback` | power/timer/power_timer.cpp:244-260 | fails iff no used slot has the callback; else the first such timer is cancelled and its slot freed |
| `PowerTimer.Pool.ServeExpired` | power/timer/power_timer.cpp:124-197 | a callback runs iff the head is due, once, and its slot is freed; the handler's mismatch check never triggers |
| `Base64.CharIsAlphabet` | power_applist/lib/base64.cpp:25-26 | the sextet v is written as the v-th character of the alphabet of RFC 4648, table 1; padding is "=", the skipped character a newline |
| `Base64.DigitsAreAlphabet` | power_applist/lib/base64.cpp:92-242 | exactly the characters of the alphabet are digits, and a digit's value is its place in it |
| `Base64.Rfc4648Vectors` | power_applist/lib/base64.cpp:21-55 | test vectors of section 10 of RFC 4648 |
| `Base64.DecodeEncode` | power_applist/lib/base64.cpp:21-55 | decoding an encoding succeeds, gives back the bytes and leaves nothing over |
| `Base64.QuadMeaning` | power_applist/lib/base64.cpp:307-362 | exactly the well-formed quadruples of section 4 of RFC 4648 decode, each to the leading bytes of its 24-bit group |
| `Base64.QuadsSplit` | power_applist/lib/base64.cpp:378-443 | decoding in two parts: what the first leaves over goes in front of the second |
| `Base64Codec.EncodeBuffer` | power_applist/lib/base64.cpp:21-55 | the buffer holds the longest prefix of the encoding that fits, a zero behind it if there is room, and is otherwise untouched |
| `Base64Codec.DecodeQuad` | power_applist/lib/base64.cpp:307-362 | up to three bytes, as far as they fit, and success only for an acceptable quadruple of at least four bytes |
| `Base64Codec.Get4` | power_applist/lib/base64.cpp:258-293 | the next four non-newline characters, or all that are left, which the context then holds |
| `Base64Codec.DecodeCtx` | power_applist/lib/base64.cpp:378-443 | fast path, newline skip, restore and slow path together decode "pending characters, then input without newlines, in quadruples"; output cut to the buffer; an empty input flushes |
| `Base64Stream.StreamingIsOneShot` | power_applist/lib/base64.cpp:378-443 | any sequence of calls through one context does what one call on the concatenation does |
| `Base64Stream.SplitIrrelevant` | power_applist/lib/base64.cpp:378-443 | two ways of splitting the same input cannot be told apart |
| `Base64Stream.LeftoverLength` | power_applist/lib/base64.cpp:378-443 | what is left over is the stripped length modulo four |
| `Base64Stream.StreamAccepted` | power_applist/lib/base64.cpp:378-443 | a stream and its final flush are accepted iff every quadruple is well formed and none is cut |
| `Base64Stream.DecodeStream` | power_applist/lib/base64.cpp:378-478 | the allocating calls, chunk by chunk through one context and ended by a flush, succeed iff the whole decodes with nothing left over, and together give its bytes |
| `Base64Stream.OverflowTestExact` | power_applist/lib/base64.cpp:65-91 | under 64-bit wrap-around the one comparison rejects exactly the lengths whose true size does not fit |
| `Base64Stream.EncodeAlloc` | power_applist/lib/base64.cpp:65-91 | null iff the size does not fit, else exactly the encoding and a final zero |
| `Base64Stream.NeedLenSuffices` | power_applist/lib/base64.cpp:455-478 | the size computation does not wrap and suffices even with characters left over in the context |
| `Base64Stream.DecodeAllocCtx` | power_applist/lib/base64.cpp:455-478 | the whole output on success, nothing on failure |
| `Base64Stream.ShiftStaysAByte` | power/tool/powerhal_encrypt.py:8-18 | adding 33 to an encoded byte never passes 255 |
| `Base64Stream.ShiftedVector` | power/tool/powerhal_encrypt.py:8-18 | a concrete encoded and shifted byte |
| `Base64Stream.ConfigRoundTrip` | power/lib/powerhal/tran_common.cpp:55-68 | loading undoes encoding and shifting, for every byte string |
| `Base64Stream.GetDecodeBuf` | power/lib/powerhal/tran_common.cpp:35-74 | the buffer is un-shifted in place and its decoding, which always fits the file size, is written |
| `AppListSpec.ResumeDistinctExact` | power_applist/lib/perfAPPListScenario.cpp:1589-1617 | adding keeps keys distinct iff the entry is known, the list full, or the name as stored is not there yet |
| `AppListSpec.ResumeKeepsDistinct` | power_applist/lib/perfAPPListScenario.cpp:1589-1617 | so it does for every name that fits its buffer |
| `AppListSpec.LongNameListedTwice` | power_applist/lib/perfAPPListScenario.cpp:1589-1608 | a package name too long for its buffer is listed again on every event |
| `AppListSpec.PauseMembers` | power_applist/lib/perfAPPListScenario.cpp:1619-1649 | pausing removes exactly the named entry of that process, if any, and at most one |
| `AppListSpec.PausedMeans` | power_applist/lib/perfAPPListScenario.cpp:1619-1649 | an entry is in the list after a pause iff it was there and is not the named activity of that process |
| `AppListSpec.DeadMeans` | power_applist/lib/perfAPPListScenario.cpp:1650-1678 | after a death exactly the entries of other processes are left, as often as before and in their order |
| `AppListSpec.ForegroundMeans` | power_applist/lib/perfAPPListScenario.cpp:1575-1617 | after RESUMED, FPS_UPDATED or MULTI_WINDOW with a name that fits, the named entry is in the list, unless it is full, with the current frame rate and window mode, and every other entry is as before |
| `AppListSpec.ModeMeans` | power_applist/lib/perfAPPListScenario.cpp:1575-1679 | a mode update leaves the list alone |
| `AppListSpec.BuryKeepsDistinct` | power_applist/lib/perfAPPListScenario.cpp:1650-1678 | a death keeps keys distinct |
| `AppListSpec.EveryRunDistinct` | power_applist/lib/perfAPPListScenario.cpp:1589-1678 | after every run of events whose names fit, keys are distinct and there are at most 30 |
| `AppListSpec.ForegroundCountExact` | power_applist/lib/perfAPPListScenario.cpp:261-277 | the foreground count of a list that is not empty is its number of packages if and only if no package is first met behind one whose name it extends; an empty list counts one |
| `AppListSpec.PrefixMiscounts` | power_applist/lib/perfAPPListScenario.cpp:261-277 | two packages counted as one, and as two in the other order |
| `AppListSpec.MultiWindowExact` | power_applist/lib/perfAPPListScenario.cpp:261-277 | more than one is counted iff some package does not start with the first one's name |
| `AppListSpec.RecordsAreChosen` | power_applist/lib/perfAPPListScenario.cpp:1336-1429 | the eight recorded indices name exactly the last scenario of each class of specificity |
| `AppListSpec.ChosenSuits` | power_applist/lib/perfAPPListScenario.cpp:1336-1429 | only scenarios that suit the activity are chosen, and for each that suits one as specific is, itself or one configured later |
| `AppListSpec.SelectedSuits` | power_applist/lib/perfAPPListScenario.cpp:1748-1752 | a selected scenario suits some resumed activity at its own frame rate, in the window mode and mode of the moment; a lone scenario is selected iff it does |
| `AppListSpec.PidOfMeans` | power_applist/lib/perfAPPListScenario.cpp:1528-1533 | the process looked up is that of the first resumed activity of the package, or 0 |
| `AppList.Service.EditList` | power_applist/lib/perfAPPListScenario.cpp:1589-1679 | the in-place edits of the array compute the list edit of the event; after a death no entry has that pid, so the loop at lines 1711-1727 has nothing to do |
| `AppList.Service.GetForegroundAPPCount` | power_applist/lib/perfAPPListScenario.cpp:261-277 | the nested loops compute the foreground count |
| `AppList.Service.FindAppScenarioIndex` | power_applist/lib/perfAPPListScenario.cpp:1336-1429 | appends exactly the chosen scenarios of the activity |
| `AppList.Service.SelectScenarios` | power_applist/lib/perfAPPListScenario.cpp:1748-1752 | afterwards exactly the scenarios selected by the resumed list are recorded |
| `AppList.Service.Disable` | power_applist/lib/perfAPPListScenario.cpp:1299-1314 | a held lock is given back exactly once and forgotten |
| `AppList.Service.Enable` | power_applist/lib/perfAPPListScenario.cpp:1262-1297 | a lock is requested and its result recorded, never over one still held |
| `AppList.Service.DisableDead` | power_applist/lib/perfAPPListScenario.cpp:1697-1702 | exactly the entries of the process give back their locks |
| `AppList.DeathReachesItsPackage` | power_applist/lib/perfAPPListScenario.cpp:1575-1702 | a death takes the locks of the packages last seen in that process and of no others; no other event takes a lock away by itself |
| `AppList.Service.DisableUnselected` | power_applist/lib/perfAPPListScenario.cpp:1759-1770 | exactly the active scenarios no longer selected are switched off and give back their locks |
| `AppList.Service.EnableSelected` | power_applist/lib/perfAPPListScenario.cpp:1771-1785 | exactly the selected scenarios that were off are switched on, one lock request each, in order |
| `AppList.Service.NotifyAppState` | power_applist/lib/perfAPPListScenario.cpp:1544-1785 | after an event: the list edit, the window mode, status 1 iff selected, a lock only with status 1, entries no longer selected give back their lock, newly selected ones hold what their request was granted, all others keep theirs; every lock ever granted is held or was given back. If every active scenario held a lock, every one still does if and only if all requests made were granted and the event is not the death of a process whose scenario stays selected |
| `AppList.Service.Reload` | power_applist/lib/perfAPPListScenario.cpp:1488-1541 | after a reload: every earlier lock was given back, status 1 iff selected by the new configuration, a lock requested exactly for selected packages with a resumed process; every active scenario holds a lock if and only if the package of every selected one is found by name among the resumed, and all requests were granted |
| `AppList.EventCoversExact` | power_applist/lib/perfAPPListScenario.cpp:1697-1785 | the exact condition, entry by entry, for an event to leave every active scenario with a lock |
| `AppList.ReloadCoversExact` | power_applist/lib/perfAPPListScenario.cpp:1521-1538 | the same for a reload: every active scenario asked, and all requests were granted |
| `AppList.DeathLeavesNoLock` | power_applist/lib/perfAPPListScenario.cpp:1544-1785 | a concrete run after which a selected scenario is active without a lock: the process resumed last of two dies |
| `AppList.WildcardNeverLocked` | power_applist/lib/perfAPPListScenario.cpp:1521-1538 | a concrete run in which a scenario configured by a pattern is active after a reload without a lock, and stays so on the next event |
| `AppList.HolderCount` | power_applist/lib/perfAPPListScenario.cpp:1262-1314 | a handle is held as often as entries hold it |
| `AppList.ExactlyOnce` | power_applist/lib/perfAPPListScenario.cpp:1262-1314 | if no handle is granted twice, each granted lock has exactly one holder or was given back exactly once, never both |

## Left out

- Resources compared as one-shot: set and unset are not balanced by the code (one flag per scenario), so only the
  smallest and biggest kinds are modelled; the table is taken up to the first entry without functions.
- 32-bit overflow of the "no request" value one past a table maximum of 2147483647 (or below a minimum of -2147483648);
  values are unbounded integers.
- Switching a resource's validity at run time (`powerRscCtrl`), which leaves stale values; validity is fixed at boot.
- Setter names (strings) next to setter process and hint; time stamps; logging, tracing and debug dumps.
- Writing control-table values to their files, with or without a prefix; only value and priority are modelled.
- Request lists of odd length, whose last word would be read past the end.
- Races between threads: each locked call is one step, and the timer functions, which take no lock, run one at a time;
  callbacks do not touch timers.
- `disableScenarioByHintId`, which releases the first slot of a hint, and the custom hint tables, which are request
  lists kept in a file.
- The values recorded for reporting next to the written CPU frequencies, and the driver strings.
- Failing memory allocation and null lists or tables.
- The list functions that join two lists, apply a walker, count to a node or from a node, search linearly, and pop at
  either end (`MI_DlConcat`, `MI_DlWalk`, `MI_DlNth`, `MI_DlIndex`, `MI_DlFind`, `MI_DlPopHead`, `MI_DlPopTail`).
- CPU frequency writes when the frequency driver is absent (nothing is written), and the text for a hard driver of its own.
- Base64 decoding without a context, which the repository never does.
- What `get_decode_buf` returns behind the decoded bytes: the rest of its buffer is uninitialised.
- Reading, parsing and pattern matching of the application list (XML, CSV, regular expressions); a configured
  scenario is the outcome of that parsing, a frame rate its number.
- The resources requested with an application's lock, launch times, and everything about thread hints.
- The crash loop over resumed entries of a dead process: its body never executes, see the row of `AppList.Service.EditList`.
- Several timer managers: there is one, so a timer's manager pointer is whether it is armed.
- DoublyLinkedList.List.Insert: lists of 2^31 nodes or more, whose positions do not fit the signed step.
- ListSort.Sort: lists of 2^31 nodes or more, whose run length overflows.
- HashTable.Table.Next: only for a node of the table, given with its place in the walk; for others the code's answer is not specified.
- CpuFreq.Resolver.SetClusterFreq: only for clusters whose cores lie inside the core table, as the layout built at the
  start has them; the code indexes unchecked.
- AppList.Service.Reload: only for at most 1024 scenarios, the size of the status array, which the code does not check.
