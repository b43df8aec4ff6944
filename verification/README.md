# Ride-to-driver matcher, modelled in Dafny

This project models the core of a small ride-assignment program. Each
driver's free time is kept in an **interval tree**: an unbalanced binary
search tree of windows, keyed by start time, where every node also records
the latest end time in its subtree. A driver is **available** for
`[start, end]` when a single free window contains it. **Reserving** a
window cuts it out of every free window that overlaps it.

Rides are handed out greedily in order of pickup time. For each ride:

- every driver's shortest travel time to the pickup is computed with
  **Dijkstra's algorithm** over a location graph;
- among the drivers who are free from the moment they must set off until
  the ride ends, the **closest** one is picked;
- among equally close drivers, the one with the **lower hourly rate** is
  picked;
- on a full tie, the **first** driver in the list is picked;
- the chosen driver then reserves the ride's own time and moves to the
  dropoff.

The **graph** has three kinds of edges:

- every ride's pickup and dropoff are nodes, joined both ways by the ride
  duration;
- each dropoff gets one link, weighted by the estimated travel time, to
  every pickup it has no edge to yet (so a ride's dropoff keeps only the
  return leg to its own pickup);
- a driver location that is not yet a node is linked once to each pickup
  whose time falls in one of the driver's windows.

The model is functional. Trees, drivers, graphs and the assignment state
are immutable values, and every operation returns a new value. Times are
whole minutes (`int`), durations and edge weights are `nat`, and hourly
rates are `real`.

Modules, in dependency order:

| module | file | models |
|---|---|---|
| `Options` | options.dfy | the optional result (`None` in the source) |
| `Intervals` | intervals.dfy | windows, the closed overlap test, the pieces of a window left after a reservation |
| `IntervalTree` | interval_tree.dfy | `IntervalNode`, `IntervalTree`: insert, overlap search, minimum, exact-key delete, reservation, availability |
| `Graphs` | graphs.dfy | the location graph, walks, reachability, shortest travel time |
| `Routing` | routing.dfy | `Ride._dijkstra` |
| `Drivers` | drivers.dfy | `Driver`: seeding the tree, the availability check, reservation |
| `Rides` | rides.dfy | `Ride` and `Ride.find_best_driver` |
| `GraphBuilder` | graph_builder.dfy | `build_graph`, with the distance estimate abstracted |
| `Assignment` | assignment.dfy | `assign_rides_to_drivers`: stable sort by pickup time, then the greedy loop |
| `Scenario` | scenario.dfy | the two-ride, two-driver scenario of the unit test |

script.py is a single-file copy of the same classes and functions, so the
same members model it. The rows that cite script.py point at its own
lines.

## Model

| member | source | states |
|---|---|---|
| Intervals.Remainder | interval_tree.py:190-196 | The pieces of a window left after reserving `[lo, hi]`: at most two pieces, each with a free minute, none sharing a minute with `[lo, hi)`. When the window overlaps `[lo, hi]`, each piece lies inside it. With `lo <= hi` two pieces are disjoint, and with `lo < hi` no piece contains `[lo, hi]`. |
| Intervals.RemainderMinutes | interval_tree.py:186-196 | A minute is free in the pieces exactly when it was free in the original window and lies outside `[lo, hi)`. |
| Intervals.TouchingSurvives | interval_tree.py:69 | A window that only touches `[lo, hi]` at an end point counts as overlapping (the test is closed), and it is put back unchanged. |
| IntervalTree.NewNode | interval_node.py:15-20 | A new node is a leaf that holds exactly `[low, high]`. Its `max` is `high`, and it satisfies both the order and the `max` invariant. |
| IntervalTree.HighsBelowMax | interval_node.py:8 | Under the `max` invariant, no window in a subtree ends after the subtree's `max`. |
| IntervalTree.MaxIsReached | interval_tree.py:153-160 | Under the `max` invariant, some window in the subtree ends exactly at `max`. |
| IntervalTree.Insert | interval_tree.py:35-42 | Insertion always yields a node, and an existing root keeps its own window: new windows go into a subtree. |
| IntervalTree.InsertAddsOne | interval_tree.py:22-55 | Insertion adds exactly one copy of `[low, high]` to the stored windows and changes nothing else. |
| IntervalTree.InsertKeepsBst | interval_tree.py:37-40 | Insertion keeps the order by start time: left starts are strictly smaller, and equal starts go right. |
| IntervalTree.InsertKeepsMaxOk | script.py:61-68 | Insertion keeps every `max` correct. The new root's `max` is the larger of the old `max` and `high`. |
| IntervalTree.SearchOverlap | interval_tree.py:84-93 | Every window returned by the search overlaps `[low, high]` in the closed sense. |
| IntervalTree.SearchOverlapCount | interval_tree.py:71-93 | Under the `max` invariant, an overlapping window is returned as many times as it is stored. A window that does not overlap is never returned. |
| IntervalTree.SearchOverlapComplete | script.py:97-119 | The same count statement, for all windows at once. |
| IntervalTree.PrunedSubtreeMissesWindow | interval_tree.py:90 | Skipping a left subtree whose `max` is below `low` loses nothing: no window in it overlaps. |
| IntervalTree.IsAvailable | interval_tree.py:213-220 | A yes answer means some stored window contains `[low, high]`. |
| IntervalTree.IsAvailableExactly | interval_tree.py:199-234 | Under the `max` invariant and with `low <= high`: the answer is yes exactly when some stored window contains `[low, high]`. An empty tree answers no. |
| IntervalTree.FindMin | interval_tree.py:109-122 | The leftmost window is stored in the tree. In a search tree, no stored window starts earlier. |
| IntervalTree.Rebuild | interval_tree.py:152-160 | Recomputing `max` after a deletion restores the `max` invariant. The node holds its window and its children's windows. |
| IntervalTree.DeleteKeepsMaxOk | script.py:178-186 | Deletion keeps every `max` correct. |
| IntervalTree.DeleteAbsent | interval_tree.py:138-161 | Deleting a window that is not stored leaves the stored windows as they were. |
| IntervalTree.DeleteMinRemovesIt | interval_tree.py:145-151 | In a search tree, deleting the leftmost window removes exactly one copy of it. This is the step the two-children case relies on. |
| IntervalTree.FoundIsStored | interval_tree.py:140-144 | A window that the deletion search reaches is stored in the tree. |
| IntervalTree.DeleteEffect | interval_tree.py:124-161 | In a search tree, deletion removes one copy of `[low, high]` when the search by start time reaches a node holding exactly it. Otherwise it changes nothing. |
| IntervalTree.DeleteShrinks | script.py:150-187 | Deletion never adds a window. |
| IntervalTree.DeleteKeepsBst | interval_tree.py:140-151 | Deletion, including the replacement by the right subtree's leftmost window, keeps the order by start time. |
| IntervalTree.SameLowNotDeleted | interval_tree.py:144 | When two windows share a start time, the exact-key search stops at the first one. Deleting `[480, 720]` from a tree whose root is `[480, 600]` leaves it stored. |
| IntervalTree.SeparatedHasDistinctLows | interval_tree.py:144 | Pairwise disjoint windows, each with a free minute, have distinct start times. So the early stop above cannot happen to them. |
| IntervalTree.FoundWhenDistinct | interval_tree.py:140-144 | In a search tree with distinct start times, the deletion search reaches every stored window. |
| IntervalTree.DeleteExactly | interval_tree.py:124-161 | With distinct start times, deletion removes exactly one copy of `[low, high]`. If the window is absent, nothing changes. |
| IntervalTree.DeleteKeepsValid | interval_tree.py:163-174 | On a valid tree (search order, correct `max`, disjoint windows with free minutes), deletion keeps it valid and removes exactly the window. |
| IntervalTree.InsertKeepsValid | interval_tree.py:44-55 | Inserting a window that has a free minute and is disjoint from all stored ones keeps a valid tree valid and adds exactly that window. |
| IntervalTree.PiecesFit | interval_tree.py:193-196 | The pieces put back for an overlapping window `y` are disjoint from every other stored window and from each other. None of them is stored already. |
| IntervalTree.AddPiece | interval_tree.py:193-194 | A conditional insert of a disjoint piece that has a free minute keeps the tree valid and adds the piece only when the condition holds. |
| IntervalTree.PutBackEffect | interval_tree.py:193-196 | Putting back both pieces keeps the tree valid and adds exactly the remainder of `y`. |
| IntervalTree.CarveOneEffect | interval_tree.py:191-196 | One pass of the reservation loop replaces the stored window `y` by its remainder and keeps the tree valid. |
| IntervalTree.CarveEffect | script.py:216-222 | The reservation loop, run over distinct stored windows that overlap `[low, high]`, removes each of them, adds their remainders, and keeps the tree valid. |
| IntervalTree.SearchTargets | interval_tree.py:190 | On a valid tree, the search result is a list of distinct stored windows that overlap the reserved window. This is what the loop needs. |
| IntervalTree.ModifyEffect | interval_tree.py:176-196 | Reserving keeps a valid tree valid. Afterwards the tree holds the old windows, minus those that overlap, plus their remainders. |
| IntervalTree.InRemainders | interval_tree.py:191-196 | A piece comes out of the loop exactly when it is a piece of one of the windows the loop visits. |
| IntervalTree.ModifyContents | interval_tree.py:186-196 | After reserving `[low, high]`, a window is stored exactly when it was stored and does not overlap, or it is a piece of a stored window that overlaps. |
| IntervalTree.ModifyFreeTime | interval_tree.py:176-196 | After reserving `[low, high]`, a minute is free exactly when it was free before and lies outside `[low, high)`. |
| IntervalTree.ModifyBlocksWindow | interval_tree.py:186-196 | After reserving `[low, high]` with `low < high`, the window is no longer available. |
| IntervalTree.ModifyUntouched | interval_tree.py:190-192 | When no stored window overlaps `[low, high]`, reserving returns the tree unchanged. |
| Graphs.ShortestDist | ride.py:29-61 | The shortest travel time is absent exactly when the end is unreachable. When present, it is the least total weight over all walks. |
| Graphs.LeastCostExists | ride.py:43-61 | Whenever some walk leads from start to end, a least total weight exists. |
| Graphs.ShortestUnique | ride.py:61 | The least total weight is unique. |
| Graphs.ShortestToSelf | ride.py:43-52 | From a location to itself the shortest travel time is 0. |
| Graphs.WalkEndpointsAreKeys | ride.py:56-58 | In a graph whose edges lead only to its own nodes, both ends of a walk between distinct locations are nodes. |
| Graphs.ReachableEnds | ride.py:56-58 | The same, for reachability. |
| Graphs.LeavingCostsTime | ride.py:56-60 | When every edge out of the start has positive weight, the travel time to a different location is positive. |
| Routing.PickMin | ride.py:47-48 | Selects an unsettled location with the least tentative distance, or reports that none is left. |
| Routing.RelaxEdge | ride.py:57-60 | Relaxing one edge lowers the neighbour's tentative distance to at most the current distance plus the weight. Every tentative distance stays backed by a real walk. |
| Routing.Relax | ride.py:56-60 | Relaxing all out-edges of `u` bounds every neighbour's distance by `u`'s distance plus the edge weight. It never raises a distance, and it keeps every distance backed by a walk. |
| Routing.FrontierBound | ride.py:47-60 | Any walk out of the settled set costs at least the least unsettled distance. |
| Routing.Enclosed | ride.py:47-61 | Once no location is left unsettled, walks from settled locations never leave the settled set. |
| Routing.TakenIsShortest | ride.py:51-52 | When the end is selected, its tentative distance is the shortest travel time. |
| Routing.ExhaustedIsUnreachable | ride.py:61 | When the search runs out before reaching the end, the end is unreachable. |
| Routing.VisitStep | ride.py:53-60 | Settling the closest location keeps settled distances fixed, all their out-edges relaxed, and none of them further away than an unsettled one. |
| Routing.Visit | ride.py:53-60 | One settling step preserves the loop invariant of the search. |
| Routing.ShortestPath | ride.py:43-61 | The result is the shortest travel time from start to end, or `None` exactly when the end is unreachable. The start need not be a node when it is the end. |
| Drivers.NewDriver | driver.py:21-28 | A new driver keeps its id, rate, location and window list. Its tree stores exactly the listed windows and satisfies the order and `max` invariants. |
| Drivers.SeedShape | driver.py:26-28 | Inserting the windows one after another stores exactly the list's windows, in a search tree with correct `max`. |
| Drivers.SeedValid | script.py:493-495 | With pairwise disjoint windows, each with a free minute, the seeded tree is valid. |
| Drivers.HasAvailable | driver.py:30-41 | A yes answer means one of the driver's free windows contains `[start, end]`. |
| Drivers.HasAvailableExactly | driver.py:41 | With a correct `max` and `start <= end`: the driver is available exactly when a free window contains `[start, end]`. |
| Drivers.NewDriverAvailable | driver.py:27-28 | Right after construction, every listed window `(s, e)` with `s <= e` is available. |
| Drivers.NoWindowsNeverAvailable | driver.py:26-28 | A driver built without windows is never available. |
| Drivers.Reserve | driver.py:43-54 | Reserving leaves the id, rate, location and original window list as they were. |
| Drivers.ReserveKeepsValid | script.py:510-521 | Reserving keeps a valid tree valid. |
| Drivers.ReserveFreeTime | driver.py:43-54 | After reserving `[start, end]`, a minute is free exactly when it was free and lies outside `[start, end)`. |
| Drivers.ReserveBlocks | driver.py:51-54 | After reserving a non-empty window, the driver is not available for it. |
| Rides.PickBest | ride.py:80-94 | The choice after looking at the first `n` drivers is one of them. |
| Rides.PickNoneIffNoneEligible | ride.py:83-86 | No driver is chosen exactly when no driver passes the availability check. |
| Rides.FirstEligible | ride.py:87-90 | The first driver to pass the check is, at that point, the best choice. |
| Rides.NewLeader | ride.py:87-93 | A passing driver that is strictly closer, or as close and strictly cheaper, than the best so far becomes the best choice. |
| Rides.Incumbent | ride.py:85-93 | A driver that fails the check, or does not beat the best so far, leaves the best choice in place. |
| Rides.PickedIsBest | ride.py:80-94 | The chosen driver passes the check. No passing driver is closer, or as close and cheaper. It beats every passing driver listed before it, so on a full tie the earliest driver wins. |
| Rides.PickedEligible | ride.py:85-86 | The chosen driver passes the availability check. |
| Rides.PickedPasses | ride.py:82-85 | The chosen driver has a free window from the moment it must set off for the pickup until the ride ends. |
| Rides.BestChoiceUnique | script.py:461-467 | At most one driver is the best choice. |
| Rides.PickBestIff | script.py:454-468 | The loop chooses driver `b` exactly when `b` is the best choice. |
| Rides.FindBestDriver | ride.py:63-94 | Searching the graph for each driver's travel time and keeping the best passing driver yields exactly the best choice under the graph's shortest travel times. |
| GraphBuilder.DropoffList | main.py:64-72 | The collected dropoffs are the rides' dropoffs, in ride order. |
| GraphBuilder.AddLegEffect | main.py:66-71 | One ride adds its pickup and dropoff as nodes and the two legs, weighted by its duration. Existing lists are only appended to, and edges still lead only to nodes. |
| GraphBuilder.LegsEffect | main.py:65-72 | After the first pass, the nodes are exactly the ride locations. Every ride's legs are present in both directions, and edges lead only to nodes. |
| GraphBuilder.LegSurvives | main.py:73-87 | A leg already in place survives any pass that only appends. |
| GraphBuilder.CountAppend | main.py:75 | Counting the edges to a location is additive over concatenation. |
| GraphBuilder.CountZero | main.py:75 | A list has no edge to a location exactly when its count of such edges is zero. |
| GraphBuilder.LinksCount | main.py:74-78 | Linking adds an edge to a pickup only when none is there yet, so a list ends with at most one such edge. |
| GraphBuilder.LinksAppends | main.py:76-78 | Linking only appends. Every new edge goes to an accepted pickup and is weighted by the estimate. |
| GraphBuilder.LinksTargets | main.py:84-87 | Linking adds edges only to pickups. |
| GraphBuilder.Idle | main.py:73-78 | The idle-edge pass adds no node. |
| GraphBuilder.IdleEffect | main.py:73-78 | The idle-edge pass changes only the dropoff nodes, and it only appends to them. Afterwards a dropoff has exactly one edge to each pickup it had none to, and other counts are unchanged. |
| GraphBuilder.PickupIsKept | main.py:74 | With every ride accepted, the accepted pickups are exactly the pickups. |
| GraphBuilder.IdleClosed | main.py:73-78 | After the idle-edge pass, edges still lead only to nodes. |
| GraphBuilder.DriverNodesKeep | main.py:79-81 | The driver pass adds exactly the driver locations and leaves every existing node's list untouched. |
| GraphBuilder.DriverNodesNew | main.py:80-87 | A driver location that is not yet a node gets, from the first driver standing there, one edge per pickup whose time falls in one of that driver's windows. |
| GraphBuilder.DriverNodesClosed | main.py:79-87 | After the driver pass, edges still lead only to nodes. |
| GraphBuilder.RideGraphFacts | main.py:65-78 | After the first two passes, the nodes are the ride locations and every edge leads to a node. |
| GraphBuilder.BuildGraphNodes | main.py:63-88 | The graph's nodes are exactly the ride pickups and dropoffs and the driver locations. |
| GraphBuilder.BuildGraphClosed | main.py:63-88 | Every edge of the graph leads to one of its nodes. |
| GraphBuilder.BuildGraphLegs | script.py:318-325 | Every ride's pickup and dropoff are nodes, joined both ways by the ride duration. |
| GraphBuilder.BuildGraphRideNode | main.py:73-78 | A ride location's list starts with its legs. A dropoff gains exactly one edge to each pickup it had no edge to, and no other count changes. |
| GraphBuilder.BuildGraphDriverNode | main.py:79-87 | A driver location that is not a ride location has one edge to a pickup exactly when some ride there has its pickup time inside a closed window of the first driver at that location, and no edge otherwise. Every edge is weighted by the estimate. |
| GraphBuilder.EdgeToFromCount | main.py:75 | A positive count of edges to a location yields such an edge. |
| GraphBuilder.RideLocationReaches | main.py:65-78 | Every ride location reaches every pickup: through the leg to a dropoff and that dropoff's idle edge. |
| GraphBuilder.DropoffReaches | main.py:73-78 | Every dropoff reaches every pickup. |
| GraphBuilder.DriverReaches | main.py:79-87 | A driver reaches every pickup when it stands at a ride location, or when the first driver at its location has a window holding some ride's pickup time. |
| Assignment.Ins | main.py:115 | Inserting a ride adds exactly that ride to the multiset. |
| Assignment.InsSorted | main.py:115 | Inserting into rides sorted by pickup time keeps them sorted. |
| Assignment.SortByPickup | main.py:115 | The sorted rides are a permutation of the input and are ordered by pickup time. |
| Assignment.AtIns | main.py:115 | An inserted ride goes in front of the rides with the same pickup time and leaves their order alone. |
| Assignment.SortStable | script.py:368 | The sort is stable: rides with equal pickup time keep their input order. |
| Assignment.Init | main.py:114 | Every driver id gets a list, and every list starts empty. |
| Assignment.Step | main.py:116-122 | Handing out one ride keeps the set of ids that have a list, keeps every driver's id listed, and keeps the number of drivers. |
| Assignment.StepLists | main.py:117-119 | One ride is appended to the chosen driver's list and to no other list. When no driver is chosen, nothing changes. |
| Assignment.StepDrivers | main.py:117-122 | The chosen driver keeps its id, rate and windows, moves to the dropoff, and stays valid. It loses exactly the minutes from pickup to ride end. Every other driver is unchanged. |
| Assignment.TravelStaysFree | main.py:120-121 | The travel time before the pickup is not reserved: those minutes stay free for the chosen driver. |
| Assignment.Run | main.py:116-122 | Handing out rides in order keeps the set of ids that have a list, keeps every driver's id listed, and keeps the number of drivers. |
| Assignment.Choices | main.py:116-117 | There is one decision per ride handed out. |
| Assignment.RunLists | main.py:116-119 | After the run, each id's list is its old list followed by exactly the rides whose decision was that id, in order. |
| Assignment.PickedSorted | main.py:115-119 | The rides picked for one id out of a sorted sequence are sorted and come from that sequence. |
| Assignment.PickedShare | script.py:371-372 | Two different ids never take the same ride twice over: together their lists hold each ride at most as often as it was requested. |
| Assignment.RunKeepsValid | main.py:121 | Every driver's tree stays valid throughout the run. |
| Assignment.AssignLists | main.py:114-123 | Every driver id is a key, including drivers with no ride. Each list holds, sorted by pickup time, exactly the rides that went to that id, and all of them are requested rides. |
| Assignment.AssignShare | main.py:116-119 | Two different drivers' lists together hold each ride at most as often as it was requested, so no ride is handed out twice. |
| Assignment.StepLocation | main.py:122 | After a step, only the chosen driver's location changes, and it becomes the dropoff. |
| Assignment.StepKeepsReach | main.py:122 | Since the driver that moves stands at a dropoff afterwards, every driver can still reach every pickup. |
| Assignment.AssignOne | main.py:117-122 | One pass of the loop over the graph does exactly one step of the greedy assignment under the graph's shortest travel times. |
| Assignment.AssignRidesToDrivers | script.py:346-376 | The loop over the graph returns exactly the greedy assignment: the same lists and the same final drivers. |
| Intervals.Overlaps | interval_tree.py:57-69 | Defined by its body: the closed overlap test. IntervalTree.SearchOverlapCount and Intervals.TouchingSurvives state its role. |
| IntervalTree.Delete | interval_tree.py:124-161 | Defined by its body: the exact-key delete with the successor replacement and the `max` recompute. IntervalTree.DeleteEffect, IntervalTree.DeleteExactly and IntervalTree.DeleteKeepsValid state its effect. |
| IntervalTree.PutPiece | interval_tree.py:193-196 | Defined by its body: one conditional re-insert. IntervalTree.AddPiece states its effect. |
| IntervalTree.PutBack | interval_tree.py:193-196 | Defined by its body: both conditional re-inserts. IntervalTree.PutBackEffect states its effect. |
| IntervalTree.CarveOne | interval_tree.py:191-196 | Defined by its body: one pass of the reservation loop. IntervalTree.CarveOneEffect states its effect. |
| IntervalTree.Carve | interval_tree.py:191-196 | Defined by its body: the reservation loop over a fixed list. IntervalTree.CarveEffect states its effect. |
| IntervalTree.Remainders | interval_tree.py:186-188 | Defined by its body: all the pieces the loop puts back. IntervalTree.InRemainders characterises its members. |
| IntervalTree.Modify | interval_tree.py:176-196 | Defined by its body: search once, then run the loop. IntervalTree.ModifyEffect, IntervalTree.ModifyContents and IntervalTree.ModifyFreeTime state its effect. |
| Drivers.Seed | driver.py:26-28 | Defined by its body: inserting the windows in list order. Drivers.SeedShape and Drivers.SeedValid state its effect. |
| Graphs.Travel | ride.py:84 | Defined by its body: the shortest travel time, with 0 where none exists. Routing.ShortestPath and Rides.FindBestDriver tie it to the search. |
| Rides.Passes | ride.py:82-86 | Defined by its body: the availability check from `pickup - travel` to the ride end. Rides.PickedPasses states it of the chosen driver. |
| Rides.Beats | ride.py:87-93 | Defined by its body: strictly closer, or as close and strictly cheaper. Rides.PickedIsBest and Rides.PickBestIff use it to state the selection rule. |
| GraphBuilder.AddLeg | main.py:66-71 | Defined by its body. GraphBuilder.AddLegEffect states its effect. |
| GraphBuilder.Legs | main.py:65-72 | Defined by its body. GraphBuilder.LegsEffect states its effect. |
| GraphBuilder.Links | main.py:74-78 | Defined by its body: the once-per-pickup linking loop shared by the dropoff and driver passes. GraphBuilder.LinksCount and GraphBuilder.LinksAppends state its effect. |
| GraphBuilder.AddDriver | main.py:80-87 | Defined by its body: a driver location gets edges only when it is not a node yet. GraphBuilder.DriverNodesKeep and GraphBuilder.DriverNodesNew state its effect. |
| GraphBuilder.DriverNodes | main.py:79-87 | Defined by its body. GraphBuilder.DriverNodesKeep, GraphBuilder.DriverNodesNew and GraphBuilder.DriverNodesClosed state its effect. |
| GraphBuilder.BuildGraph | main.py:45-88 | Defined by its body: legs, then idle edges, then driver nodes. The GraphBuilder.BuildGraph* lemmas state its nodes, closure and edges. |
| Assignment.Chosen | main.py:117 | Defined by its body: the index `find_best_driver` returns. Rides.PickBestIff states the rule. |
| Assignment.Take | main.py:120-122 | Defined by its body: reserve from pickup to ride end, then move to the dropoff. Assignment.StepDrivers states its effect. |
| Assignment.Assign | main.py:93-123 | Defined by its body: sort, then run the loop from empty lists. Assignment.AssignLists, Assignment.AssignShare and Assignment.AssignRidesToDrivers state its result. |
| Scenario.SeededDrivers | test.py:29-38 | The two test drivers, built from their windows, are the constant trees the scenario uses. |
| Scenario.SortedRides | test.py:14-27 | Sorting the test rides puts the 9:00 ride first. |
| Scenario.ReserveNineToNineThirty | test.py:34-37 | Reserving 9:00-9:30 out of driver_2's 9:00-13:00 leaves 9:30-13:00. |
| Scenario.DriverTwoChosen | test.py:34-37 | driver_2 stands at the pickup and is free. It wins every tie with driver_1 (rate 20) on its lower rate (18), so it is chosen. |
| Scenario.FirstRide | test.py:61-71 | The 9:00 ride goes to driver_2, which moves to Downtown Manhattan and keeps 9:30-13:00 free. |
| Scenario.SecondRide | test.py:61-71 | The 10:00 ride also goes to driver_2. |
| Scenario.BothRidesToDriverTwo | test.py:61-71 | Whatever the travel times between distinct points, as long as staying put costs nothing: driver_1 gets an empty list and driver_2 gets both rides, 9:00 first. |
| Scenario.BuiltGraphHasDowntown | test.py:51-58 | The built graph has Downtown Manhattan and the East Village as nodes, and Downtown Manhattan has an edge. |
| Scenario.ScenarioOverBuiltGraph | test.py:65-71 | For any estimate, the built graph satisfies the search's preconditions, and assigning over it gives driver_2 both rides and driver_1 none. |
| Scenario.GraphTimesStayPut | ride.py:51-52 | In any graph, staying put costs nothing. |

## Left out

- The haversine distance and `MILES_PER_MINUTE` (main.py:10-42, 76-77; script.py:263-295) are floating-point trigonometry. The model replaces them with an arbitrary estimate `est: (Location, Location) -> nat` that is passed to the graph builder.
- Rounding of the float travel times is not modelled: all travel times and durations are whole minutes.
- `datetime` and `timedelta` are replaced by integer minutes.
- The heap in `_dijkstra` is replaced by choosing the unsettled location with the least tentative distance. The source's skip of stale heap entries (ride.py:49-50, 54-55) has no counterpart, because each location is settled once.
- The model has no "skip this driver" path for an unreachable pickup. When no route leads from a driver to the pickup, `_dijkstra` returns `None`, and the source then fails inside `timedelta` (ride.py:84-85).
  - Rides.FindBestDriver and Assignment.AssignRidesToDrivers therefore require every pickup to be reachable from every driver and from every dropoff.
  - The dropoff condition is stronger than what the source needs to avoid the failure: only each driver's current location must reach each pickup. It carries the driver condition from one ride to the next, since the driver that moves stands at a dropoff afterwards. Every graph built by `build_graph` meets it (GraphBuilder.DropoffReaches), so no input the program actually passes is excluded.
  - GraphBuilder.DriverReaches and Scenario.ScenarioOverBuiltGraph show when a built graph meets that requirement.
- Routing.ShortestPath requires `Closed(g)` (every edge leads to a node) of every graph, and requires the start and end to be nodes unless they are equal. The source is more lenient:
  - When the start is the end, it returns 0 at the first pop for any graph (ride.py:47-52).
  - Otherwise it fails with a missing-key error only when the start is not a node (ride.py:56), or when a node it settles before reaching the end has an edge to a non-node (ride.py:58).
  - A missing end only matters at ride.py:61.
  - Every graph built by `build_graph` is closed (GraphBuilder.BuildGraphClosed), and its drivers and pickups are nodes (GraphBuilder.BuildGraphNodes), so no caller in the program is excluded.
- Insertion does not check that `low < high`, and neither does the source. The validity lemmas require it of the windows they insert, and Drivers.SeedValid requires it of the availability list. The constructor does not check this.
- Deletion by exact key stops at the first node whose start time matches (IntervalTree.SameLowNotDeleted). The reservation lemmas therefore assume a valid tree, whose windows are pairwise disjoint. This is not a source defect under the driver's intended input, but the constructor never checks it.
- IntervalTree.IsAvailable: its own contract only gives the "yes means contained" direction. Without a correct `max`, or with `low > high`, the pruned search can miss a containing window: for an inverted window the prune at interval_tree.py:217 can skip the only node holding it. The exact statement, under both conditions, is IntervalTree.IsAvailableExactly.
- Drivers.HasAvailable: for the same reasons, only one direction; Drivers.HasAvailableExactly gives both, under a correct `max` and `start <= end`.
- Rides.PickBest: its own contract only bounds the index. The selection rule is stated by Rides.PickedIsBest and Rides.PickBestIff.
- In-place mutation is not modelled. The source sorts the caller's ride list in place (main.py:115) and updates driver objects in place (main.py:121-122). The model returns the sorted rides and the updated drivers as new values instead.
- `find_best_driver` changing no driver is immediate here, since the model's values are immutable.
- The thin wrappers `insert_interval`, `_find_overlaps`, `_delete` and `is_available` (interval_tree.py:44-55, 95-107, 163-174, 223-234) are merged into the recursive functions they call. An empty tree behaves the same either way.
- Ride addresses are carried but never read, as in the source.
- Out of scope:
  - the sample data and the printing loop (main.py:126-228; script.py:524-626);
  - the float-only `test_haversine` (test.py:41-48);
  - `unittest` itself.
