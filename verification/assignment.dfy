/** The greedy assignment of rides to drivers: rides are taken in order of
    pickup time; each goes to the best driver for it, who then reserves the
    ride's own time and moves to its dropoff. */
module Assignment {
  import opened Options
  import opened Graphs
  import opened Routing
  import opened Intervals
  import opened IntervalTree
  import opened Drivers
  import opened Rides

  // ----- stable sort by pickup time -----

  predicate SortedByPickup(s: seq<Ride>) {
    forall i, j :: 0 <= i < j < |s| ==> s[i].pickupTime <= s[j].pickupTime
  }

  /** The rides of s picked up at minute t, in their order in s. */
  function At(s: seq<Ride>, t: int): seq<Ride> {
    if s == [] then [] else (if s[0].pickupTime == t then [s[0]] else []) + At(s[1..], t)
  }

  /** Put x in front of the first ride picked up no earlier than x. */
  function Ins(x: Ride, s: seq<Ride>): (r: seq<Ride>)
    ensures multiset(r) == multiset(s) + multiset{x}
  {
    if s == [] then [x]
    else if x.pickupTime <= s[0].pickupTime then [x] + s
    else
      assert s == [s[0]] + s[1..];
      [s[0]] + Ins(x, s[1..])
  }

  /** Inserting into sorted rides keeps them sorted. */
  lemma {:induction false} InsSorted(x: Ride, s: seq<Ride>)
    requires SortedByPickup(s)
    ensures SortedByPickup(Ins(x, s))
    decreases |s|
  {
    if s != [] && x.pickupTime > s[0].pickupTime {
      var tail := s[1..];
      InsSorted(x, tail);
      HeadFirst(s);
      InsBound(x, tail, s[0].pickupTime);
      ConsSorted(s[0], Ins(x, tail));
    }
  }

  /** The first of sorted rides is picked up no later than the rest. */
  lemma HeadFirst(s: seq<Ride>)
    requires s != [] && SortedByPickup(s)
    ensures forall y :: y in s[1..] ==> s[0].pickupTime <= y.pickupTime
  {
    forall y | y in s[1..]
      ensures s[0].pickupTime <= y.pickupTime
    {
      var j :| 0 <= j < |s[1..]| && s[1..][j] == y;
      assert s[j + 1] == y;
    }
  }

  /** Inserting keeps a lower bound on the pickup times. */
  lemma InsBound(x: Ride, s: seq<Ride>, lo: int)
    requires lo <= x.pickupTime && forall y :: y in s ==> lo <= y.pickupTime
    ensures forall y :: y in Ins(x, s) ==> lo <= y.pickupTime
  {
    var r := Ins(x, s);
    forall y | y in r
      ensures lo <= y.pickupTime
    {
      assert y in multiset(r);
      if y != x {
        assert y in multiset(s);
      }
    }
  }

  /** A ride no later than any of the sorted rides after it keeps them
      sorted. */
  lemma ConsSorted(a: Ride, rest: seq<Ride>)
    requires SortedByPickup(rest)
    requires forall y :: y in rest ==> a.pickupTime <= y.pickupTime
    ensures SortedByPickup([a] + rest)
  {
    forall i, j | 0 <= i < j < |[a] + rest|
      ensures ([a] + rest)[i].pickupTime <= ([a] + rest)[j].pickupTime
    {
      if i == 0 {
        assert rest[j - 1] in rest;
      }
    }
  }

  /** The rides in order of pickup time; rides picked up at the same
      minute keep their order. */
  function SortByPickup(s: seq<Ride>): (r: seq<Ride>)
    ensures SortedByPickup(r)
    ensures multiset(r) == multiset(s)
  {
    if s == [] then []
    else
      assert s == [s[0]] + s[1..];
      InsSorted(s[0], SortByPickup(s[1..]));
      Ins(s[0], SortByPickup(s[1..]))
  }

  /** At over a ride followed by more rides. */
  lemma AtCons(a: Ride, s: seq<Ride>, t: int)
    ensures At([a] + s, t) == (if a.pickupTime == t then [a] else []) + At(s, t)
  {
    assert ([a] + s)[1..] == s;
  }

  /** Inserting x only places it among the rides with its own pickup
      time, in front of them. */
  lemma {:induction false} AtIns(x: Ride, s: seq<Ride>, t: int)
    ensures At(Ins(x, s), t) == (if x.pickupTime == t then [x] else []) + At(s, t)
    decreases |s|
  {
    if s == [] {
      AtCons(x, [], t);
      assert [x] + [] == [x];
    } else if x.pickupTime <= s[0].pickupTime {
      AtCons(x, s, t);
    } else {
      var rest := Ins(x, s[1..]);
      AtIns(x, s[1..], t);
      AtCons(s[0], rest, t);
      AtCons(s[0], s[1..], t);
      assert [s[0]] + s[1..] == s;
      SwapDisjoint(if s[0].pickupTime == t then [s[0]] else [],
                   if x.pickupTime == t then [x] else [], At(s[1..], t));
    }
  }

  /** Two pieces of which one is empty may be swapped. */
  lemma SwapDisjoint(a: seq<Ride>, b: seq<Ride>, c: seq<Ride>)
    requires a == [] || b == []
    ensures a + (b + c) == b + (a + c)
  {
    if a == [] {
      assert a + (b + c) == b + c;
      assert a + c == c;
    } else {
      assert b + (a + c) == a + c;
      assert b + c == c;
    }
  }

  /** The sort is stable: the rides picked up at any one minute come out
      in their original order. */
  lemma {:induction false} SortStable(s: seq<Ride>, t: int)
    ensures At(SortByPickup(s), t) == At(s, t)
    decreases |s|
  {
    if s != [] {
      SortStable(s[1..], t);
      AtIns(s[0], SortByPickup(s[1..]), t);
    }
  }

  // ----- the assignment state -----

  /** The drivers as they stand and the rides given to each driver id. */
  datatype State = State(drivers: seq<Driver>, lists: map<string, seq<Ride>>)

  /** Every driver's id has a list. */
  predicate Listed(st: State) {
    forall i :: 0 <= i < |st.drivers| ==> st.drivers[i].id in st.lists
  }

  function Ids(ds: seq<Driver>): set<string> {
    set d | d in ds :: d.id
  }

  /** Every driver id starts with an empty list. */
  function Init(ds: seq<Driver>): (st: State)
    ensures Listed(st) && st.drivers == ds
    ensures st.lists.Keys == Ids(ds)
    ensures forall id :: id in st.lists ==> st.lists[id] == []
  {
    assert forall i :: 0 <= i < |ds| ==> ds[i] in ds;
    State(ds, map id | id in Ids(ds) :: [])
  }

  /** The driver the ride goes to, if any. */
  function Chosen(st: State, ride: Ride, times: TravelTimes): Option<nat> {
    PickBest(st.drivers, ride, times, |st.drivers|)
  }

  /** The driver after taking the ride: its own time is reserved and it
      moves to the dropoff. */
  function Take(d: Driver, ride: Ride): Driver {
    Reserve(d, ride.pickupTime, EndTime(ride)).(location := ride.dropoff)
  }

  /** Hand one ride to its best driver, if there is one. */
  function Step(st: State, ride: Ride, times: TravelTimes): (r: State)
    requires Listed(st)
    ensures Listed(r) && r.lists.Keys == st.lists.Keys && |r.drivers| == |st.drivers|
  {
    match Chosen(st, ride, times)
    case None => st
    case Some(b) =>
      var d := st.drivers[b];
      State(st.drivers[b := Take(d, ride)], st.lists[d.id := st.lists[d.id] + [ride]])
  }

  /** The id of the driver the ride goes to, if any. */
  function ChosenId(st: State, ride: Ride, times: TravelTimes): Option<string> {
    match Chosen(st, ride, times)
    case Some(b) => Some(st.drivers[b].id)
    case None => None
  }

  /** The ride is appended to the list of the chosen driver's id and no
      other list changes. */
  lemma StepLists(st: State, ride: Ride, times: TravelTimes, id: string)
    requires Listed(st) && id in st.lists
    ensures Step(st, ride, times).lists[id] ==
      st.lists[id] + if ChosenId(st, ride, times) == Some(id) then [ride] else []
  {
  }

  /** Only the chosen driver changes: its id, rate and windows stay, it
      stands at the dropoff, and exactly the ride's own minutes leave its
      free time. */
  lemma StepDrivers(st: State, ride: Ride, times: TravelTimes, i: nat, m: int)
    requires Listed(st) && i < |st.drivers|
    requires Valid(st.drivers[i].tree)
    ensures var d := st.drivers[i];
      var d' := Step(st, ride, times).drivers[i];
      if Chosen(st, ride, times) == Some(i) then
        d'.id == d.id && d'.rate == d.rate && d'.availability == d.availability &&
        d'.location == ride.dropoff && Valid(d'.tree) &&
        (FreeAt(Elems(d'.tree), m) <==>
           FreeAt(Elems(d.tree), m) && !(ride.pickupTime <= m < EndTime(ride)))
      else d' == d
  {
    if Chosen(st, ride, times) == Some(i) {
      ReserveFreeTime(st.drivers[i], ride.pickupTime, EndTime(ride), m);
      ReserveKeepsValid(st.drivers[i], ride.pickupTime, EndTime(ride));
    }
  }

  /** The chosen driver's trip to the pickup is not reserved: every minute
      from setting off until the pickup stays free. */
  lemma TravelStaysFree(st: State, ride: Ride, times: TravelTimes, m: int)
    requires Listed(st) && Chosen(st, ride, times).Some?
    requires Valid(st.drivers[Chosen(st, ride, times).value].tree)
    requires ride.pickupTime - TimeTo(st.drivers, ride, times, Chosen(st, ride, times).value) <= m < ride.pickupTime
    ensures FreeAt(Elems(Step(st, ride, times).drivers[Chosen(st, ride, times).value].tree), m)
  {
    var b := Chosen(st, ride, times).value;
    var d := st.drivers[b];
    PickedPasses(st.drivers, ride, times, |st.drivers|);
    CoveredIsFree(Elems(d.tree), ride.pickupTime - TimeTo(st.drivers, ride, times, b), EndTime(ride), m);
    StepDrivers(st, ride, times, b, m);
  }

  lemma CoveredIsFree(e: multiset<Interval>, lo: int, hi: int, m: int)
    requires CoveredBy(e, lo, hi) && lo <= m < hi
    ensures FreeAt(e, m)
  {
    var x :| x in e && Covers(x, lo, hi);
    assert HasMinute(x, m);
  }

  // ----- the whole run -----

  /** Hand out the rides in the given order. */
  function Run(st: State, rides: seq<Ride>, times: TravelTimes): (r: State)
    requires Listed(st)
    ensures Listed(r) && r.lists.Keys == st.lists.Keys && |r.drivers| == |st.drivers|
    decreases |rides|
  {
    if rides == [] then st else Run(Step(st, rides[0], times), rides[1..], times)
  }

  /** The id each ride went to, in order (None: no driver took it). */
  function Choices(st: State, rides: seq<Ride>, times: TravelTimes): (cs: seq<Option<string>>)
    requires Listed(st)
    ensures |cs| == |rides|
    decreases |rides|
  {
    if rides == [] then []
    else
      [ChosenId(st, rides[0], times)] + Choices(Step(st, rides[0], times), rides[1..], times)
  }

  /** The rides whose choice is id, in order. */
  function Picked(rides: seq<Ride>, cs: seq<Option<string>>, id: string): seq<Ride>
    requires |cs| == |rides|
  {
    if rides == [] then []
    else (if cs[0] == Some(id) then [rides[0]] else []) + Picked(rides[1..], cs[1..], id)
  }

  /** Each id's list gains exactly the rides that went to it, in the
      order they were handed out; so every ride lands in at most one list,
      and in none when no driver took it. */
  lemma {:induction false} RunLists(st: State, rides: seq<Ride>, times: TravelTimes, id: string)
    requires Listed(st) && id in st.lists
    ensures Run(st, rides, times).lists[id] ==
      st.lists[id] + Picked(rides, Choices(st, rides, times), id)
    decreases |rides|
  {
    if rides != [] {
      var st' := Step(st, rides[0], times);
      StepLists(st, rides[0], times, id);
      RunLists(st', rides[1..], times, id);
      var cs := Choices(st, rides, times);
      assert cs[0] == ChosenId(st, rides[0], times);
      assert cs[1..] == Choices(st', rides[1..], times);
      var head := if cs[0] == Some(id) then [rides[0]] else [];
      var rest := Picked(rides[1..], cs[1..], id);
      assert Picked(rides, cs, id) == head + rest;
      assert Run(st, rides, times) == Run(st', rides[1..], times);
      AppendStep(st.lists[id], st'.lists[id], Run(st, rides, times).lists[id], head, rest);
    }
  }

  lemma AppendStep(l0: seq<Ride>, l1: seq<Ride>, l2: seq<Ride>, head: seq<Ride>, rest: seq<Ride>)
    requires l1 == l0 + head && l2 == l1 + rest
    ensures l2 == l0 + (head + rest)
  {
  }

  /** The rides picked out of a sorted sequence are sorted. */
  lemma {:induction false} PickedSorted(rides: seq<Ride>, cs: seq<Option<string>>, id: string)
    requires |cs| == |rides| && SortedByPickup(rides)
    ensures SortedByPickup(Picked(rides, cs, id))
    ensures forall y :: y in Picked(rides, cs, id) ==> y in rides
    decreases |rides|
  {
    if rides != [] {
      var tail := rides[1..];
      PickedSorted(tail, cs[1..], id);
      assert forall k :: 0 <= k < |tail| ==> rides[0].pickupTime <= tail[k].pickupTime;
      PickedCons(rides[0], Picked(tail, cs[1..], id), tail, cs[0] == Some(id));
      assert [rides[0]] + tail == rides;
    }
  }

  /** Two different ids never share a ride: together their lists take
      each ride at most as often as it occurs. */
  lemma {:induction false} PickedShare(rides: seq<Ride>, cs: seq<Option<string>>, id1: string, id2: string)
    requires |cs| == |rides| && id1 != id2
    ensures multiset(Picked(rides, cs, id1)) + multiset(Picked(rides, cs, id2)) <= multiset(rides)
    decreases |rides|
  {
    if rides != [] {
      var tail := rides[1..];
      PickedShare(tail, cs[1..], id1, id2);
      assert rides == [rides[0]] + tail;
      var h1 := if cs[0] == Some(id1) then [rides[0]] else [];
      var h2 := if cs[0] == Some(id2) then [rides[0]] else [];
      assert multiset(h1) + multiset(h2) <= multiset{rides[0]};
      assert multiset(Picked(rides, cs, id1)) == multiset(h1) + multiset(Picked(tail, cs[1..], id1));
      assert multiset(Picked(rides, cs, id2)) == multiset(h2) + multiset(Picked(tail, cs[1..], id2));
    }
  }

  /** One step of PickedSorted: a ride no later than all that follow it
      goes in front of the sorted rest. */
  lemma PickedCons(x: Ride, rest: seq<Ride>, tail: seq<Ride>, take: bool)
    requires SortedByPickup(rest)
    requires forall y :: y in rest ==> y in tail
    requires forall k :: 0 <= k < |tail| ==> x.pickupTime <= tail[k].pickupTime
    ensures SortedByPickup((if take then [x] else []) + rest)
    ensures forall y :: y in (if take then [x] else []) + rest ==> y in [x] + tail
  {
    forall k | 0 <= k < |rest|
      ensures x.pickupTime <= rest[k].pickupTime
    {
      assert rest[k] in rest;
      var j :| 0 <= j < |tail| && tail[j] == rest[k];
    }
  }

  /** Every driver's tree stays valid throughout the run. */
  lemma {:induction false} RunKeepsValid(st: State, rides: seq<Ride>, times: TravelTimes)
    requires Listed(st)
    requires forall i :: 0 <= i < |st.drivers| ==> Valid(st.drivers[i].tree)
    ensures forall i :: 0 <= i < |st.drivers| ==> Valid(Run(st, rides, times).drivers[i].tree)
    decreases |rides|
  {
    if rides != [] {
      var st' := Step(st, rides[0], times);
      forall i | 0 <= i < |st.drivers|
        ensures Valid(st'.drivers[i].tree)
      {
        StepDrivers(st, rides[0], times, i, 0);
      }
      RunKeepsValid(st', rides[1..], times);
    }
  }

  /** The assignment: every driver id starts with an empty list, and the
      rides are handed out in order of pickup time. */
  function Assign(rides: seq<Ride>, ds: seq<Driver>, times: TravelTimes): State {
    Run(Init(ds), SortByPickup(rides), times)
  }

  /** Every driver id has a list, drivers without rides included, and
      each list holds the rides that went to that id in order of pickup
      time. */
  lemma AssignLists(rides: seq<Ride>, ds: seq<Driver>, times: TravelTimes, id: string)
    ensures Assign(rides, ds, times).lists.Keys == Ids(ds)
    ensures id in Ids(ds) ==>
      var sorted := SortByPickup(rides);
      var lst := Assign(rides, ds, times).lists[id];
      lst == Picked(sorted, Choices(Init(ds), sorted, times), id) &&
      SortedByPickup(lst) &&
      forall y :: y in lst ==> y in rides
  {
    if id in Ids(ds) {
      var sorted := SortByPickup(rides);
      RunLists(Init(ds), sorted, times, id);
      PickedSorted(sorted, Choices(Init(ds), sorted, times), id);
      forall y | y in sorted
        ensures y in rides
      {
        assert y in multiset(sorted);
      }
    }
  }

  /** A ride lands in at most one driver's list. */
  lemma AssignShare(rides: seq<Ride>, ds: seq<Driver>, times: TravelTimes, id1: string, id2: string)
    requires id1 in Ids(ds) && id2 in Ids(ds) && id1 != id2
    ensures var lists := Assign(rides, ds, times).lists;
      multiset(lists[id1]) + multiset(lists[id2]) <= multiset(rides)
  {
    var sorted := SortByPickup(rides);
    AssignLists(rides, ds, times, id1);
    AssignLists(rides, ds, times, id2);
    PickedShare(sorted, Choices(Init(ds), sorted, times), id1, id2);
  }

  // ----- the executable loop -----

  /** Where each driver stands after a step. */
  lemma StepLocation(st: State, ride: Ride, times: TravelTimes, i: nat)
    requires Listed(st) && i < |st.drivers|
    ensures Step(st, ride, times).drivers[i].location ==
      if Chosen(st, ride, times) == Some(i) then ride.dropoff else st.drivers[i].location
  {
  }

  /** Every driver can still reach every pickup after a step, since the
      one that moves stands at a dropoff. */
  lemma StepKeepsReach(g: Graph, st: State, ride: Ride, rides: seq<Ride>)
    requires Listed(st) && ride in rides
    requires forall i, r :: 0 <= i < |st.drivers| && r in rides ==>
      Reachable(g, st.drivers[i].location, r.pickup)
    requires forall r1, r2 :: r1 in rides && r2 in rides ==> Reachable(g, r1.dropoff, r2.pickup)
    ensures var st' := Step(st, ride, GraphTimes(g));
      forall i, r :: 0 <= i < |st'.drivers| && r in rides ==>
        Reachable(g, st'.drivers[i].location, r.pickup)
  {
    var st' := Step(st, ride, GraphTimes(g));
    forall i, r | 0 <= i < |st'.drivers| && r in rides
      ensures Reachable(g, st'.drivers[i].location, r.pickup)
    {
      StepLocation(st, ride, GraphTimes(g), i);
    }
  }

  /** The sorted rides are the given ones. */
  lemma SortedFromRides(rides: seq<Ride>)
    ensures forall k :: 0 <= k < |SortByPickup(rides)| ==> SortByPickup(rides)[k] in rides
  {
    var sorted := SortByPickup(rides);
    forall k | 0 <= k < |sorted|
      ensures sorted[k] in rides
    {
      assert sorted[k] in multiset(sorted);
    }
  }

  /** One pass of the loop: find the best driver over the graph and hand
      it the ride. */
  method AssignOne(g: Graph, st: State, ride: Ride) returns (r: State)
    requires Closed(g) && Listed(st)
    requires forall i :: 0 <= i < |st.drivers| ==> Reachable(g, st.drivers[i].location, ride.pickup)
    ensures r == Step(st, ride, GraphTimes(g))
  {
    var b := FindBestDriver(g, st.drivers, ride);
    r := st;
    if b.Some? {
      var d := st.drivers[b.value];
      r := State(st.drivers[b.value := Take(d, ride)], st.lists[d.id := st.lists[d.id] + [ride]]);
    }
  }

  /** Assign the rides over the graph: returns each id's rides and the
      drivers as they end up.  Every pickup must be reachable from every
      driver's starting location and from every dropoff. */
  method AssignRidesToDrivers(rides: seq<Ride>, ds: seq<Driver>, g: Graph)
    returns (lists: map<string, seq<Ride>>, drivers: seq<Driver>)
    requires Closed(g)
    requires forall i, r :: 0 <= i < |ds| && r in rides ==> Reachable(g, ds[i].location, r.pickup)
    requires forall r1, r2 :: r1 in rides && r2 in rides ==> Reachable(g, r1.dropoff, r2.pickup)
    ensures State(drivers, lists) == Assign(rides, ds, GraphTimes(g))
  {
    ghost var times := GraphTimes(g);
    var sorted := SortByPickup(rides);
    SortedFromRides(rides);
    var st := Init(ds);
    for k := 0 to |sorted|
      invariant Listed(st)
      invariant Run(st, sorted[k..], times) == Assign(rides, ds, times)
      invariant forall i, r :: 0 <= i < |st.drivers| && r in rides ==>
        Reachable(g, st.drivers[i].location, r.pickup)
    {
      var ride := sorted[k];
      assert sorted[k..][0] == ride && sorted[k..][1..] == sorted[k + 1..];
      var st' := AssignOne(g, st, ride);
      StepKeepsReach(g, st, ride, rides);
      st := st';
    }
    lists, drivers := st.lists, st.drivers;
  }
}
