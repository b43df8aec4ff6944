/** The two-ride, two-driver scenario of the repository's unit test,
    with times in minutes of the day: a ride from Downtown Manhattan at
    10:00 (45 minutes) and one from Times Square at 9:00 (30 minutes);
    driver_1 (rate 20) waits in the East Village from 8:00 to 12:00, and
    driver_2 (rate 18) at Times Square from 9:00 to 13:00. */
module Scenario {
  import opened Options
  import opened Graphs
  import opened Intervals
  import opened IntervalTree
  import opened Drivers
  import opened Rides
  import opened GraphBuilder
  import opened Assignment

  const Downtown := Location(40.7128, -74.0060)
  const EastVillage := Location(40.7306, -73.9352)
  const TimesSquare := Location(40.7580, -73.9855)

  const TenOClock := Ride(600, Downtown, "Downtown Manhattan", EastVillage, "East Village", 45)
  const NineOClock := Ride(540, TimesSquare, "Times Square", Downtown, "Downtown Manhattan", 30)

  function TestRides(): seq<Ride> {
    [TenOClock, NineOClock]
  }

  const DriverOne := Driver("driver_1", 20.0, EastVillage, [Interval(480, 720)], Node(480, 720, 720, Nil, Nil))
  const DriverTwo := Driver("driver_2", 18.0, TimesSquare, [Interval(540, 780)], Node(540, 780, 780, Nil, Nil))

  /** driver_2 after the 9:00 ride: 9:00-9:30 is reserved and it stands
      in Downtown Manhattan. */
  const DriverTwoAfterNine := Driver("driver_2", 18.0, Downtown, [Interval(540, 780)], Node(570, 780, 780, Nil, Nil))

  lemma DistinctIds()
    ensures "driver_1" != "driver_2"
  {
    assert "driver_1"[7] != "driver_2"[7];
  }

  /** The drivers as the constructor builds them from their windows. */
  function TestDrivers(): seq<Driver> {
    [DriverOne, DriverTwo]
  }

  lemma SeededDrivers()
    ensures TestDrivers() ==
      [NewDriver("driver_1", 20.0, EastVillage, [Interval(480, 720)]),
       NewDriver("driver_2", 18.0, TimesSquare, [Interval(540, 780)])]
  {
    assert Seed([Interval(480, 720)]) == Insert(Seed([]), 480, 720);
    assert Seed([Interval(540, 780)]) == Insert(Seed([]), 540, 780);
  }

  lemma SortedRides()
    ensures SortByPickup(TestRides()) == [NineOClock, TenOClock]
  {
    assert SortByPickup([NineOClock]) == [NineOClock];
    assert Ins(TenOClock, [NineOClock]) == [NineOClock] + Ins(TenOClock, []);
  }

  lemma StartState()
    ensures Init([DriverOne, DriverTwo]) ==
      State([DriverOne, DriverTwo], map["driver_1" := [], "driver_2" := []])
  {
    assert Ids([DriverOne, DriverTwo]) == {"driver_1", "driver_2"};
  }

  /** Reserving 9:00-9:30 out of 9:00-13:00 leaves 9:30-13:00. */
  lemma ReserveNineToNineThirty()
    ensures Modify(DriverTwo.tree, 540, 570) == DriverTwoAfterNine.tree
  {
    var t := DriverTwo.tree;
    var x := Interval(540, 780);
    assert SearchOverlap(t, 540, 570) == [x];
    assert Delete(t, 540, 780) == Nil;
    assert PutBack(Nil, x, 540, 570) == Insert(Nil, 570, 780);
    assert Carve(t, [x], 540, 570) == Carve(CarveOne(t, x, 540, 570), [], 540, 570);
  }

  /** driver_2 stands at the pickup and is free; on a tie in travel it is
      the cheaper one, so it wins whether or not driver_1 is free. */
  lemma DriverTwoChosen(one: Driver, two: Driver, ride: Ride, times: TravelTimes)
    requires one.rate == 20.0 && two.rate == 18.0 && two.location == ride.pickup
    requires times(ride.pickup, ride.pickup) == 0
    requires HasAvailable(two, ride.pickupTime, EndTime(ride))
    ensures PickBest([one, two], ride, times, 2) == Some(1)
  {
    var ds := [one, two];
    assert TimeTo(ds, ride, times, 1) == 0;
    assert Eligible(ds, ride, times, 1);
  }

  lemma FirstRide(times: TravelTimes)
    requires forall a :: times(a, a) == 0
    ensures Step(State([DriverOne, DriverTwo], map["driver_1" := [], "driver_2" := []]), NineOClock, times) ==
      State([DriverOne, DriverTwoAfterNine], map["driver_1" := [], "driver_2" := [NineOClock]])
  {
    var s0 := State([DriverOne, DriverTwo], map["driver_1" := [], "driver_2" := []]);
    assert times(TimesSquare, TimesSquare) == 0;
    assert HasAvailable(DriverTwo, 540, 570);
    DriverTwoChosen(DriverOne, DriverTwo, NineOClock, times);
    assert Chosen(s0, NineOClock, times) == Some(1);
    ReserveNineToNineThirty();
    assert Take(DriverTwo, NineOClock) == DriverTwoAfterNine;
    assert Step(s0, NineOClock, times) ==
      State(s0.drivers[1 := DriverTwoAfterNine], s0.lists["driver_2" := [] + [NineOClock]]);
    assert s0.drivers[1 := DriverTwoAfterNine] == [DriverOne, DriverTwoAfterNine];
    DistinctIds();
    assert [] + [NineOClock] == [NineOClock];
    assert s0.lists["driver_2" := [] + [NineOClock]] == map["driver_1" := [], "driver_2" := [NineOClock]];
  }

  lemma SecondRide(times: TravelTimes)
    requires forall a :: times(a, a) == 0
    ensures Step(State([DriverOne, DriverTwoAfterNine], map["driver_1" := [], "driver_2" := [NineOClock]]), TenOClock, times).lists ==
      map["driver_1" := [], "driver_2" := [NineOClock, TenOClock]]
  {
    var s1 := State([DriverOne, DriverTwoAfterNine], map["driver_1" := [], "driver_2" := [NineOClock]]);
    assert times(Downtown, Downtown) == 0;
    assert HasAvailable(DriverTwoAfterNine, 600, 645);
    DriverTwoChosen(DriverOne, DriverTwoAfterNine, TenOClock, times);
    assert Chosen(s1, TenOClock, times) == Some(1);
    assert Step(s1, TenOClock, times).lists == s1.lists["driver_2" := [NineOClock] + [TenOClock]];
    AppendToDriverTwo(NineOClock, TenOClock);
  }

  lemma AppendToDriverTwo(x: Ride, y: Ride)
    ensures map["driver_1" := [], "driver_2" := [x]]["driver_2" := [x] + [y]] ==
      map["driver_1" := [], "driver_2" := [x, y]]
  {
    DistinctIds();
    assert [x] + [y] == [x, y];
  }

  /** Whatever the travel times between distinct points, as long as
      staying put costs nothing, driver_2 takes both rides and driver_1
      none, yet driver_1 still has its (empty) list. */
  lemma BothRidesToDriverTwo(times: TravelTimes)
    requires forall a :: times(a, a) == 0
    ensures Assign(TestRides(), TestDrivers(), times).lists ==
      map["driver_1" := [], "driver_2" := [NineOClock, TenOClock]]
  {
    SortedRides();
    StartState();
    var s0 := State([DriverOne, DriverTwo], map["driver_1" := [], "driver_2" := []]);
    assert Assign(TestRides(), TestDrivers(), times) == Run(s0, [NineOClock, TenOClock], times);
    RunTwo(s0, NineOClock, TenOClock, times);
    FirstRide(times);
    SecondRide(times);
  }

  lemma RunTwo(st: State, r1: Ride, r2: Ride, times: TravelTimes)
    requires Listed(st)
    ensures Run(st, [r1, r2], times) == Step(Step(st, r1, times), r2, times)
  {
    var s1 := Step(st, r1, times);
    var s2 := Step(s1, r2, times);
    assert [r1, r2][1..] == [r2] && [r2][1..] == [];
    assert Run(s1, [r2], times) == Run(s2, [], times) == s2;
  }

  /** A shortest route from a point to itself costs nothing. */
  lemma GraphTimesStayPut(g: Graph)
    ensures forall a :: GraphTimes(g)(a, a) == 0
  {
    forall a {
      ShortestToSelf(g, a);
    }
  }

  /** The built graph has Downtown Manhattan and the East Village as
      nodes, and Downtown Manhattan has an outgoing edge. */
  lemma BuiltGraphHasDowntown(est: Estimate)
    ensures var g := BuildGraph(TestRides(), TestDrivers(), est);
      Downtown in g && EastVillage in g && |g[Downtown]| > 0
  {
    var g := BuildGraph(TestRides(), TestDrivers(), est);
    BuildGraphLegs(TestRides(), TestDrivers(), est, 0);
    assert Edge(EastVillage, 45) in g[Downtown];
  }

  /** On the graph built for the scenario, whatever the estimates, the
      search-based loop may run and gives driver_2 both rides. */
  lemma ScenarioOverBuiltGraph(est: Estimate)
    ensures var g := BuildGraph(TestRides(), TestDrivers(), est);
      Closed(g) &&
      (forall i, r :: 0 <= i < |TestDrivers()| && r in TestRides() ==>
         Reachable(g, TestDrivers()[i].location, r.pickup)) &&
      (forall r1, r2 :: r1 in TestRides() && r2 in TestRides() ==>
         Reachable(g, r1.dropoff, r2.pickup))
    ensures Assign(TestRides(), TestDrivers(), GraphTimes(BuildGraph(TestRides(), TestDrivers(), est))).lists ==
      map["driver_1" := [], "driver_2" := [NineOClock, TenOClock]]
  {
    var rides := TestRides();
    var ds := TestDrivers();
    var g := BuildGraph(rides, ds, est);
    BuildGraphClosed(rides, ds, est);
    forall i, r | 0 <= i < |ds| && r in rides
      ensures Reachable(g, ds[i].location, r.pickup)
    {
      assert ds[i].location in RideLocations(rides);
      assert r.pickup in Pickups(rides);
      DriverReaches(rides, ds, est, i, r.pickup);
    }
    forall r1, r2 | r1 in rides && r2 in rides
      ensures Reachable(g, r1.dropoff, r2.pickup)
    {
      assert r1.dropoff in RideLocations(rides);
      assert r2.pickup in Pickups(rides);
      RideLocationReaches(rides, ds, est, r1.dropoff, r2.pickup);
    }
    GraphTimesStayPut(g);
    BothRidesToDriverTwo(GraphTimes(g));
  }
}
