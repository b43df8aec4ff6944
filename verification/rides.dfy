/** A requested ride and the choice of the driver who takes it. */
module Rides {
  import opened Options
  import opened Graphs
  import opened Routing
  import opened IntervalTree
  import opened Drivers

  /** Times are whole minutes; the duration is the estimated ride time. */
  datatype Ride = Ride(pickupTime: int, pickup: Location, pickupAddress: string,
                       dropoff: Location, dropoffAddress: string, duration: nat)

  /** When the ride ends. */
  function EndTime(r: Ride): int {
    r.pickupTime + r.duration
  }

  /** Travel times between locations, as the matcher sees them. */
  type TravelTimes = (Location, Location) -> nat

  /** The travel times of a graph: its shortest travel times. */
  ghost function GraphTimes(g: Graph): TravelTimes {
    (a, b) => Travel(g, a, b)
  }

  /** The driver, travel minutes away from the pickup, is free from the
      moment it must set off until the ride ends. */
  predicate Passes(d: Driver, ride: Ride, travel: nat) {
    HasAvailable(d, ride.pickupTime - travel, EndTime(ride))
  }

  /** Travel time of driver i to the pickup. */
  function TimeTo(ds: seq<Driver>, ride: Ride, times: TravelTimes, i: nat): nat
    requires i < |ds|
  {
    times(ds[i].location, ride.pickup)
  }

  /** Driver i passes the availability check for the ride. */
  predicate Eligible(ds: seq<Driver>, ride: Ride, times: TravelTimes, i: nat)
    requires i < |ds|
  {
    Passes(ds[i], ride, TimeTo(ds, ride, times, i))
  }

  /** Driver i is strictly better than driver j: closer, or as close and
      cheaper. */
  predicate Beats(ds: seq<Driver>, ride: Ride, times: TravelTimes, i: nat, j: nat)
    requires i < |ds| && j < |ds|
  {
    var ti := TimeTo(ds, ride, times, i);
    var tj := TimeTo(ds, ride, times, j);
    ti < tj || (ti == tj && ds[i].rate < ds[j].rate)
  }

  /** The choice after looking at the first n drivers in list order: an
      eligible driver replaces the current best when it is closer, or
      equally close and cheaper. */
  function PickBest(ds: seq<Driver>, ride: Ride, times: TravelTimes, n: nat): (r: Option<nat>)
    requires n <= |ds|
    ensures r.Some? ==> r.value < n
  {
    if n == 0 then None
    else
      var prev := PickBest(ds, ride, times, n - 1);
      var i := n - 1;
      if !Eligible(ds, ride, times, i) then prev
      else match prev
        case None => Some(i)
        case Some(b) =>
          if TimeTo(ds, ride, times, i) < TimeTo(ds, ride, times, b) then Some(i)
          else if TimeTo(ds, ride, times, i) == TimeTo(ds, ride, times, b)
                  && ds[i].rate < ds[b].rate then Some(i)
          else prev
  }

  /** b is the driver to pick among the first n: eligible, beaten by no
      eligible driver, and beating every eligible driver before it (so on a
      full tie the earliest wins). */
  ghost predicate BestChoice(ds: seq<Driver>, ride: Ride, times: TravelTimes, n: nat, b: nat)
    requires n <= |ds|
  {
    b < n && Eligible(ds, ride, times, b) &&
    (forall j :: 0 <= j < n && Eligible(ds, ride, times, j) ==> !Beats(ds, ride, times, j, b)) &&
    (forall j :: 0 <= j < b && Eligible(ds, ride, times, j) ==> Beats(ds, ride, times, b, j))
  }

  /** No driver is picked exactly when none is eligible. */
  lemma {:induction false} PickNoneIffNoneEligible(ds: seq<Driver>, ride: Ride, times: TravelTimes, n: nat)
    requires n <= |ds|
    ensures PickBest(ds, ride, times, n).None? <==>
      forall j :: 0 <= j < n ==> !Eligible(ds, ride, times, j)
  {
    if n > 0 {
      PickNoneIffNoneEligible(ds, ride, times, n - 1);
    }
  }

  /** The picked driver is the best choice. */
  lemma {:induction false} PickedIsBest(ds: seq<Driver>, ride: Ride, times: TravelTimes, n: nat)
    requires n <= |ds| && PickBest(ds, ride, times, n).Some?
    ensures BestChoice(ds, ride, times, n, PickBest(ds, ride, times, n).value)
  {
    var i := n - 1;
    var prev := PickBest(ds, ride, times, i);
    var r := PickBest(ds, ride, times, n);
    if prev.None? {
      PickNoneIffNoneEligible(ds, ride, times, i);
      FirstEligible(ds, ride, times, n);
    } else {
      var b := prev.value;
      PickedIsBest(ds, ride, times, i);
      if r == Some(i) {
        NewLeader(ds, ride, times, n, b);
      } else {
        assert r == prev;
        Incumbent(ds, ride, times, n, b);
      }
    }
  }

  /** The last driver, eligible after none was, is the best choice. */
  lemma FirstEligible(ds: seq<Driver>, ride: Ride, times: TravelTimes, n: nat)
    requires 0 < n <= |ds| && Eligible(ds, ride, times, n - 1)
    requires forall j :: 0 <= j < n - 1 ==> !Eligible(ds, ride, times, j)
    ensures BestChoice(ds, ride, times, n, n - 1)
  {
  }

  /** The last driver, beating the best choice among the earlier ones,
      is the best choice. */
  lemma NewLeader(ds: seq<Driver>, ride: Ride, times: TravelTimes, n: nat, b: nat)
    requires 0 < n <= |ds| && BestChoice(ds, ride, times, n - 1, b)
    requires Eligible(ds, ride, times, n - 1) && Beats(ds, ride, times, n - 1, b)
    ensures BestChoice(ds, ride, times, n, n - 1)
  {
    var i := n - 1;
    forall j | 0 <= j < n && Eligible(ds, ride, times, j)
      ensures !Beats(ds, ride, times, j, i)
    {
      if j < i {
        assert !Beats(ds, ride, times, j, b);
      }
    }
    forall j | 0 <= j < i && Eligible(ds, ride, times, j)
      ensures Beats(ds, ride, times, i, j)
    {
      assert !Beats(ds, ride, times, j, b);
    }
  }

  /** A last driver that is not eligible or does not beat the best choice
      among the earlier ones leaves that choice the best. */
  lemma Incumbent(ds: seq<Driver>, ride: Ride, times: TravelTimes, n: nat, b: nat)
    requires 0 < n <= |ds| && BestChoice(ds, ride, times, n - 1, b)
    requires Eligible(ds, ride, times, n - 1) ==> !Beats(ds, ride, times, n - 1, b)
    ensures BestChoice(ds, ride, times, n, b)
  {
  }

  /** The picked driver has a free window that covers the time from
      setting off for the pickup until the ride ends. */
  lemma PickedPasses(ds: seq<Driver>, ride: Ride, times: TravelTimes, n: nat)
    requires n <= |ds| && PickBest(ds, ride, times, n).Some?
    ensures var b := PickBest(ds, ride, times, n).value;
      CoveredBy(Elems(ds[b].tree), ride.pickupTime - TimeTo(ds, ride, times, b), EndTime(ride))
  {
    PickedEligible(ds, ride, times, n);
    var b := PickBest(ds, ride, times, n).value;
    var t := TimeTo(ds, ride, times, b);
    assert Passes(ds[b], ride, t);
    assert HasAvailable(ds[b], ride.pickupTime - t, EndTime(ride));
  }

  /** The picked driver passes the availability check. */
  lemma {:induction false} PickedEligible(ds: seq<Driver>, ride: Ride, times: TravelTimes, n: nat)
    requires n <= |ds| && PickBest(ds, ride, times, n).Some?
    ensures Eligible(ds, ride, times, PickBest(ds, ride, times, n).value)
  {
    var prev := PickBest(ds, ride, times, n - 1);
    if PickBest(ds, ride, times, n) == prev {
      PickedEligible(ds, ride, times, n - 1);
    }
  }

  /** At most one driver is the best choice. */
  lemma BestChoiceUnique(ds: seq<Driver>, ride: Ride, times: TravelTimes, n: nat, b1: nat, b2: nat)
    requires n <= |ds|
    requires BestChoice(ds, ride, times, n, b1) && BestChoice(ds, ride, times, n, b2)
    ensures b1 == b2
  {
  }

  /** The loop picks b exactly when b is the best choice. */
  lemma PickBestIff(ds: seq<Driver>, ride: Ride, times: TravelTimes, n: nat, b: nat)
    requires n <= |ds|
    ensures PickBest(ds, ride, times, n) == Some(b) <==> BestChoice(ds, ride, times, n, b)
  {
    if BestChoice(ds, ride, times, n, b) {
      PickNoneIffNoneEligible(ds, ride, times, n);
      PickedIsBest(ds, ride, times, n);
      BestChoiceUnique(ds, ride, times, n, b, PickBest(ds, ride, times, n).value);
    }
    if PickBest(ds, ride, times, n) == Some(b) {
      PickedIsBest(ds, ride, times, n);
    }
  }

  /** Find the driver for the ride: the shortest travel time from each
      driver to the pickup is searched in the graph, and the best eligible
      driver's index is returned (None when no driver is eligible).  Every
      pickup must be reachable from every driver. */
  method FindBestDriver(g: Graph, ds: seq<Driver>, ride: Ride) returns (r: Option<nat>)
    requires Closed(g)
    requires forall i :: 0 <= i < |ds| ==> Reachable(g, ds[i].location, ride.pickup)
    ensures r == PickBest(ds, ride, GraphTimes(g), |ds|)
  {
    ghost var times := GraphTimes(g);
    r := None;
    var minTime: nat := 0;
    var bestRate: real := 0.0;
    for i := 0 to |ds|
      invariant r == PickBest(ds, ride, times, i)
      invariant r.Some? ==> minTime == TimeTo(ds, ride, times, r.value)
      invariant r.Some? ==> bestRate == ds[r.value].rate
    {
      ReachableEnds(g, ds[i].location, ride.pickup);
      var found := ShortestPath(g, ds[i].location, ride.pickup);
      var t := found.value;
      assert t == TimeTo(ds, ride, times, i);
      if Passes(ds[i], ride, t) {
        if r.None? || t < minTime {
          r, minTime, bestRate := Some(i), t, ds[i].rate;
        } else if t == minTime && ds[i].rate < bestRate {
          r, minTime, bestRate := Some(i), t, ds[i].rate;
        }
      }
    }
  }
}
