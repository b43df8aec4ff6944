/** Building the road graph from the rides and the drivers, in three passes:
    1. every ride links its pickup and dropoff both ways, weighted by the
       ride's duration;
    2. every dropoff gets an idle edge to every pickup it has no edge to yet;
    3. every driver location that is not yet a node becomes one, with an
       edge to each pickup whose time lies in one of the driver's windows.
    The travel-time estimate between two points is a parameter. */
module GraphBuilder {
  import opened Graphs
  import opened Intervals
  import opened Drivers
  import opened Rides

  /** Estimated travel minutes between two points. */
  type Estimate = (Location, Location) -> nat

  function Pickups(rides: seq<Ride>): set<Location> {
    set r | r in rides :: r.pickup
  }

  function Dropoffs(rides: seq<Ride>): set<Location> {
    set r | r in rides :: r.dropoff
  }

  function RideLocations(rides: seq<Ride>): set<Location> {
    Pickups(rides) + Dropoffs(rides)
  }

  function DriverLocations(ds: seq<Driver>): set<Location> {
    set d | d in ds :: d.location
  }

  lemma RideLocationsCons(rides: seq<Ride>)
    requires rides != []
    ensures RideLocations(rides) ==
      {rides[0].pickup, rides[0].dropoff} + RideLocations(rides[1..])
  {
    assert rides == [rides[0]] + rides[1..];
  }

  lemma DriverLocationsCons(ds: seq<Driver>)
    requires ds != []
    ensures DriverLocations(ds) == {ds[0].location} + DriverLocations(ds[1..])
  {
    assert ds == [ds[0]] + ds[1..];
  }

  /** The dropoffs in ride order, repeats included. */
  function DropoffList(rides: seq<Ride>): (r: seq<Location>)
    ensures |r| == |rides|
    ensures forall i :: 0 <= i < |r| ==> r[i] == rides[i].dropoff
  {
    seq(|rides|, i requires 0 <= i < |rides| => rides[i].dropoff)
  }

  /** Number of edges of es that lead to p. */
  function CountTo(es: seq<Edge>, p: Location): nat {
    if es == [] then 0 else (if es[0].to == p then 1 else 0) + CountTo(es[1..], p)
  }

  predicate NoEdgeTo(es: seq<Edge>, p: Location) {
    forall i :: 0 <= i < |es| ==> es[i].to != p
  }

  /** g2 keeps every node of g1 and only appends to its edge lists. */
  ghost predicate Extends(g1: Graph, g2: Graph) {
    g1.Keys <= g2.Keys && forall k :: k in g1 ==> g1[k] <= g2[k]
  }

  // ----- pass 1: ride legs -----

  /** Both nodes of the ride exist and each has the leg to the other,
      weighted by the ride's duration. */
  ghost predicate LegPresent(g: Graph, r: Ride) {
    r.pickup in g && r.dropoff in g &&
    Edge(r.dropoff, r.duration) in g[r.pickup] &&
    Edge(r.pickup, r.duration) in g[r.dropoff]
  }

  function AddLeg(g: Graph, r: Ride): Graph {
    var g1 := if r.pickup in g then g else g[r.pickup := []];
    var g2 := if r.dropoff in g1 then g1 else g1[r.dropoff := []];
    var g3 := g2[r.pickup := g2[r.pickup] + [Edge(r.dropoff, r.duration)]];
    g3[r.dropoff := g3[r.dropoff] + [Edge(r.pickup, r.duration)]]
  }

  function Legs(g: Graph, rides: seq<Ride>): Graph
    decreases |rides|
  {
    if rides == [] then g else Legs(AddLeg(g, rides[0]), rides[1..])
  }

  /** One leg adds the ride's two nodes, appends to their lists only, and
      puts the two legs in place; edges only lead to nodes. */
  lemma AddLegEffect(g: Graph, r: Ride)
    ensures AddLeg(g, r).Keys == g.Keys + {r.pickup, r.dropoff}
    ensures Extends(g, AddLeg(g, r))
    ensures LegPresent(AddLeg(g, r), r)
    ensures Closed(g) ==> Closed(AddLeg(g, r))
  {
    var g1 := if r.pickup in g then g else g[r.pickup := []];
    var g2 := if r.dropoff in g1 then g1 else g1[r.dropoff := []];
    var g3 := g2[r.pickup := g2[r.pickup] + [Edge(r.dropoff, r.duration)]];
    var g4 := g3[r.dropoff := g3[r.dropoff] + [Edge(r.pickup, r.duration)]];
    assert g4 == AddLeg(g, r);
    assert g3[r.pickup] <= g4[r.pickup];
    assert Edge(r.dropoff, r.duration) in g4[r.pickup];
    if Closed(g) {
      forall a: Location, i: int | a in g4 && 0 <= i < |g4[a]|
        ensures g4[a][i].to in g4
      {
        if a != r.pickup && a != r.dropoff {
          assert g4[a] == g[a];
        }
      }
    }
  }

  lemma {:induction false} LegsEffect(g: Graph, rides: seq<Ride>)
    ensures Legs(g, rides).Keys == g.Keys + RideLocations(rides)
    ensures Extends(g, Legs(g, rides))
    ensures forall i :: 0 <= i < |rides| ==> LegPresent(Legs(g, rides), rides[i])
    ensures Closed(g) ==> Closed(Legs(g, rides))
    decreases |rides|
  {
    if rides != [] {
      var r := rides[0];
      var g1 := AddLeg(g, r);
      AddLegEffect(g, r);
      LegsEffect(g1, rides[1..]);
      var g2 := Legs(g1, rides[1..]);
      RideLocationsCons(rides);
      forall i | 0 <= i < |rides|
        ensures LegPresent(g2, rides[i])
      {
        if i == 0 {
          LegSurvives(g1, g2, r);
        } else {
          assert rides[i] == rides[1..][i - 1];
        }
      }
    }
  }

  lemma LegSurvives(g1: Graph, g2: Graph, r: Ride)
    requires Extends(g1, g2) && LegPresent(g1, r)
    ensures LegPresent(g2, r)
  {
    assert g1[r.pickup] <= g2[r.pickup];
    assert g1[r.dropoff] <= g2[r.dropoff];
  }

  // ----- pass 2 and 3: linking a node to pickups once -----

  /** Some ride accepted by keep is picked up at p. */
  ghost predicate KeptPickup(rides: seq<Ride>, keep: Ride -> bool, p: Location) {
    exists j :: 0 <= j < |rides| && keep(rides[j]) && rides[j].pickup == p
  }

  /** For each ride in order that keep accepts, append an edge from `from`
      to its pickup, weighted by the estimate, unless the list already has
      an edge to that pickup. */
  function Links(es: seq<Edge>, from: Location, rides: seq<Ride>, est: Estimate,
                 keep: Ride -> bool): seq<Edge>
    decreases |rides|
  {
    if rides == [] then es
    else
      var r := rides[0];
      var es' := if keep(r) && NoEdgeTo(es, r.pickup)
                 then es + [Edge(r.pickup, est(from, r.pickup))] else es;
      Links(es', from, rides[1..], est, keep)
  }

  lemma {:induction false} CountAppend(a: seq<Edge>, b: seq<Edge>, p: Location)
    ensures CountTo(a + b, p) == CountTo(a, p) + CountTo(b, p)
    decreases |a|
  {
    if a != [] {
      CountAppend(a[1..], b, p);
      assert (a + b)[1..] == a[1..] + b;
    } else {
      assert a + b == b;
    }
  }

  lemma {:induction false} CountZero(es: seq<Edge>, p: Location)
    ensures CountTo(es, p) == 0 <==> NoEdgeTo(es, p)
    decreases |es|
  {
    if es != [] {
      CountZero(es[1..], p);
      if NoEdgeTo(es[1..], p) && es[0].to != p {
        forall i | 0 <= i < |es|
          ensures es[i].to != p
        {
          if i > 0 {
            assert es[i] == es[1..][i - 1];
          }
        }
      }
    }
  }

  lemma KeptPickupCons(rides: seq<Ride>, keep: Ride -> bool, p: Location)
    requires rides != []
    ensures KeptPickup(rides, keep, p) <==>
      (keep(rides[0]) && rides[0].pickup == p) || KeptPickup(rides[1..], keep, p)
  {
    if KeptPickup(rides, keep, p) {
      var j :| 0 <= j < |rides| && keep(rides[j]) && rides[j].pickup == p;
      if j > 0 {
        assert rides[1..][j - 1] == rides[j];
      }
    }
    if KeptPickup(rides[1..], keep, p) {
      var j :| 0 <= j < |rides[1..]| && keep(rides[1..][j]) && rides[1..][j].pickup == p;
      assert rides[j + 1] == rides[1..][j];
    }
  }

  /** Linking leaves exactly one edge to each accepted pickup that had
      none, and the count of edges to every other point unchanged. */
  lemma {:induction false} LinksCount(es: seq<Edge>, from: Location, rides: seq<Ride>,
                                      est: Estimate, keep: Ride -> bool, p: Location)
    ensures CountTo(Links(es, from, rides, est, keep), p) ==
      if CountTo(es, p) == 0 && KeptPickup(rides, keep, p) then 1 else CountTo(es, p)
    decreases |rides|
  {
    if rides != [] {
      var r := rides[0];
      var added := keep(r) && NoEdgeTo(es, r.pickup);
      var es' := if added then es + [Edge(r.pickup, est(from, r.pickup))] else es;
      LinksCount(es', from, rides[1..], est, keep, p);
      KeptPickupCons(rides, keep, p);
      CountZero(es, r.pickup);
      if added {
        CountAppend(es, [Edge(r.pickup, est(from, r.pickup))], p);
        assert CountTo([Edge(r.pickup, est(from, r.pickup))], p) == if r.pickup == p then 1 else 0;
      }
    }
  }

  /** Linking only appends, and each appended edge leads to an accepted
      pickup with the estimated weight. */
  lemma {:induction false} LinksAppends(es: seq<Edge>, from: Location, rides: seq<Ride>,
                                        est: Estimate, keep: Ride -> bool)
    ensures es <= Links(es, from, rides, est, keep)
    ensures forall i :: |es| <= i < |Links(es, from, rides, est, keep)| ==>
      var ed := Links(es, from, rides, est, keep)[i];
      ed.w == est(from, ed.to) && KeptPickup(rides, keep, ed.to)
    decreases |rides|
  {
    if rides != [] {
      var r := rides[0];
      var es' := if keep(r) && NoEdgeTo(es, r.pickup)
                 then es + [Edge(r.pickup, est(from, r.pickup))] else es;
      LinksAppends(es', from, rides[1..], est, keep);
      var out := Links(es, from, rides, est, keep);
      assert out == Links(es', from, rides[1..], est, keep);
      forall i | |es| <= i < |out|
        ensures out[i].w == est(from, out[i].to) && KeptPickup(rides, keep, out[i].to)
      {
        KeptPickupCons(rides, keep, out[i].to);
        if i < |es'| {
          assert out[i] == es'[i] == Edge(r.pickup, est(from, r.pickup));
        }
      }
    }
  }

  /** Every edge of a linked list leads into targets when the original
      ones did and every pickup is a target. */
  lemma LinksTargets(es: seq<Edge>, from: Location, rides: seq<Ride>, est: Estimate,
                     keep: Ride -> bool, targets: set<Location>)
    requires forall i :: 0 <= i < |es| ==> es[i].to in targets
    requires Pickups(rides) <= targets
    ensures forall i :: 0 <= i < |Links(es, from, rides, est, keep)| ==>
      Links(es, from, rides, est, keep)[i].to in targets
  {
    LinksAppends(es, from, rides, est, keep);
    var out := Links(es, from, rides, est, keep);
    forall i | 0 <= i < |out|
      ensures out[i].to in targets
    {
      if i < |es| {
        assert out[i] == es[i];
      } else {
        var j :| 0 <= j < |rides| && keep(rides[j]) && rides[j].pickup == out[i].to;
        assert rides[j] in rides;
      }
    }
  }

  // ----- pass 2: idle edges from dropoffs -----

  function AnyRide(): Ride -> bool {
    (r: Ride) => true
  }

  /** Link each listed node, in order, to every pickup. */
  function Idle(g: Graph, nodes: seq<Location>, rides: seq<Ride>, est: Estimate): (r: Graph)
    requires forall i :: 0 <= i < |nodes| ==> nodes[i] in g
    ensures r.Keys == g.Keys
    decreases |nodes|
  {
    if nodes == [] then g
    else
      var d := nodes[0];
      Idle(g[d := Links(g[d], d, rides, est, AnyRide())], nodes[1..], rides, est)
  }

  /** The idle pass keeps the nodes, leaves unlisted nodes alone, and gives
      every listed node exactly one edge to each pickup it had no edge to. */
  lemma {:induction false} IdleEffect(g: Graph, nodes: seq<Location>, rides: seq<Ride>,
                                      est: Estimate, k: Location, p: Location)
    requires forall i :: 0 <= i < |nodes| ==> nodes[i] in g
    requires k in g
    ensures k !in nodes ==> Idle(g, nodes, rides, est)[k] == g[k]
    ensures g[k] <= Idle(g, nodes, rides, est)[k]
    ensures CountTo(Idle(g, nodes, rides, est)[k], p) ==
      if k in nodes && p in Pickups(rides) && CountTo(g[k], p) == 0 then 1 else CountTo(g[k], p)
    decreases |nodes|
  {
    if nodes != [] {
      var d := nodes[0];
      var g1 := g[d := Links(g[d], d, rides, est, AnyRide())];
      IdleEffect(g1, nodes[1..], rides, est, k, p);
      assert k in nodes <==> k == d || k in nodes[1..];
      if k == d {
        LinksCount(g[d], d, rides, est, AnyRide(), p);
        LinksAppends(g[d], d, rides, est, AnyRide());
        PickupIsKept(rides, p);
      }
    }
  }

  lemma PickupIsKept(rides: seq<Ride>, p: Location)
    ensures KeptPickup(rides, AnyRide(), p) <==> p in Pickups(rides)
  {
    if p in Pickups(rides) {
      var r :| r in rides && r.pickup == p;
      var j :| 0 <= j < |rides| && rides[j] == r;
      assert AnyRide()(rides[j]);
    }
  }

  /** The idle pass keeps the graph closed when every pickup is a node. */
  lemma {:induction false} IdleClosed(g: Graph, nodes: seq<Location>, rides: seq<Ride>, est: Estimate)
    requires forall i :: 0 <= i < |nodes| ==> nodes[i] in g
    requires Closed(g) && Pickups(rides) <= g.Keys
    ensures Closed(Idle(g, nodes, rides, est))
    decreases |nodes|
  {
    if nodes != [] {
      var d := nodes[0];
      LinksTargets(g[d], d, rides, est, AnyRide(), g.Keys);
      var g1 := g[d := Links(g[d], d, rides, est, AnyRide())];
      assert g1.Keys == g.Keys;
      IdleClosed(g1, nodes[1..], rides, est);
    }
  }

  // ----- pass 3: driver locations -----

  /** The ride's pickup time lies in one of the windows, ends included. */
  predicate InWindow(ws: seq<Interval>, t: int) {
    exists i :: 0 <= i < |ws| && ws[i].low <= t <= ws[i].high
  }

  function InWindowOf(ws: seq<Interval>): Ride -> bool {
    (r: Ride) => InWindow(ws, r.pickupTime)
  }

  /** A driver whose location is not a node yet makes it one, linked to the
      pickups inside the driver's windows; otherwise nothing happens. */
  function AddDriver(g: Graph, d: Driver, rides: seq<Ride>, est: Estimate): Graph {
    if d.location in g then g
    else g[d.location := Links([], d.location, rides, est, InWindowOf(d.availability))]
  }

  function DriverNodes(g: Graph, ds: seq<Driver>, rides: seq<Ride>, est: Estimate): Graph
    decreases |ds|
  {
    if ds == [] then g else DriverNodes(AddDriver(g, ds[0], rides, est), ds[1..], rides, est)
  }

  /** i is the first driver standing at its location. */
  predicate FirstAt(ds: seq<Driver>, i: nat)
    requires i < |ds|
  {
    forall j :: 0 <= j < i ==> ds[j].location != ds[i].location
  }

  /** The driver pass adds the driver locations and leaves existing nodes
      alone. */
  lemma {:induction false} DriverNodesKeep(g: Graph, ds: seq<Driver>, rides: seq<Ride>, est: Estimate)
    ensures DriverNodes(g, ds, rides, est).Keys == g.Keys + DriverLocations(ds)
    ensures forall k :: k in g ==> DriverNodes(g, ds, rides, est)[k] == g[k]
    decreases |ds|
  {
    if ds != [] {
      DriverNodesKeep(AddDriver(g, ds[0], rides, est), ds[1..], rides, est);
      DriverLocationsCons(ds);
    }
  }

  /** A new node gets the links of the first driver standing there. */
  lemma {:induction false} DriverNodesNew(g: Graph, ds: seq<Driver>, rides: seq<Ride>, est: Estimate, i: nat)
    requires i < |ds| && ds[i].location !in g && FirstAt(ds, i)
    ensures ds[i].location in DriverNodes(g, ds, rides, est)
    ensures DriverNodes(g, ds, rides, est)[ds[i].location] ==
      Links([], ds[i].location, rides, est, InWindowOf(ds[i].availability))
    decreases |ds|
  {
    DriverNodesKeep(g, ds, rides, est);
    assert ds[i] in ds;
    var g1 := AddDriver(g, ds[0], rides, est);
    if i == 0 {
      DriverNodesKeep(g1, ds[1..], rides, est);
    } else {
      assert ds[0].location != ds[i].location;
      assert ds[1..][i - 1] == ds[i];
      assert FirstAt(ds[1..], i - 1) by {
        forall j | 0 <= j < i - 1
          ensures ds[1..][j].location != ds[1..][i - 1].location
        {
          assert ds[1..][j] == ds[j + 1];
        }
      }
      DriverNodesNew(g1, ds[1..], rides, est, i - 1);
    }
  }

  /** The driver pass keeps the graph closed when every pickup is a node. */
  lemma {:induction false} DriverNodesClosed(g: Graph, ds: seq<Driver>, rides: seq<Ride>, est: Estimate)
    requires Closed(g) && Pickups(rides) <= g.Keys
    ensures Closed(DriverNodes(g, ds, rides, est))
    decreases |ds|
  {
    if ds != [] {
      var d := ds[0];
      var g1: Graph := AddDriver(g, d, rides, est);
      if d.location !in g {
        LinksTargets([], d.location, rides, est, InWindowOf(d.availability), g.Keys);
        forall a: Location, i: int | a in g1 && 0 <= i < |g1[a]|
          ensures g1[a][i].to in g1
        {
          if a != d.location {
            assert g1[a] == g[a];
          }
        }
      }
      DriverNodesClosed(g1, ds[1..], rides, est);
    }
  }

  // ----- the whole graph -----

  /** The graph of ride legs alone. */
  function LegGraph(rides: seq<Ride>): Graph {
    Legs(map[], rides)
  }

  function BuildGraph(rides: seq<Ride>, ds: seq<Driver>, est: Estimate): Graph {
    LegsEffect(map[], rides);
    var legs := LegGraph(rides);
    assert forall i :: 0 <= i < |rides| ==> DropoffList(rides)[i] in legs by {
      forall i | 0 <= i < |rides|
        ensures DropoffList(rides)[i] in legs
      {
        assert rides[i] in rides;
      }
    }
    DriverNodes(Idle(legs, DropoffList(rides), rides, est), ds, rides, est)
  }

  /** Facts about the graph after the first two passes. */
  lemma RideGraphFacts(rides: seq<Ride>, est: Estimate)
    ensures forall i :: 0 <= i < |rides| ==> DropoffList(rides)[i] in LegGraph(rides)
    ensures Idle(LegGraph(rides), DropoffList(rides), rides, est).Keys == RideLocations(rides)
    ensures Closed(Idle(LegGraph(rides), DropoffList(rides), rides, est))
  {
    LegsEffect(map[], rides);
    var legs := LegGraph(rides);
    forall i | 0 <= i < |rides|
      ensures DropoffList(rides)[i] in legs
    {
      assert rides[i] in rides;
    }
    IdleClosed(legs, DropoffList(rides), rides, est);
  }

  /** Every ride pickup and dropoff and every driver location is a node. */
  lemma BuildGraphNodes(rides: seq<Ride>, ds: seq<Driver>, est: Estimate)
    ensures BuildGraph(rides, ds, est).Keys == RideLocations(rides) + DriverLocations(ds)
  {
    RideGraphFacts(rides, est);
    DriverNodesKeep(Idle(LegGraph(rides), DropoffList(rides), rides, est), ds, rides, est);
  }

  /** Every edge leads to a node. */
  lemma BuildGraphClosed(rides: seq<Ride>, ds: seq<Driver>, est: Estimate)
    ensures Closed(BuildGraph(rides, ds, est))
  {
    RideGraphFacts(rides, est);
    DriverNodesClosed(Idle(LegGraph(rides), DropoffList(rides), rides, est), ds, rides, est);
  }

  /** The edge list of a ride location in the final graph, starting from
      its ride legs: a dropoff has exactly one edge to each pickup it had
      no leg to, and nothing else is added. */
  lemma BuildGraphRideNode(rides: seq<Ride>, ds: seq<Driver>, est: Estimate, k: Location, p: Location)
    requires k in RideLocations(rides)
    ensures k in LegGraph(rides) && k in BuildGraph(rides, ds, est)
    ensures LegGraph(rides)[k] <= BuildGraph(rides, ds, est)[k]
    ensures CountTo(BuildGraph(rides, ds, est)[k], p) ==
      if k in Dropoffs(rides) && p in Pickups(rides) && CountTo(LegGraph(rides)[k], p) == 0 then 1
      else CountTo(LegGraph(rides)[k], p)
  {
    RideGraphFacts(rides, est);
    LegsEffect(map[], rides);
    var legs := LegGraph(rides);
    var r := Idle(legs, DropoffList(rides), rides, est);
    IdleEffect(legs, DropoffList(rides), rides, est, k, p);
    DriverNodesKeep(r, ds, rides, est);
    assert k in DropoffList(rides) <==> k in Dropoffs(rides) by {
      if k in Dropoffs(rides) {
        var x :| x in rides && x.dropoff == k;
        var j :| 0 <= j < |rides| && rides[j] == x;
        assert DropoffList(rides)[j] == k;
      }
    }
  }

  /** Each ride's two legs are in the final graph. */
  lemma BuildGraphLegs(rides: seq<Ride>, ds: seq<Driver>, est: Estimate, i: nat)
    requires i < |rides|
    ensures LegPresent(BuildGraph(rides, ds, est), rides[i])
  {
    LegsEffect(map[], rides);
    var r := rides[i];
    var p := r.pickup;
    BuildGraphRideNode(rides, ds, est, r.pickup, p);
    BuildGraphRideNode(rides, ds, est, r.dropoff, p);
    var g := BuildGraph(rides, ds, est);
    assert LegGraph(rides)[r.pickup] <= g[r.pickup];
    assert LegGraph(rides)[r.dropoff] <= g[r.dropoff];
  }

  /** A driver location that was no ride location has exactly one edge to
      each pickup whose time lies in a window of the first driver standing
      there, weighted by the estimate, and no other edge. */
  lemma BuildGraphDriverNode(rides: seq<Ride>, ds: seq<Driver>, est: Estimate, i: nat, p: Location)
    requires i < |ds| && ds[i].location !in RideLocations(rides) && FirstAt(ds, i)
    ensures ds[i].location in BuildGraph(rides, ds, est)
    ensures CountTo(BuildGraph(rides, ds, est)[ds[i].location], p) ==
      if exists j :: 0 <= j < |rides| && rides[j].pickup == p &&
                     InWindow(ds[i].availability, rides[j].pickupTime)
      then 1 else 0
    ensures forall e :: e in BuildGraph(rides, ds, est)[ds[i].location] ==>
      e.w == est(ds[i].location, e.to)
  {
    RideGraphFacts(rides, est);
    var loc := ds[i].location;
    var keep := InWindowOf(ds[i].availability);
    DriverNodesNew(Idle(LegGraph(rides), DropoffList(rides), rides, est), ds, rides, est, i);
    LinksCount([], loc, rides, est, keep, p);
    LinksAppends([], loc, rides, est, keep);
    assert KeptPickup(rides, keep, p) <==>
      exists j :: 0 <= j < |rides| && rides[j].pickup == p &&
                  InWindow(ds[i].availability, rides[j].pickupTime);
  }

  // ----- reachability -----

  lemma EdgeToFromCount(es: seq<Edge>, p: Location) returns (e: Edge)
    requires CountTo(es, p) > 0
    ensures e in es && e.to == p
  {
    CountZero(es, p);
    var i :| 0 <= i < |es| && es[i].to == p;
    e := es[i];
  }

  /** Every ride location reaches every pickup: a dropoff has an edge to
      each pickup, and a pickup has the leg to its ride's dropoff. */
  lemma RideLocationReaches(rides: seq<Ride>, ds: seq<Driver>, est: Estimate, k: Location, p: Location)
    requires k in RideLocations(rides) && p in Pickups(rides)
    ensures Reachable(BuildGraph(rides, ds, est), k, p)
  {
    var g := BuildGraph(rides, ds, est);
    if k in Dropoffs(rides) {
      DropoffReaches(rides, ds, est, k, p);
    } else {
      var x :| x in rides && x.pickup == k;
      var j :| 0 <= j < |rides| && rides[j] == x;
      BuildGraphLegs(rides, ds, est, j);
      assert x.dropoff in Dropoffs(rides);
      DropoffReaches(rides, ds, est, x.dropoff, p);
      ReachCons(g, k, Edge(x.dropoff, x.duration), p);
    }
  }

  lemma DropoffReaches(rides: seq<Ride>, ds: seq<Driver>, est: Estimate, d: Location, p: Location)
    requires d in Dropoffs(rides) && p in Pickups(rides)
    ensures Reachable(BuildGraph(rides, ds, est), d, p)
  {
    var g := BuildGraph(rides, ds, est);
    BuildGraphRideNode(rides, ds, est, d, p);
    var e := EdgeToFromCount(g[d], p);
    ReachSelf(g, p);
    ReachCons(g, d, e, p);
  }

  /** Drivers that can start: standing at a ride location, or at a new
      node whose first driver has some pickup time inside a window. */
  ghost predicate CanStart(rides: seq<Ride>, ds: seq<Driver>, i: nat)
    requires i < |ds|
  {
    ds[i].location in RideLocations(rides) ||
    exists f, j :: 0 <= f < |ds| && 0 <= j < |rides| && FirstAt(ds, f) &&
      ds[f].location == ds[i].location &&
      InWindow(ds[f].availability, rides[j].pickupTime)
  }

  /** Such a driver reaches every pickup. */
  lemma DriverReaches(rides: seq<Ride>, ds: seq<Driver>, est: Estimate, i: nat, p: Location)
    requires i < |ds| && CanStart(rides, ds, i) && p in Pickups(rides)
    ensures Reachable(BuildGraph(rides, ds, est), ds[i].location, p)
  {
    var g := BuildGraph(rides, ds, est);
    var loc := ds[i].location;
    if loc in RideLocations(rides) {
      RideLocationReaches(rides, ds, est, loc, p);
    } else {
      var f, j :| 0 <= f < |ds| && 0 <= j < |rides| && FirstAt(ds, f) &&
        ds[f].location == loc && InWindow(ds[f].availability, rides[j].pickupTime);
      var q := rides[j].pickup;
      BuildGraphDriverNode(rides, ds, est, f, q);
      var e := EdgeToFromCount(g[loc], q);
      assert rides[j] in rides;
      RideLocationReaches(rides, ds, est, q, p);
      ReachCons(g, loc, e, p);
    }
  }
}
