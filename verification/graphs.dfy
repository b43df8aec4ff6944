/** The road graph the matcher routes over: locations are nodes, and each
    node lists its outgoing edges with a travel time in whole minutes.
    A walk is the sequence of edges taken, its cost the sum of their
    weights; the shortest travel time is the least cost of a walk. */
module Graphs {
  import opened Options

  /** A point given by latitude and longitude; only compared for equality. */
  datatype Location = Location(lat: real, lon: real)

  datatype Edge = Edge(to: Location, w: nat)

  /** Adjacency lists, keyed by location. */
  type Graph = map<Location, seq<Edge>>

  /** Every edge leads to a location that is itself a key. */
  ghost predicate Closed(g: Graph) {
    forall a, i :: a in g && 0 <= i < |g[a]| ==> g[a][i].to in g
  }

  /** p is a walk from s: each edge leaves the location the previous one
      reached. */
  ghost predicate IsWalk(g: Graph, s: Location, p: seq<Edge>)
    decreases |p|
  {
    p == [] || (s in g && p[0] in g[s] && IsWalk(g, p[0].to, p[1..]))
  }

  /** Where a walk from s ends. */
  function End(s: Location, p: seq<Edge>): Location
    decreases |p|
  {
    if p == [] then s else End(p[0].to, p[1..])
  }

  /** Total weight of a walk. */
  function Cost(p: seq<Edge>): nat {
    if p == [] then 0 else p[0].w + Cost(p[1..])
  }

  ghost predicate WalkTo(g: Graph, s: Location, e: Location, p: seq<Edge>) {
    IsWalk(g, s, p) && End(s, p) == e
  }

  ghost predicate Reachable(g: Graph, s: Location, e: Location) {
    exists p :: WalkTo(g, s, e, p)
  }

  /** d is the least cost of a walk from s to e. */
  ghost predicate IsShortest(g: Graph, s: Location, e: Location, d: nat) {
    (exists p :: WalkTo(g, s, e, p) && Cost(p) == d) &&
    (forall p :: WalkTo(g, s, e, p) ==> d <= Cost(p))
  }

  /** The shortest travel time from s to e, or None when no walk exists. */
  ghost function ShortestDist(g: Graph, s: Location, e: Location): (r: Option<nat>)
    ensures r.None? <==> !Reachable(g, s, e)
    ensures r.Some? ==> IsShortest(g, s, e, r.value)
  {
    if Reachable(g, s, e) then
      var p :| WalkTo(g, s, e, p);
      LeastCostExists(g, s, e, p);
      var d :| IsShortest(g, s, e, d);
      Some(d)
    else None
  }

  /** The travel time used when every needed route exists (0 otherwise). */
  ghost function Travel(g: Graph, a: Location, b: Location): nat {
    match ShortestDist(g, a, b)
    case Some(d) => d
    case None => 0
  }

  /** Among the walks from s to e some walk is cheapest: descend from the
      cost of any walk until no cheaper one exists. */
  lemma {:induction false} LeastCostExists(g: Graph, s: Location, e: Location, p: seq<Edge>)
    requires WalkTo(g, s, e, p)
    ensures exists d :: IsShortest(g, s, e, d)
    decreases Cost(p)
  {
    if forall q :: WalkTo(g, s, e, q) ==> Cost(p) <= Cost(q) {
      assert IsShortest(g, s, e, Cost(p));
    } else {
      var q :| WalkTo(g, s, e, q) && Cost(q) < Cost(p);
      LeastCostExists(g, s, e, q);
    }
  }

  /** The least cost is unique. */
  lemma ShortestUnique(g: Graph, s: Location, e: Location, d1: nat, d2: nat)
    requires IsShortest(g, s, e, d1) && IsShortest(g, s, e, d2)
    ensures d1 == d2
  {
    var p1 :| WalkTo(g, s, e, p1) && Cost(p1) == d1;
    var p2 :| WalkTo(g, s, e, p2) && Cost(p2) == d2;
  }

  /** From a location to itself the shortest travel time is 0: the empty
      walk. */
  lemma ShortestToSelf(g: Graph, s: Location)
    ensures ShortestDist(g, s, s) == Some(0)
  {
    assert WalkTo(g, s, s, []);
    assert IsShortest(g, s, s, 0);
    ShortestUnique(g, s, s, 0, ShortestDist(g, s, s).value);
  }

  /** Extending a walk by one edge out of its end. */
  lemma {:induction false} WalkSnoc(g: Graph, s: Location, p: seq<Edge>, ed: Edge)
    requires IsWalk(g, s, p) && End(s, p) in g && ed in g[End(s, p)]
    ensures IsWalk(g, s, p + [ed])
    ensures End(s, p + [ed]) == ed.to
    ensures Cost(p + [ed]) == Cost(p) + ed.w
    decreases |p|
  {
    if p != [] {
      WalkSnoc(g, p[0].to, p[1..], ed);
      assert (p + [ed])[1..] == p[1..] + [ed];
    }
  }

  /** A walk between two different locations of a closed graph starts and
      ends at keys. */
  lemma {:induction false} WalkEndpointsAreKeys(g: Graph, s: Location, e: Location, p: seq<Edge>)
    requires Closed(g) && WalkTo(g, s, e, p) && s != e
    ensures s in g && e in g
    decreases |p|
  {
    var i :| 0 <= i < |g[s]| && g[s][i] == p[0];
    assert g[s][i].to in g;
    if p[0].to != e {
      WalkEndpointsAreKeys(g, p[0].to, e, p[1..]);
    }
  }

  /** Where a route exists in a closed graph the shortest-path search can
      be run: either both ends coincide or both are keys. */
  lemma ReachableEnds(g: Graph, s: Location, e: Location)
    requires Closed(g) && Reachable(g, s, e)
    ensures s == e || (s in g && e in g)
  {
    if s != e {
      var p :| WalkTo(g, s, e, p);
      WalkEndpointsAreKeys(g, s, e, p);
    }
  }

  /** A walk between different locations is not empty, so when every edge
      out of s is positive the shortest travel time from s to another
      location is positive. */
  lemma LeavingCostsTime(g: Graph, s: Location, e: Location)
    requires s != e && Reachable(g, s, e)
    requires s in g ==> forall i :: 0 <= i < |g[s]| ==> g[s][i].w > 0
    ensures Travel(g, s, e) > 0
  {
    var d := ShortestDist(g, s, e).value;
    var p :| WalkTo(g, s, e, p) && Cost(p) == d;
    var i :| 0 <= i < |g[s]| && g[s][i] == p[0];
  }

  /** An edge out of a followed by a route from where it leads is a route
      from a. */
  lemma ReachCons(g: Graph, a: Location, e: Edge, b: Location)
    requires a in g && e in g[a] && Reachable(g, e.to, b)
    ensures Reachable(g, a, b)
  {
    var q :| WalkTo(g, e.to, b, q);
    assert ([e] + q)[0] == e && ([e] + q)[1..] == q;
    assert WalkTo(g, a, b, [e] + q);
  }

  /** Every location reaches itself by the empty walk. */
  lemma ReachSelf(g: Graph, a: Location)
    ensures Reachable(g, a, a)
  {
    assert WalkTo(g, a, a, []);
  }
}
