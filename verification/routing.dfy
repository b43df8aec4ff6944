/** Single-pair shortest travel time, as the ride computes it for each
    driver: Dijkstra's search from the start location, stopping as soon as
    the end location is taken off the frontier.  The frontier is scanned
    for its least tentative distance instead of being kept in a heap. */
module Routing {
  import opened Options
  import opened Graphs

  /** Every tentative distance is backed by a walk of exactly that cost. */
  ghost predicate Witnessed(g: Graph, s: Location, dist: map<Location, nat>,
                            wit: map<Location, seq<Edge>>) {
    wit.Keys == dist.Keys &&
    forall v :: v in wit ==> WalkTo(g, s, v, wit[v]) && Cost(wit[v]) == dist[v]
  }

  /** Every edge out of a finished location has been relaxed. */
  ghost predicate Relaxed(g: Graph, dist: map<Location, nat>, visited: set<Location>) {
    forall a :: a in visited ==>
      a in g && a in dist &&
      forall i :: 0 <= i < |g[a]| ==>
        g[a][i].to in dist && dist[g[a][i].to] <= dist[a] + g[a][i].w
  }

  /** Finished locations are never further than unfinished ones. */
  ghost predicate Settled(dist: map<Location, nat>, visited: set<Location>) {
    forall a, v :: a in visited && a in dist && v in dist && v !in visited ==> dist[a] <= dist[v]
  }

  /** The unfinished location with the least tentative distance, if any. */
  method PickMin(dist: map<Location, nat>, visited: set<Location>) returns (found: bool, u: Location)
    ensures found ==> u in dist && u !in visited
    ensures found ==> forall v :: v in dist && v !in visited ==> dist[u] <= dist[v]
    ensures !found ==> forall v :: v in dist ==> v in visited
  {
    var todo := dist.Keys - visited;
    found := false;
    u := Location(0.0, 0.0);
    while todo != {}
      invariant todo <= dist.Keys - visited
      invariant found ==> u in dist && u !in visited
      invariant found ==> forall v :: v in dist && v !in visited && v !in todo ==> dist[u] <= dist[v]
      invariant !found ==> forall v :: v in dist && v !in visited ==> v in todo
      decreases |todo|
    {
      var v :| v in todo;
      if !found || dist[v] < dist[u] {
        u := v;
        found := true;
      }
      todo := todo - {v};
    }
  }

  /** Relax every edge out of u: a neighbour's tentative distance drops to
      dist[u] + w when that is smaller, and a neighbour seen for the first
      time gets it. */
  method Relax(g: Graph, s: Location, u: Location, dist0: map<Location, nat>,
               ghost wit0: map<Location, seq<Edge>>)
    returns (dist: map<Location, nat>, ghost wit: map<Location, seq<Edge>>)
    requires Closed(g) && u in g && u in dist0 && Witnessed(g, s, dist0, wit0)
    ensures Witnessed(g, s, dist, wit)
    ensures u in dist && dist[u] == dist0[u]
    ensures forall i :: 0 <= i < |g[u]| ==>
      g[u][i].to in dist && dist[g[u][i].to] <= dist[u] + g[u][i].w
    ensures forall v :: v in dist0 ==> v in dist && dist[v] <= dist0[v]
    ensures forall v :: v in dist ==> v in g || v in dist0
    ensures forall v :: v in dist ==> (v in dist0 && dist[v] == dist0[v]) || dist0[u] <= dist[v]
  {
    dist, wit := dist0, wit0;
    var k := 0;
    assert forall i :: 0 <= i < |g[u]| ==> g[u][i].to in g;
    while k < |g[u]|
      invariant 0 <= k <= |g[u]| && u in g
      invariant forall i :: 0 <= i < |g[u]| ==> g[u][i].to in g
      invariant Witnessed(g, s, dist, wit)
      invariant u in dist && dist[u] == dist0[u]
      invariant forall i :: 0 <= i < k ==>
        g[u][i].to in dist && dist[g[u][i].to] <= dist[u] + g[u][i].w
      invariant forall v :: v in dist0 ==> v in dist && dist[v] <= dist0[v]
      invariant forall v :: v in dist ==> v in g || v in dist0
      invariant forall v :: v in dist ==> (v in dist0 && dist[v] == dist0[v]) || dist0[u] <= dist[v]
    {
      ghost var before := dist;
      dist, wit := RelaxEdge(g, s, u, g[u][k], dist, wit);
      forall i | 0 <= i <= k
        ensures g[u][i].to in dist && dist[g[u][i].to] <= dist[u] + g[u][i].w
      {
        if i < k {
          var t := g[u][i].to;
          assert t in before && before[t] <= before[u] + g[u][i].w;
          assert dist[t] <= before[t];
        }
      }
      k := k + 1;
    }
  }

  /** Relax one edge ed out of u. */
  method RelaxEdge(g: Graph, s: Location, u: Location, ed: Edge, dist0: map<Location, nat>,
                   ghost wit0: map<Location, seq<Edge>>)
    returns (dist: map<Location, nat>, ghost wit: map<Location, seq<Edge>>)
    requires u in g && ed in g[u] && ed.to in g && u in dist0 && Witnessed(g, s, dist0, wit0)
    ensures Witnessed(g, s, dist, wit)
    ensures u in dist && dist[u] == dist0[u]
    ensures ed.to in dist && dist[ed.to] <= dist0[u] + ed.w
    ensures forall v :: v in dist0 ==> v in dist && dist[v] <= dist0[v]
    ensures forall v :: v in dist ==>
      (v in dist0 && dist[v] == dist0[v]) || (v == ed.to && dist[v] == dist0[u] + ed.w)
  {
    dist, wit := dist0, wit0;
    var d := dist[u] + ed.w;
    if ed.to !in dist || d < dist[ed.to] {
      WalkSnoc(g, s, wit[u], ed);
      dist := dist[ed.to := d];
      wit := wit[ed.to := wit[u] + [ed]];
    }
  }

  /** Leaving the finished locations costs at least the least unfinished
      tentative distance. */
  lemma {:induction false} FrontierBound(g: Graph, dist: map<Location, nat>, visited: set<Location>,
                                         dmin: nat, a: Location, q: seq<Edge>)
    requires Relaxed(g, dist, visited)
    requires forall v :: v in dist && v !in visited ==> dmin <= dist[v]
    requires a in visited && IsWalk(g, a, q) && End(a, q) !in visited
    ensures a in dist && dmin <= dist[a] + Cost(q)
    decreases |q|
  {
    var i :| 0 <= i < |g[a]| && g[a][i] == q[0];
    var b := q[0].to;
    assert b in dist && dist[b] <= dist[a] + q[0].w;
    if b in visited {
      FrontierBound(g, dist, visited, dmin, b, q[1..]);
    }
  }

  /** When every location with a tentative distance is finished, no walk
      leaves the finished locations. */
  lemma {:induction false} Enclosed(g: Graph, dist: map<Location, nat>, visited: set<Location>,
                                    a: Location, q: seq<Edge>)
    requires Relaxed(g, dist, visited)
    requires forall v :: v in dist ==> v in visited
    requires a in visited && IsWalk(g, a, q)
    ensures End(a, q) in visited
    decreases |q|
  {
    if q != [] {
      var i :| 0 <= i < |g[a]| && g[a][i] == q[0];
      assert q[0].to in dist;
      Enclosed(g, dist, visited, q[0].to, q[1..]);
    }
  }

  /** The location taken off the frontier is at its shortest distance. */
  lemma TakenIsShortest(g: Graph, s: Location, e: Location, dist: map<Location, nat>,
                        wit: map<Location, seq<Edge>>, visited: set<Location>)
    requires Witnessed(g, s, dist, wit) && Relaxed(g, dist, visited)
    requires s in dist && dist[s] == 0
    requires e in dist && e !in visited
    requires forall v :: v in dist && v !in visited ==> dist[e] <= dist[v]
    ensures ShortestDist(g, s, e) == Some(dist[e])
  {
    assert WalkTo(g, s, e, wit[e]);
    forall p | WalkTo(g, s, e, p)
      ensures dist[e] <= Cost(p)
    {
      if s in visited {
        FrontierBound(g, dist, visited, dist[e], s, p);
      }
    }
    assert IsShortest(g, s, e, dist[e]);
    ShortestUnique(g, s, e, dist[e], ShortestDist(g, s, e).value);
  }

  /** With no unfinished location left and e unfinished, e is unreachable. */
  lemma ExhaustedIsUnreachable(g: Graph, s: Location, e: Location, dist: map<Location, nat>,
                               visited: set<Location>)
    requires Relaxed(g, dist, visited) && s in dist && e !in visited
    requires forall v :: v in dist ==> v in visited
    ensures ShortestDist(g, s, e) == None
  {
    if Reachable(g, s, e) {
      var p :| WalkTo(g, s, e, p);
      Enclosed(g, dist, visited, s, p);
    }
  }

  /** Finishing u, the least unfinished location, and relaxing its edges
      keeps the search invariants. */
  lemma VisitStep(g: Graph, u: Location, dist0: map<Location, nat>, dist: map<Location, nat>,
                  visited: set<Location>)
    requires Relaxed(g, dist0, visited) && Settled(dist0, visited)
    requires u in g && u in dist0 && u !in visited
    requires forall v :: v in dist0 && v !in visited ==> dist0[u] <= dist0[v]
    requires u in dist && dist[u] == dist0[u]
    requires forall i :: 0 <= i < |g[u]| ==>
      g[u][i].to in dist && dist[g[u][i].to] <= dist[u] + g[u][i].w
    requires forall v :: v in dist0 ==> v in dist && dist[v] <= dist0[v]
    requires forall v :: v in dist ==> (v in dist0 && dist[v] == dist0[v]) || dist0[u] <= dist[v]
    ensures forall a :: a in visited + {u} ==> a in dist && dist[a] == dist0[a]
    ensures Relaxed(g, dist, visited + {u}) && Settled(dist, visited + {u})
  {
    forall a | a in visited
      ensures a in dist && dist[a] == dist0[a]
    {
      assert dist0[a] <= dist0[u];
    }
  }

  /** Settling one more location leaves fewer to settle. */
  lemma Shrinks(keys: set<Location>, visited: set<Location>, u: Location)
    requires u in keys && u !in visited
    ensures |keys - (visited + {u})| < |keys - visited|
  {
    assert keys - (visited + {u}) == (keys - visited) - {u};
  }

  /** Settle u, the closest unsettled location: relax its out-edges. */
  method Visit(g: Graph, s: Location, u: Location, dist0: map<Location, nat>,
               ghost wit0: map<Location, seq<Edge>>, ghost visited: set<Location>)
    returns (dist: map<Location, nat>, ghost wit: map<Location, seq<Edge>>)
    requires Closed(g) && u in g && u in dist0 && u !in visited
    requires Witnessed(g, s, dist0, wit0)
    requires Relaxed(g, dist0, visited) && Settled(dist0, visited)
    requires forall v :: v in dist0 && v !in visited ==> dist0[u] <= dist0[v]
    requires s in dist0 && dist0[s] == 0
    ensures Witnessed(g, s, dist, wit)
    ensures Relaxed(g, dist, visited + {u}) && Settled(dist, visited + {u})
    ensures s in dist && dist[s] == 0
    ensures dist.Keys <= g.Keys + dist0.Keys
  {
    dist, wit := Relax(g, s, u, dist0, wit0);
    VisitStep(g, u, dist0, dist, visited);
  }

  /** The shortest travel time from s to e, or None when e cannot be
      reached; s == e answers 0 at once. */
  method ShortestPath(g: Graph, s: Location, e: Location) returns (r: Option<nat>)
    requires Closed(g)
    requires s == e || (s in g && e in g)
    ensures r == ShortestDist(g, s, e)
  {
    var dist := map[s := 0];
    ghost var wit := map[s := []];
    var visited: set<Location> := {};
    ghost var keys := g.Keys + {s};
    while true
      invariant dist.Keys <= keys && visited <= keys
      invariant s in dist && dist[s] == 0
      invariant Witnessed(g, s, dist, wit)
      invariant Relaxed(g, dist, visited) && Settled(dist, visited)
      invariant e !in visited
      decreases |keys - visited|
    {
      var found, u := PickMin(dist, visited);
      if !found {
        ExhaustedIsUnreachable(g, s, e, dist, visited);
        return None;
      }
      if u == e {
        TakenIsShortest(g, s, e, dist, wit, visited);
        return Some(dist[u]);
      }
      assert u in g;
      dist, wit := Visit(g, s, u, dist, wit, visited);
      Shrinks(keys, visited, u);
      visited := visited + {u};
    }
  }
}
