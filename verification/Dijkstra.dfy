/** The shortest-path search: a priority queue with lazy deletion, then the parents read back. */
module Dijkstra {
  import opened Sequences
  import opened Roads
  import opened Distances
  import opened Search

  /** Every real place starts out unreached. */
  method Unreached(net: Network) returns (dist: map<Id, int>)
    ensures dist.Keys == RealIds(net.nodes)
    ensures forall v :: v in dist ==> dist[v] == INT_MAX
  {
    dist := map[];
    var rest: set<Id> := net.nodes.Keys;
    while rest != {}
      invariant rest <= net.nodes.Keys
      invariant forall v :: v in dist <==> v in net.nodes.Keys - rest && !net.nodes[v].isGhost
      invariant forall v :: v in dist ==> dist[v] == INT_MAX
    {
      var id :| id in rest;
      if !net.nodes[id].isGhost {
        dist := dist[id := INT_MAX];
      }
      rest := rest - {id};
    }
  }

  method Top(pq: Queue) returns (e: (int, Id))
    requires pq != multiset{}
    ensures IsTop(pq, e)
    ensures e in pq && forall h :: h in pq ==> e.0 < h.0 || (e.0 == h.0 && e.1 <= h.1)
  {
    ghost var t := TopExists(pq);
    e :| IsTop(pq, e);
  }

  /** Try the `i`-th road out of the place just expanded. */
  method TryRoad(net: Network, node: Id, i: nat, dist0: map<Id, int>, parent0: map<Id, Id>, pq0: Queue,
                 ghost src: Id, ghost settled: seq<Id>)
    returns (dist: map<Id, int>, parent: map<Id, Id>, pq: Queue)
    requires SumsFit(net, src)
    requires settled != [] && Last(settled) == node && i < |Adjacent(net.graph, node)|
    requires Inv(net, src, dist0, parent0, pq0, settled, i)
    requires node in dist0 && SumFits(dist0, node, Adjacent(net.graph, node)[i])
    ensures Inv(net, src, dist, parent, pq, settled, i + 1)
  {
    dist, parent, pq := dist0, parent0, pq0;
    var (next, wt) := Adjacent(net.graph, node)[i];
    if next in net.nodes && net.nodes[next].isGhost {
      RoadSkipped(net, src, dist, parent, pq, settled, i, next, wt);
      return;
    }
    if next in dist && dist[node] + wt < dist[next] {
      var d := dist[node] + wt;
      RoadTaken(net, src, dist, parent, pq, settled, i, next, wt, d);
      dist, parent, pq := dist[next := d], parent[next := node], pq + multiset{(d, next)};
    } else {
      RoadSkipped(net, src, dist, parent, pq, settled, i, next, wt);
    }
  }

  /** Try every road out of the place just expanded. */
  method Relax(net: Network, node: Id, dist0: map<Id, int>, parent0: map<Id, Id>, pq0: Queue,
               ghost src: Id, ghost settled: seq<Id>)
    returns (dist: map<Id, int>, parent: map<Id, Id>, pq: Queue)
    requires SumsFit(net, src)
    requires settled != [] && Last(settled) == node
    requires Inv(net, src, dist0, parent0, pq0, settled, 0)
    ensures Inv(net, src, dist, parent, pq, settled, |Adjacent(net.graph, node)|)
  {
    dist, parent, pq := dist0, parent0, pq0;
    if node in net.graph {
      for i := 0 to |net.graph[node]|
        invariant Inv(net, src, dist, parent, pq, settled, i)
      {
        NoOverflow(net, src, dist, parent, pq, settled, i);
        dist, parent, pq := TryRoad(net, node, i, dist, parent, pq, src, settled);
      }
    }
  }

  /** The main loop: expand the nearest waiting place until none waits. */
  method Explore(net: Network, src: Id, dist0: map<Id, int>)
    returns (dist: map<Id, int>, parent: map<Id, Id>, ghost settled: seq<Id>)
    requires SumsFit(net, src)
    requires Real(net.nodes, src) && dist0.Keys == RealIds(net.nodes)
    requires forall v :: v in dist0 ==> dist0[v] == INT_MAX
    ensures Exhausted(net, src, dist, parent, settled)
    ensures dist.Keys == RealIds(net.nodes)
    ensures forall v :: v in dist ==> if Near(net, src, v) then IsDistance(net, src, v, dist[v]) else dist[v] == INT_MAX
  {
    StartHolds(net, src, dist0);
    dist, parent, settled := dist0[src := 0], map[], [];
    var pq: Queue := multiset{(0, src)};
    ghost var k := 0;
    while pq != multiset{}
      invariant Inv(net, src, dist, parent, pq, settled, k)
      invariant settled != [] ==> k == |Adjacent(net.graph, Last(settled))|
      invariant |settled| <= |RealIds(net.nodes)|
      decreases |RealIds(net.nodes)| - |settled|, |pq|
    {
      ghost var waiting := pq;
      var e := Top(pq);
      var (cost, node) := e;
      pq := pq - multiset{e};

      if cost > dist[node] {
        StaleDropped(net, src, dist, parent, waiting, settled, k, e);
        continue;
      }

      Expanded(net, src, dist, parent, waiting, settled, k, e);
      settled := settled + [node];
      DistinctFits(settled, RealIds(net.nodes));
      dist, parent, pq := Relax(net, node, dist, parent, pq, src, settled);
      k := |Adjacent(net.graph, node)|;
    }
    SourceIsSettled(net, src, dist, parent, settled, k);
    ExhaustedIsExplored(net, src, dist, parent, settled);
  }

  /** Follow the parents back from the destination. */
  method Trace(net: Network, src: Id, dest: Id, parent: map<Id, Id>,
               ghost dist: map<Id, int>, ghost settled: seq<Id>)
    returns (path: seq<Id>, ghost ws: seq<int>)
    requires Exhausted(net, src, dist, parent, settled) && dest in settled
    ensures Shortest(net, src, dest, path, ws) && Distinct(path)
  {
    path, ws := [], [];
    var cur := dest;
    ghost var r: nat :| r < |settled| && settled[r] == dest;
    while cur != src
      invariant Traced(net, dist, settled, dest, path, r, ws)
      invariant cur == settled[r]
      decreases r
    {
      ghost var j, vs := TracedFurther(net, src, dist, parent, settled, dest, path, r, ws);
      path := path + [cur];
      if cur !in parent {
        assert false; // here the source gives up with an empty route
      }
      cur := parent[cur];
      r, ws := j, vs;
    }
    TracedIsShortest(net, src, dist, parent, settled, dest, path, r, ws);
    path := path + [src];
    path := Reversed(path);
  }

  /**
   * Shortest route from `src` to `dest` over real places, empty if there is none below INT_MAX.
   *
   * The ghost results expose what the search knew when it ended: `ws` the weights along the route,
   * `known` the distances and `settled` the places expanded, in that order.
   */
  method ShortestRoute(net: Network, src: Id, dest: Id)
    returns (path: seq<Id>, ghost ws: seq<int>, ghost known: map<Id, int>, ghost settled: seq<Id>)
    requires SumsFit(net, src)
    ensures path == [] <==> !Near(net, src, dest)
    ensures path != [] ==> Shortest(net, src, dest, path, ws) && Distinct(path)
    ensures Real(net.nodes, src) && Real(net.nodes, dest) ==> Explored(net, src, known, settled)
  {
    path, ws, settled := [], [], [];
    var dist := Unreached(net);
    known := dist;
    if src !in dist || dest !in dist {
      NoRouteWithoutPlaces(net, src, dest);
      return;
    }
    var parent: map<Id, Id>;
    dist, parent, settled := Explore(net, src, dist);
    known := dist;
    ExhaustedIsExplored(net, src, dist, parent, settled);
    if dest !in dist || dist[dest] == INT_MAX {
      return;
    }
    path, ws := Trace(net, src, dest, parent, dist, settled);
  }
}
