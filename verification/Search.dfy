/**
 * The state of the shortest-path search and what every step of it keeps.
 *
 * The loop itself is the method Dijkstra.Explore; the lemmas here are its steps: discarding a
 * stale queue entry, expanding a place, relaxing one road, and reading the result.
 */
module Search {
  import opened Sequences
  import opened Roads
  import opened Distances

  type Queue = multiset<(int, Id)>

  /** Order of `std::pair<int, int>`: cost first, then place. */
  predicate Before(a: (int, Id), b: (int, Id))
  {
    a.0 < b.0 || (a.0 == b.0 && a.1 <= b.1)
  }

  /** The entry a min-heap of pairs has at its top. */
  predicate IsTop(q: Queue, e: (int, Id))
  {
    e in q && forall f :: f in q ==> Before(e, f)
  }

  lemma {:induction false} TopExists(q: Queue) returns (e: (int, Id))
    requires q != multiset{}
    ensures IsTop(q, e)
    decreases |q|
  {
    var f :| f in q;
    var rest := q - multiset{f};
    e := f;
    if rest != multiset{} {
      var t := TopExists(rest);
      if !Before(f, t) {
        e := t;
      }
    }
    forall h | h in q ensures Before(e, h) {
      assert h == f || h in rest;
    }
  }

  // The variables of the search are the tentative distances `dist`, the `parent`s and the `queue`; the
  // ghost `settled` lists the places expanded so far in the order of their expansion.

  ghost predicate Known(net: Network, src: Id, dist: map<Id, int>, settled: seq<Id>)
  {
    && dist.Keys == RealIds(net.nodes)
    && src in dist && dist[src] == 0
    && (forall v :: v in dist ==> 0 <= dist[v] <= INT_MAX)
    && Distinct(settled)
    && (forall i :: 0 <= i < |settled| ==> settled[i] in dist)
  }

  /** The distance is the true one, and below the value that means "not reached". */
  ghost predicate Exact(net: Network, src: Id, dist: map<Id, int>, u: Id)
  {
    u in dist && dist[u] < INT_MAX && IsDistance(net, src, u, dist[u])
  }

  /** Places are expanded at their final distance. */
  ghost predicate Final(net: Network, src: Id, dist: map<Id, int>, settled: seq<Id>)
  {
    forall i {:trigger Exact(net, src, dist, settled[i])} :: 0 <= i < |settled| ==> Exact(net, src, dist, settled[i])
  }

  ghost predicate NoFarther(dist: map<Id, int>, u: Id, v: Id)
  {
    u in dist && v in dist && dist[u] <= dist[v]
  }

  /** Places are expanded nearest first. */
  ghost predicate Ordered(dist: map<Id, int>, settled: seq<Id>)
  {
    forall i, j {:trigger NoFarther(dist, settled[i], settled[j])} ::
      0 <= i <= j < |settled| ==> NoFarther(dist, settled[i], settled[j])
  }

  /** The cost at which the latest expansion happened. */
  ghost function Horizon(dist: map<Id, int>, settled: seq<Id>): int
  {
    if settled != [] && Last(settled) in dist then dist[Last(settled)] else 0
  }

  /** The parent of `v` is an expanded place one road before it. */
  ghost predicate Child(net: Network, dist: map<Id, int>, parent: map<Id, Id>, settled: seq<Id>, v: Id)
    requires v in parent
  {
    && v in dist && parent[v] in dist && parent[v] in settled
    && Link(net, parent[v], v, dist[v] - dist[parent[v]])
  }

  /** The parent of the `j`-th expanded place was expanded before it. */
  ghost predicate YoungerThanParent(parent: map<Id, Id>, settled: seq<Id>, j: int)
    requires 0 <= j < |settled|
  {
    settled[j] in parent ==> parent[settled[j]] in settled[..j]
  }

  /** Parents carry the tentative distance and are expanded before their children. */
  ghost predicate Rooted(net: Network, src: Id, dist: map<Id, int>, parent: map<Id, Id>, settled: seq<Id>)
  {
    && (forall v :: v in parent ==> v in dist)
    && (forall v :: v in dist ==> (v in parent <==> v != src && dist[v] != INT_MAX))
    && (forall v {:trigger Child(net, dist, parent, settled, v)} ::
          v in parent ==> Child(net, dist, parent, settled, v))
    && (forall j {:trigger YoungerThanParent(parent, settled, j)} ::
          0 <= j < |settled| ==> YoungerThanParent(parent, settled, j))
  }

  /** A reached but unexpanded place waits with its distance; an expanded one waits no longer. */
  ghost predicate Waiting(dist: map<Id, int>, queue: Queue, settled: seq<Id>, v: Id)
    requires v in dist
  {
    if v in settled then queue[(dist[v], v)] == 0
    else dist[v] != INT_MAX ==> queue[(dist[v], v)] == 1
  }

  ghost predicate Queued(dist: map<Id, int>, queue: Queue, settled: seq<Id>)
  {
    && (forall e :: e in queue ==> e.1 in dist && dist[e.1] <= e.0 && Horizon(dist, settled) <= e.0 && e.0 < INT_MAX)
    && (forall v {:trigger Waiting(dist, queue, settled, v)} :: v in dist ==> Waiting(dist, queue, settled, v))
  }

  ghost predicate RelaxedUpTo(net: Network, dist: map<Id, int>, u: Id, k: int)
  {
    u in dist && forall e :: 0 <= e < k && e < |Adjacent(net.graph, u)| ==>
      var (v, w) := Adjacent(net.graph, u)[e];
      v in dist ==> dist[v] <= dist[u] + w
  }

  /** Roads out of the `i`-th expanded place are relaxed: all of them, or the first `k` if it is the latest. */
  ghost predicate RelaxedOut(net: Network, dist: map<Id, int>, settled: seq<Id>, i: int, k: int)
    requires 0 <= i < |settled|
  {
    RelaxedUpTo(net, dist, settled[i], if i == |settled| - 1 then k else |Adjacent(net.graph, settled[i])|)
  }

  ghost predicate Relaxed(net: Network, dist: map<Id, int>, settled: seq<Id>, k: int)
  {
    forall i {:trigger RelaxedOut(net, dist, settled, i, k)} ::
      0 <= i < |settled| ==> RelaxedOut(net, dist, settled, i, k)
  }

  /** What every step of the search keeps; `k` counts the relaxed roads of the latest expanded place. */
  ghost predicate Inv(net: Network, src: Id,
                      dist: map<Id, int>, parent: map<Id, Id>, queue: Queue, settled: seq<Id>, k: int)
  {
    && Known(net, src, dist, settled)
    && Final(net, src, dist, settled)
    && Ordered(dist, settled)
    && Rooted(net, src, dist, parent, settled)
    && Queued(dist, queue, settled)
    && Relaxed(net, dist, settled, k)
  }

  lemma StartHolds(net: Network, src: Id, dist: map<Id, int>)
    requires Real(net.nodes, src) && dist.Keys == RealIds(net.nodes)
    requires forall v :: v in dist ==> dist[v] == INT_MAX
    ensures Inv(net, src, dist[src := 0], map[], multiset{(0, src)}, [], 0)
  {
    assert dist[src := 0].Keys == dist.Keys;
  }

  /** The queue entry is out of date: dropping it loses nothing. */
  lemma StaleDropped(net: Network, src: Id,
                     dist: map<Id, int>, parent: map<Id, Id>, queue: Queue, settled: seq<Id>, k: int, e: (int, Id))
    requires Inv(net, src, dist, parent, queue, settled, k)
    requires e in queue && e.1 in dist && e.0 > dist[e.1]
    ensures Inv(net, src, dist, parent, queue - multiset{e}, settled, k)
  {
    var rest := queue - multiset{e};
    assert forall h :: h in rest ==> h in queue;
    forall v | v in dist ensures Waiting(dist, rest, settled, v) {
      assert Waiting(dist, queue, settled, v);
      assert (dist[v], v) != e;
    }
  }

  /** The queue entry is current: its place is expanded for the first time, no nearer than any before it. */
  lemma Expanded(net: Network, src: Id,
                 dist: map<Id, int>, parent: map<Id, Id>, queue: Queue, settled: seq<Id>, k: int, e: (int, Id))
    requires NonNegativeFrom(net, src) && Inv(net, src, dist, parent, queue, settled, k) && IsTop(queue, e)
    requires settled == [] || k >= |Adjacent(net.graph, Last(settled))|
    requires e.1 in dist && e.0 <= dist[e.1]
    ensures e.0 == dist[e.1] && e.1 !in settled && Exact(net, src, dist, e.1)
    ensures Inv(net, src, dist, parent, queue - multiset{e}, settled + [e.1], 0)
  {
    TopIsCurrent(dist, queue, settled, e);
    TopIsNearest(dist, queue, settled, e);
    AllRelaxed(net, dist, settled, k);
    TopIsExact(net, src, dist, parent, settled, e.1);
    ExpandedOrder(dist, queue, settled, e);
    ExpandedDistances(net, src, dist, settled, e.1);
    ExpandedQueue(dist, queue, settled, e);
    ExpandedTree(net, src, dist, parent, settled, e.1);
    ExpandedRelaxed(net, dist, settled, k, e.1);
  }

  /** No unexpanded place is nearer than `bound`. */
  ghost predicate Beyond(dist: map<Id, int>, settled: seq<Id>, bound: int)
  {
    forall v :: v in dist && v !in settled ==> bound <= dist[v]
  }

  lemma TopIsNearest(dist: map<Id, int>, queue: Queue, settled: seq<Id>, e: (int, Id))
    requires Queued(dist, queue, settled) && IsTop(queue, e) && e.0 < INT_MAX
    ensures Beyond(dist, settled, e.0)
  {
    forall v | v in dist && v !in settled ensures e.0 <= dist[v] {
      assert Waiting(dist, queue, settled, v);
      if dist[v] != INT_MAX {
        assert Before(e, (dist[v], v));
      }
    }
  }

  /** All roads out of all expanded places are relaxed. */
  ghost predicate Closed(net: Network, dist: map<Id, int>, settled: seq<Id>)
  {
    forall i, v, w {:trigger Link(net, settled[i], v, w)} :: 0 <= i < |settled| && Link(net, settled[i], v, w) ==>
      settled[i] in dist && (v in dist ==> dist[v] <= dist[settled[i]] + w)
  }

  lemma AllRelaxed(net: Network, dist: map<Id, int>, settled: seq<Id>, k: int)
    requires Relaxed(net, dist, settled, k)
    requires settled == [] || k >= |Adjacent(net.graph, Last(settled))|
    ensures Closed(net, dist, settled)
  {
    forall i, v, w | 0 <= i < |settled| && Link(net, settled[i], v, w)
      ensures settled[i] in dist && (v in dist ==> dist[v] <= dist[settled[i]] + w)
    {
      assert RelaxedOut(net, dist, settled, i, k);
      var e :| 0 <= e < |Adjacent(net.graph, settled[i])| && Adjacent(net.graph, settled[i])[e] == (v, w);
    }
  }

  /** A walk costs at least the distance found for its end, or at least what the unexpanded places cost. */
  lemma {:induction false} NoWalkIsCheaper(net: Network, src: Id, dist: map<Id, int>, settled: seq<Id>, bound: int,
                                           p: seq<Id>, ws: seq<int>)
    requires NonNegativeFrom(net, src) && Known(net, src, dist, settled)
    requires Closed(net, dist, settled) && Beyond(dist, settled, bound)
    requires Walk(net, p, ws) && p[0] == src
    ensures bound <= Cost(ws) || (Last(p) in settled && dist[Last(p)] <= Cost(ws))
    decreases |ws|
  {
    EveryStopIsReal(net, p, ws);
    if ws == [] {
      assert Last(p) == src;
    } else {
      var m := |ws| - 1;
      Split(net, p, ws, m);
      NoWalkIsCheaper(net, src, dist, settled, bound, p[..m + 1], ws[..m]);
      assert Reachable(net, src, p[m]);
      assert Link(net, p[m], p[m + 1], ws[m]);
      if Cost(ws[..m]) < bound {
        var i :| 0 <= i < |settled| && settled[i] == p[m];
        assert Link(net, settled[i], p[m + 1], ws[m]);
      }
    }
  }

  /** When a place comes to the top of the queue, no walk to it is cheaper than its distance. */
  lemma TopIsExact(net: Network, src: Id, dist: map<Id, int>, parent: map<Id, Id>, settled: seq<Id>, u: Id)
    requires NonNegativeFrom(net, src) && Known(net, src, dist, settled) && Final(net, src, dist, settled)
    requires Rooted(net, src, dist, parent, settled) && Closed(net, dist, settled)
    requires u in dist && u !in settled && dist[u] < INT_MAX && Beyond(dist, settled, dist[u])
    ensures Exact(net, src, dist, u)
  {
    var p, ws := WalkFound(net, src, dist, parent, settled, u);
    forall q, vs | WalkBetween(net, src, u, q, vs) ensures Cost(ws) <= Cost(vs) {
      NoWalkIsCheaper(net, src, dist, settled, dist[u], q, vs);
    }
    assert Shortest(net, src, u, p, ws);
  }

  /** A place found has a walk of the distance found: the one to its parent and one road more. */
  lemma WalkFound(net: Network, src: Id, dist: map<Id, int>, parent: map<Id, Id>, settled: seq<Id>, u: Id)
    returns (p: seq<Id>, ws: seq<int>)
    requires Known(net, src, dist, settled) && Final(net, src, dist, settled)
    requires Rooted(net, src, dist, parent, settled) && u in dist && dist[u] < INT_MAX
    ensures WalkBetween(net, src, u, p, ws) && Cost(ws) == dist[u]
  {
    if u == src {
      p, ws := [src], [];
    } else {
      assert Child(net, dist, parent, settled, u);
      var t := parent[u];
      var i :| 0 <= i < |settled| && settled[i] == t;
      assert Exact(net, src, dist, settled[i]);
      p, ws :| Shortest(net, src, t, p, ws) && Cost(ws) == dist[t];
      var w := dist[u] - dist[t];
      Joined(net, p, ws, [t, u], [w]);
      CostCons(w, []);
      assert [w] + [] == [w] && [t, u][1..] == [u];
      p, ws := p + [u], ws + [w];
    }
  }

  lemma TopIsCurrent(dist: map<Id, int>, queue: Queue, settled: seq<Id>, e: (int, Id))
    requires Queued(dist, queue, settled) && e in queue && e.1 in dist && e.0 <= dist[e.1]
    ensures e.0 == dist[e.1] < INT_MAX && e.1 !in settled
  {
    assert Waiting(dist, queue, settled, e.1);
    assert e == (dist[e.1], e.1);
  }

  lemma ExpandedDistances(net: Network, src: Id, dist: map<Id, int>, settled: seq<Id>, u: Id)
    requires Known(net, src, dist, settled) && Final(net, src, dist, settled)
    requires Exact(net, src, dist, u) && u !in settled
    ensures Known(net, src, dist, settled + [u]) && Final(net, src, dist, settled + [u])
  {
    DistinctSnoc(settled, u);
    var longer := settled + [u];
    forall i | 0 <= i < |longer| ensures Exact(net, src, dist, longer[i]) {
      if i < |settled| {
        assert Exact(net, src, dist, settled[i]);
      }
    }
  }

  lemma ExpandedRelaxed(net: Network, dist: map<Id, int>, settled: seq<Id>, k: int, u: Id)
    requires Relaxed(net, dist, settled, k) && u in dist
    requires settled == [] || k >= |Adjacent(net.graph, Last(settled))|
    ensures Relaxed(net, dist, settled + [u], 0)
  {
    forall i | 0 <= i < |settled| ensures RelaxedOut(net, dist, settled + [u], i, 0) {
      assert RelaxedOut(net, dist, settled, i, k);
    }
  }

  lemma ExpandedOrder(dist: map<Id, int>, queue: Queue, settled: seq<Id>, e: (int, Id))
    requires Ordered(dist, settled) && Queued(dist, queue, settled) && e in queue && e.0 == dist[e.1]
    ensures Ordered(dist, settled + [e.1])
  {
    var m := |settled|;
    var longer := settled + [e.1];
    forall i, j | 0 <= i <= j < |longer| ensures NoFarther(dist, longer[i], longer[j]) {
      if i < m {
        assert NoFarther(dist, settled[i], settled[m - 1]);
        assert j < m ==> NoFarther(dist, settled[i], settled[j]);
      }
    }
  }

  lemma ExpandedQueue(dist: map<Id, int>, queue: Queue, settled: seq<Id>, e: (int, Id))
    requires Queued(dist, queue, settled) && IsTop(queue, e) && e.1 !in settled && e.0 == dist[e.1]
    ensures Queued(dist, queue - multiset{e}, settled + [e.1])
  {
    var rest := queue - multiset{e};
    assert forall h :: h in rest ==> h in queue;
    forall v | v in dist ensures Waiting(dist, rest, settled + [e.1], v) {
      assert Waiting(dist, queue, settled, v);
      assert v in settled + [e.1] <==> v in settled || v == e.1;
      if v == e.1 {
        assert (dist[v], v) == e;
      }
    }
  }

  lemma ExpandedTree(net: Network, src: Id, dist: map<Id, int>, parent: map<Id, Id>, settled: seq<Id>, u: Id)
    requires Rooted(net, src, dist, parent, settled)
    ensures Rooted(net, src, dist, parent, settled + [u])
  {
    var longer := settled + [u];
    forall v | v in parent ensures Child(net, dist, parent, longer, v) {
      assert Child(net, dist, parent, settled, v);
    }
    forall j | 0 <= j < |longer| ensures YoungerThanParent(parent, longer, j) {
      if j < |settled| {
        assert YoungerThanParent(parent, settled, j);
        assert longer[..j] == settled[..j];
      } else if u in parent {
        assert Child(net, dist, parent, settled, u);
        assert longer[..j] == settled;
      }
    }
  }

  /** One road out of the latest expanded place is looked at; it offers no better way. */
  lemma RoadSkipped(net: Network, src: Id,
                    dist: map<Id, int>, parent: map<Id, Id>, queue: Queue, settled: seq<Id>, k: nat, v: Id, w: int)
    requires Inv(net, src, dist, parent, queue, settled, k) && settled != []
    requires k < |Adjacent(net.graph, Last(settled))| && Adjacent(net.graph, Last(settled))[k] == (v, w)
    requires v in dist ==> dist[v] <= dist[Last(settled)] + w
    ensures Inv(net, src, dist, parent, queue, settled, k + 1)
  {
    var next := k + 1;
    forall i | 0 <= i < |settled| ensures RelaxedOut(net, dist, settled, i, next) {
      assert RelaxedOut(net, dist, settled, i, k);
    }
  }

  /** It does offer a better way, which only an unexpanded place can get. */
  lemma RoadTaken(net: Network, src: Id,
                  dist: map<Id, int>, parent: map<Id, Id>, queue: Queue, settled: seq<Id>,
                  k: nat, v: Id, w: int, d: int)
    requires NonNegativeFrom(net, src) && Inv(net, src, dist, parent, queue, settled, k) && settled != []
    requires k < |Adjacent(net.graph, Last(settled))| && Adjacent(net.graph, Last(settled))[k] == (v, w)
    requires v in dist && d == dist[Last(settled)] + w < dist[v]
    ensures Inv(net, src, dist[v := d], parent[v := Last(settled)], queue + multiset{(d, v)}, settled, k + 1)
  {
    RoadIsUp(net, src, dist, settled, k, v, w);
    TakenIsUnsettled(dist, settled, v, d);
    TakenDistances(net, src, dist, settled, v, d);
    TakenQueue(dist, queue, settled, v, d);
    TakenTree(net, src, dist, parent, settled, v, d);
    TakenRelaxed(net, dist, settled, k, v, w, d);
  }

  /** A road out of the latest expanded place leads no nearer. */
  lemma RoadIsUp(net: Network, src: Id, dist: map<Id, int>, settled: seq<Id>, k: nat, v: Id, w: int)
    requires NonNegativeFrom(net, src) && Known(net, src, dist, settled) && Final(net, src, dist, settled)
    requires settled != [] && v in dist
    requires k < |Adjacent(net.graph, Last(settled))| && Adjacent(net.graph, Last(settled))[k] == (v, w)
    ensures Link(net, Last(settled), v, w) && 0 <= w
    ensures Exact(net, src, dist, Last(settled)) && 0 <= dist[Last(settled)]
  {
    var u := settled[|settled| - 1];
    assert Exact(net, src, dist, settled[|settled| - 1]);
    assert (v, w) in Adjacent(net.graph, u);
    assert Link(net, u, v, w);
    assert Reachable(net, src, u);
  }

  /** The sum that the search forms for a road fits the source's `int`. */
  ghost predicate SumFits(dist: map<Id, int>, u: Id, road: (Id, int))
    requires u in dist
  {
    road.0 in dist ==> 0 <= dist[u] + road.1 <= INT_MAX
  }

  lemma NoOverflow(net: Network, src: Id,
                   dist: map<Id, int>, parent: map<Id, Id>, queue: Queue, settled: seq<Id>, k: nat)
    requires SumsFit(net, src) && Inv(net, src, dist, parent, queue, settled, k)
    requires settled != [] && k < |Adjacent(net.graph, Last(settled))|
    ensures Last(settled) in dist && SumFits(dist, Last(settled), Adjacent(net.graph, Last(settled))[k])
  {
    var (v, w) := Adjacent(net.graph, Last(settled))[k];
    if v in dist {
      RoadIsUp(net, src, dist, settled, k, v, w);
    }
  }

  lemma TakenIsUnsettled(dist: map<Id, int>, settled: seq<Id>, v: Id, d: int)
    requires Ordered(dist, settled) && settled != [] && v in dist && Last(settled) in dist
    requires dist[Last(settled)] <= d < dist[v]
    ensures v !in settled
  {
    forall i | 0 <= i < |settled| ensures settled[i] != v {
      assert NoFarther(dist, settled[i], settled[|settled| - 1]);
    }
  }

  lemma TakenDistances(net: Network, src: Id, dist: map<Id, int>, settled: seq<Id>, v: Id, d: int)
    requires Known(net, src, dist, settled) && Final(net, src, dist, settled) && Ordered(dist, settled)
    requires v in dist && v !in settled && 0 <= d < dist[v]
    ensures Known(net, src, dist[v := d], settled) && Final(net, src, dist[v := d], settled)
    ensures Ordered(dist[v := d], settled)
  {
    var nearer := dist[v := d];
    assert nearer.Keys == dist.Keys;
    forall i | 0 <= i < |settled| ensures settled[i] != v && Exact(net, src, nearer, settled[i]) {
      assert settled[i] in settled;
      assert Exact(net, src, dist, settled[i]);
    }
    forall i, j | 0 <= i <= j < |settled| ensures NoFarther(nearer, settled[i], settled[j]) {
      assert NoFarther(dist, settled[i], settled[j]);
    }
  }

  lemma TakenQueue(dist: map<Id, int>, queue: Queue, settled: seq<Id>, v: Id, d: int)
    requires Queued(dist, queue, settled) && v in dist && v !in settled && settled != [] && Last(settled) in dist
    requires dist[Last(settled)] <= d < dist[v] && d < INT_MAX
    ensures Queued(dist[v := d], queue + multiset{(d, v)}, settled)
  {
    var nearer, more := dist[v := d], queue + multiset{(d, v)};
    assert (d, v) !in queue;
    assert Last(settled) in settled && Horizon(nearer, settled) == Horizon(dist, settled);
    forall x | x in nearer ensures Waiting(nearer, more, settled, x) {
      assert Waiting(dist, queue, settled, x);
      if x != v {
        assert (nearer[x], x) != (d, v);
      }
    }
    forall e | e in more
      ensures e.1 in nearer && nearer[e.1] <= e.0 && Horizon(nearer, settled) <= e.0 && e.0 < INT_MAX
    {
      assert e == (d, v) || e in queue;
    }
  }

  lemma TakenTree(net: Network, src: Id, dist: map<Id, int>, parent: map<Id, Id>, settled: seq<Id>, v: Id, d: int)
    requires Rooted(net, src, dist, parent, settled) && src in dist && dist[src] == 0
    requires v in dist && v !in settled && settled != [] && Last(settled) in dist
    requires 0 <= d < dist[v] && d < INT_MAX && Link(net, Last(settled), v, d - dist[Last(settled)])
    ensures Rooted(net, src, dist[v := d], parent[v := Last(settled)], settled)
  {
    var u := Last(settled);
    var nearer, adopted := dist[v := d], parent[v := u];
    assert u in settled && v != src;
    forall x | x in adopted ensures Child(net, nearer, adopted, settled, x) {
      if x != v {
        assert Child(net, dist, parent, settled, x);
      }
    }
    forall j | 0 <= j < |settled| ensures YoungerThanParent(adopted, settled, j) {
      assert YoungerThanParent(parent, settled, j);
      assert settled[j] in settled;
    }
  }

  lemma TakenRelaxed(net: Network, dist: map<Id, int>, settled: seq<Id>, k: nat, v: Id, w: int, d: int)
    requires Relaxed(net, dist, settled, k) && settled != [] && v in dist && v !in settled
    requires Last(settled) in dist && d == dist[Last(settled)] + w < dist[v]
    requires k < |Adjacent(net.graph, Last(settled))| && Adjacent(net.graph, Last(settled))[k] == (v, w)
    ensures Relaxed(net, dist[v := d], settled, k + 1)
  {
    var nearer, next := dist[v := d], k + 1;
    forall i | 0 <= i < |settled| ensures RelaxedOut(net, nearer, settled, i, next) {
      assert RelaxedOut(net, dist, settled, i, k);
      assert settled[i] in settled && settled[i] != v;
    }
  }

  /** What an exhausted search knows: exactly the near places, expanded once each, nearest first. */
  ghost predicate Explored(net: Network, src: Id, dist: map<Id, int>, settled: seq<Id>)
  {
    && dist.Keys == RealIds(net.nodes)
    && Distinct(settled)
    && (forall i :: 0 <= i < |settled| ==> settled[i] in dist)
    && (forall i, j :: 0 <= i < j < |settled| ==> dist[settled[i]] <= dist[settled[j]])
    && (forall v :: v in dist ==> (v in settled <==> Near(net, src, v)))
    && (forall v :: v in dist ==> 0 <= dist[v] <= INT_MAX && (dist[v] == INT_MAX <==> !Near(net, src, v)))
    && (forall v :: v in dist && v in settled ==> IsDistance(net, src, v, dist[v]))
  }

  ghost predicate Exhausted(net: Network, src: Id, dist: map<Id, int>, parent: map<Id, Id>, settled: seq<Id>)
  {
    && NonNegativeFrom(net, src)
    && settled != []
    && Inv(net, src, dist, parent, multiset{}, settled, |Adjacent(net.graph, Last(settled))|)
  }

  /** The search does not end before the source itself was expanded. */
  lemma SourceIsSettled(net: Network, src: Id, dist: map<Id, int>, parent: map<Id, Id>, settled: seq<Id>, k: int)
    requires Inv(net, src, dist, parent, multiset{}, settled, k)
    ensures settled != []
  {
    assert Waiting(dist, multiset{}, settled, src);
  }

  lemma ReachedIsSettled(net: Network, src: Id, dist: map<Id, int>, parent: map<Id, Id>, settled: seq<Id>, v: Id)
    requires Exhausted(net, src, dist, parent, settled) && v in dist
    ensures v in settled <==> dist[v] != INT_MAX
    ensures v in settled ==> Exact(net, src, dist, v)
  {
    assert Waiting(dist, multiset{}, settled, v);
    if v in settled {
      var i :| 0 <= i < |settled| && settled[i] == v;
      assert Exact(net, src, dist, settled[i]);
    }
  }

  /** At the end a place that is not expanded has no walk below INT_MAX, and an expanded one has. */
  lemma SettledIsNear(net: Network, src: Id, dist: map<Id, int>, parent: map<Id, Id>, settled: seq<Id>, v: Id)
    requires Exhausted(net, src, dist, parent, settled) && v in dist
    ensures v in settled <==> Near(net, src, v)
  {
    ReachedIsSettled(net, src, dist, parent, settled, v);
    if v in settled {
      var p, ws :| Shortest(net, src, v, p, ws) && Cost(ws) == dist[v];
    } else if Near(net, src, v) {
      var p, ws :| WalkBetween(net, src, v, p, ws) && Cost(ws) < INT_MAX;
      forall x | x in dist && x !in settled ensures INT_MAX <= dist[x] {
        ReachedIsSettled(net, src, dist, parent, settled, x);
      }
      AllRelaxed(net, dist, settled, |Adjacent(net.graph, Last(settled))|);
      NoWalkIsCheaper(net, src, dist, settled, INT_MAX, p, ws);
    }
  }

  /** Every expanded place but the source has a parent, which was expanded before it. */
  lemma ParentIndex(net: Network, src: Id, dist: map<Id, int>, parent: map<Id, Id>, settled: seq<Id>,
                    i: nat) returns (j: nat)
    requires Exhausted(net, src, dist, parent, settled) && i < |settled| && settled[i] != src
    ensures settled[i] in parent && j < i && settled[j] == parent[settled[i]]
    ensures Link(net, settled[j], settled[i], dist[settled[i]] - dist[settled[j]])
  {
    var v := settled[i];
    ReachedIsSettled(net, src, dist, parent, settled, v);
    assert Child(net, dist, parent, settled, v);
    assert YoungerThanParent(parent, settled, i);
    j :| 0 <= j < i && settled[..i][j] == parent[v];
  }

  lemma ExhaustedIsExplored(net: Network, src: Id, dist: map<Id, int>, parent: map<Id, Id>, settled: seq<Id>)
    requires Exhausted(net, src, dist, parent, settled)
    ensures Explored(net, src, dist, settled)
  {
    forall i, j | 0 <= i < j < |settled| ensures dist[settled[i]] <= dist[settled[j]] {
      assert NoFarther(dist, settled[i], settled[j]);
    }
    forall v | v in dist
      ensures v in settled <==> Near(net, src, v)
      ensures dist[v] == INT_MAX <==> !Near(net, src, v)
      ensures v in settled ==> IsDistance(net, src, v, dist[v])
    {
      ReachedIsSettled(net, src, dist, parent, settled, v);
      SettledIsNear(net, src, dist, parent, settled, v);
    }
  }

  /**
   * The part of the route collected so far, read backwards from the destination: a walk from the
   * `r`-th expanded place, all of it expanded later than that place.
   */
  ghost predicate Traced(net: Network, dist: map<Id, int>, settled: seq<Id>, dest: Id, path: seq<Id>, r: nat,
                         ws: seq<int>)
  {
    && r < |settled|
    && settled[r] in dist && dest in dist
    && WalkBetween(net, settled[r], dest, [settled[r]] + Reversed(path), ws)
    && Cost(ws) == dist[dest] - dist[settled[r]]
    && Distinct(path)
    && (forall i :: 0 <= i <= r ==> settled[i] !in path)
  }

  lemma TracedFurther(net: Network, src: Id, dist: map<Id, int>, parent: map<Id, Id>,
                      settled: seq<Id>, dest: Id, path: seq<Id>, r: nat, ws: seq<int>)
    returns (j: nat, vs: seq<int>)
    requires Exhausted(net, src, dist, parent, settled)
    requires Traced(net, dist, settled, dest, path, r, ws) && settled[r] != src
    ensures settled[r] in parent && j < r && parent[settled[r]] == settled[j]
    ensures Traced(net, dist, settled, dest, path + [settled[r]], j, vs)
  {
    j := ParentIndex(net, src, dist, parent, settled, r);
    var u, v := settled[j], settled[r];
    var w := dist[v] - dist[u];
    vs := [w] + ws;
    ReversedSnoc(path, v);
    DistinctSnoc(path, v);
    Prepended(net, u, v, w, Reversed(path), ws);
    forall i | 0 <= i <= j ensures settled[i] !in path + [v] {
    }
  }

  lemma Prepended(net: Network, u: Id, v: Id, w: int, rest: seq<Id>, ws: seq<int>)
    requires Link(net, u, v, w) && Walk(net, [v] + rest, ws)
    ensures WalkBetween(net, u, Last([v] + rest), [u] + ([v] + rest), [w] + ws)
    ensures Cost([w] + ws) == w + Cost(ws)
  {
    CostCons(w, ws);
    Joined(net, [u, v], [w], [v] + rest, ws);
    assert [u, v] + ([v] + rest)[1..] == [u] + ([v] + rest);
  }

  /** A fully traced route is a shortest one and passes no place twice. */
  lemma TracedIsShortest(net: Network, src: Id, dist: map<Id, int>, parent: map<Id, Id>,
                         settled: seq<Id>, dest: Id, path: seq<Id>, r: nat, ws: seq<int>)
    requires Exhausted(net, src, dist, parent, settled) && dest in settled
    requires Traced(net, dist, settled, dest, path, r, ws) && settled[r] == src
    ensures Shortest(net, src, dest, Reversed(path + [src]), ws)
    ensures Distinct(Reversed(path + [src]))
  {
    ReversedSnoc(path, src);
    DistinctSnoc(path, src);
    DistinctReversed(path + [src]);
    ReachedIsSettled(net, src, dist, parent, settled, dest);
    var q, vs :| Shortest(net, src, dest, q, vs) && Cost(vs) == dist[dest];
  }

  lemma NoRouteWithoutPlaces(net: Network, src: Id, dest: Id)
    requires !Real(net.nodes, src) || !Real(net.nodes, dest)
    ensures !Reachable(net, src, dest) && !Near(net, src, dest)
  {
    forall p, ws | WalkBetween(net, src, dest, p, ws) ensures false {
      EveryStopIsReal(net, p, ws);
    }
  }
}
