/** Places, roads, walks and shortest walks. */
module Roads {
  import opened Sequences

  /** Largest value of the source's 32-bit `int`; the search uses it as "not reached". */
  const INT_MAX: int := 0x7fff_ffff

  /** The source's `int`. */
  type Int32 = x: int | -0x8000_0000 <= x <= 0x7fff_ffff

  /** Identifiers of places. */
  type Id = Int32

  /** A coordinate in decimal notation: sign, whole part and the digits behind the point. */
  datatype Decimal = Decimal(negative: bool, whole: nat, fraction: string)

  datatype Node = Node(id: Id, name: string, capacity: int, x: Decimal, y: Decimal, isGhost: bool)

  type Nodes = map<Id, Node>

  type Graph = map<Id, seq<(Id, int)>>

  datatype Network = Network(nodes: Nodes, graph: Graph)

  /** A known place that is not a ghost; ghosts only bend the drawn line. */
  predicate Real(nodes: Nodes, v: Id)
  {
    v in nodes && !nodes[v].isGhost
  }

  ghost function RealIds(nodes: Nodes): (ids: set<Id>)
    ensures forall v :: v in ids <==> Real(nodes, v)
  {
    set v | v in nodes && !nodes[v].isGhost
  }

  function Adjacent(graph: Graph, u: Id): seq<(Id, int)>
  {
    if u in graph then graph[u] else []
  }

  /** A road of weight `w` from `u` to `v`, both of them real places. */
  ghost predicate Link(net: Network, u: Id, v: Id, w: int)
  {
    Real(net.nodes, u) && Real(net.nodes, v) && (v, w) in Adjacent(net.graph, u)
  }

  ghost predicate WeightsWithin(net: Network, maxWeight: nat)
  {
    forall u, v, w :: Link(net, u, v, w) ==> 0 <= w <= maxWeight
  }

  /** `p` lists the places passed, `ws` the weight of the road taken out of each but the last. */
  ghost predicate Walk(net: Network, p: seq<Id>, ws: seq<int>)
  {
    && |p| == |ws| + 1
    && Real(net.nodes, p[0])
    && forall i :: 0 <= i < |ws| ==> Link(net, p[i], p[i + 1], ws[i])
  }

  ghost predicate WalkBetween(net: Network, src: Id, dest: Id, p: seq<Id>, ws: seq<int>)
  {
    Walk(net, p, ws) && p[0] == src && Last(p) == dest
  }

  ghost predicate Reachable(net: Network, src: Id, dest: Id)
  {
    exists p, ws :: WalkBetween(net, src, dest, p, ws)
  }

  function Cost(ws: seq<int>): int
  {
    if ws == [] then 0 else Cost(ws[..|ws| - 1]) + Last(ws)
  }

  ghost predicate Shortest(net: Network, src: Id, dest: Id, p: seq<Id>, ws: seq<int>)
  {
    && WalkBetween(net, src, dest, p, ws)
    && forall q, vs :: WalkBetween(net, src, dest, q, vs) ==> Cost(ws) <= Cost(vs)
  }

  ghost predicate IsDistance(net: Network, src: Id, dest: Id, d: int)
  {
    exists p, ws :: Shortest(net, src, dest, p, ws) && Cost(ws) == d
  }

  /** Cost of `n` roads of weight `w` each. */
  function Weigh(n: nat, w: nat): nat
  {
    if n == 0 then 0 else Weigh(n - 1, w) + w
  }

  lemma {:induction false} WeighIsProduct(n: nat, w: nat)
    ensures Weigh(n, w) == n * w
  {
    if n == 0 {
    } else {
      WeighIsProduct(n - 1, w);
    }
  }

  lemma {:induction false} WeighMore(m: nat, n: nat, w: nat)
    requires m <= n
    ensures Weigh(m, w) <= Weigh(n, w)
  {
    if m == n {
    } else {
      WeighMore(m, n - 1, w);
    }
  }

  lemma {:induction false} CostConcat(a: seq<int>, b: seq<int>)
    ensures Cost(a + b) == Cost(a) + Cost(b)
  {
    if b == [] {
      assert a + b == a;
    } else {
      CostConcat(a, b[..|b| - 1]);
      assert (a + b)[..|a + b| - 1] == a + b[..|b| - 1];
    }
  }

  lemma CostCons(w: int, ws: seq<int>)
    ensures Cost([w] + ws) == w + Cost(ws)
  {
    CostConcat([w], ws);
    assert [w][..0] == [];
    assert Cost([w]) == w;
  }

  lemma {:induction false} CostReversed(ws: seq<int>)
    ensures Cost(Reversed(ws)) == Cost(ws)
  {
    if ws == [] {
    } else {
      CostReversed(ws[1..]);
      CostConcat(Reversed(ws[1..]), [ws[0]]);
      CostCons(ws[0], []);
      CostCons(ws[0], ws[1..]);
      assert ws == [ws[0]] + ws[1..];
      assert [ws[0]] + [] == [ws[0]];
    }
  }

  lemma {:induction false} CostNonNegative(ws: seq<int>)
    requires forall i :: 0 <= i < |ws| ==> 0 <= ws[i]
    ensures 0 <= Cost(ws)
  {
    if ws == [] {
    } else {
      CostNonNegative(ws[..|ws| - 1]);
    }
  }

  lemma EveryStopIsReal(net: Network, p: seq<Id>, ws: seq<int>)
    requires Walk(net, p, ws)
    ensures forall i :: 0 <= i < |p| ==> Real(net.nodes, p[i])
  {
    forall i | 0 <= i < |p| ensures Real(net.nodes, p[i]) {
      if i > 0 {
        assert Link(net, p[i - 1], p[i - 1 + 1], ws[i - 1]);
      }
    }
  }

  /** Two walks that meet make one walk. */
  lemma Joined(net: Network, p: seq<Id>, ws: seq<int>, q: seq<Id>, vs: seq<int>)
    requires Walk(net, p, ws) && Walk(net, q, vs) && Last(p) == q[0]
    ensures WalkBetween(net, p[0], Last(q), p + q[1..], ws + vs)
    ensures Cost(ws + vs) == Cost(ws) + Cost(vs)
  {
    CostConcat(ws, vs);
    var r := p + q[1..];
    forall i | 0 <= i < |ws + vs| ensures Link(net, r[i], r[i + 1], (ws + vs)[i]) {
      if i >= |ws| {
        assert Link(net, q[i - |ws|], q[i - |ws| + 1], vs[i - |ws|]);
        assert r[i] == q[i - |ws|];
      }
    }
  }

  lemma Split(net: Network, p: seq<Id>, ws: seq<int>, k: nat)
    requires Walk(net, p, ws) && k < |p|
    ensures WalkBetween(net, p[0], p[k], p[..k + 1], ws[..k])
    ensures WalkBetween(net, p[k], Last(p), p[k..], ws[k..])
    ensures Cost(ws) == Cost(ws[..k]) + Cost(ws[k..])
  {
    EveryStopIsReal(net, p, ws);
    CostConcat(ws[..k], ws[k..]);
    assert ws == ws[..k] + ws[k..];
    forall i | 0 <= i < |ws[k..]| ensures Link(net, p[k..][i], p[k..][i + 1], ws[k..][i]) {
      assert Link(net, p[k + i], p[k + i + 1], ws[k + i]);
    }
  }

  /** Cutting a shortest route anywhere leaves two shortest routes. */
  lemma PiecesAreShortest(net: Network, src: Id, dest: Id, p: seq<Id>, ws: seq<int>, k: nat)
    requires Shortest(net, src, dest, p, ws) && k < |p|
    ensures Shortest(net, src, p[k], p[..k + 1], ws[..k])
    ensures Shortest(net, p[k], dest, p[k..], ws[k..])
  {
    Split(net, p, ws, k);
    forall q, vs | WalkBetween(net, src, p[k], q, vs) ensures Cost(ws[..k]) <= Cost(vs) {
      Joined(net, q, vs, p[k..], ws[k..]);
    }
    forall q, vs | WalkBetween(net, p[k], dest, q, vs) ensures Cost(ws[k..]) <= Cost(vs) {
      Joined(net, p[..k + 1], ws[..k], q, vs);
    }
  }

  lemma DistanceIsUnique(net: Network, src: Id, dest: Id, d: int, e: int)
    requires IsDistance(net, src, dest, d) && IsDistance(net, src, dest, e)
    ensures d == e
  {
  }

  /** Every road can be driven in both directions at the same weight. */
  ghost predicate Symmetric(graph: Graph)
  {
    forall u: Id, v: Id, w: int :: (v, w) in Adjacent(graph, u) ==> (u, w) in Adjacent(graph, v)
  }

  lemma ReversedWalk(net: Network, src: Id, dest: Id, p: seq<Id>, ws: seq<int>)
    requires WalkBetween(net, src, dest, p, ws) && Symmetric(net.graph)
    ensures WalkBetween(net, dest, src, Reversed(p), Reversed(ws))
    ensures Cost(Reversed(ws)) == Cost(ws)
  {
    EveryStopIsReal(net, p, ws);
    CostReversed(ws);
    var q, vs := Reversed(p), Reversed(ws);
    forall i | 0 <= i < |vs| ensures Link(net, q[i], q[i + 1], vs[i]) {
      var k := |ws| - 1 - i;
      assert Link(net, p[k], p[k + 1], ws[k]);
    }
  }

  /** On a two-way network the way back is the way out reversed, at the same cost. */
  lemma WayBackIsShortest(net: Network, src: Id, dest: Id, p: seq<Id>, ws: seq<int>)
    requires Shortest(net, src, dest, p, ws) && Symmetric(net.graph)
    ensures Shortest(net, dest, src, Reversed(p), Reversed(ws))
    ensures Cost(Reversed(ws)) == Cost(ws)
  {
    ReversedWalk(net, src, dest, p, ws);
    forall q, vs | WalkBetween(net, dest, src, q, vs) ensures Cost(Reversed(ws)) <= Cost(vs) {
      ReversedWalk(net, dest, src, q, vs);
    }
  }
}
