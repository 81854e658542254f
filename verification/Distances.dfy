/** Where the search of a route is defined, and what that means for distances. */
module Distances {
  import opened Sequences
  import opened Roads

  /** No road that can be reached has a negative weight. */
  ghost predicate NonNegativeFrom(net: Network, src: Id)
  {
    forall u, v, w :: Reachable(net, src, u) && Link(net, u, v, w) ==> 0 <= w
  }

  /** Reachable for less than the value that means "not reached". */
  ghost predicate Near(net: Network, src: Id, v: Id)
  {
    exists p, ws :: WalkBetween(net, src, v, p, ws) && Cost(ws) < INT_MAX
  }

  /**
   * Every sum of a distance and a weight that the search forms fits the source's `int`: it expands the
   * near places, each at its distance, and looks at all roads out of them.
   */
  ghost predicate SumsFit(net: Network, src: Id)
  {
    && NonNegativeFrom(net, src)
    && forall u, v, w, d {:trigger IsDistance(net, src, u, d), Link(net, u, v, w)} ::
         IsDistance(net, src, u, d) && d < INT_MAX && Link(net, u, v, w) ==> d + w <= INT_MAX
  }

  lemma WeightsAlongWalk(net: Network, src: Id, p: seq<Id>, ws: seq<int>)
    requires NonNegativeFrom(net, src) && Walk(net, p, ws) && p[0] == src
    ensures forall i :: 0 <= i < |ws| ==> 0 <= ws[i]
    ensures 0 <= Cost(ws)
  {
    forall i | 0 <= i < |ws| ensures 0 <= ws[i] {
      Split(net, p, ws, i);
      assert Reachable(net, src, p[i]);
      assert Link(net, p[i], p[i + 1], ws[i]);
    }
    CostNonNegative(ws);
  }

  /** With weights that are not negative some walk is a shortest one. */
  lemma {:induction false} ShortestExists(net: Network, src: Id, dest: Id, q: seq<Id>, vs: seq<int>)
    returns (p: seq<Id>, ws: seq<int>)
    requires NonNegativeFrom(net, src) && WalkBetween(net, src, dest, q, vs)
    ensures Shortest(net, src, dest, p, ws) && Cost(ws) <= Cost(vs)
    decreases Cost(vs)
  {
    WeightsAlongWalk(net, src, q, vs);
    if Shortest(net, src, dest, q, vs) {
      p, ws := q, vs;
    } else {
      var r, us :| WalkBetween(net, src, dest, r, us) && Cost(us) < Cost(vs);
      WeightsAlongWalk(net, src, r, us);
      p, ws := ShortestExists(net, src, dest, r, us);
    }
  }

  /** A walk that drives a two-way road back and forth `n` times at its end. */
  lemma {:induction false} BackAndForth(net: Network, src: Id, u: Id, v: Id, w: int, q: seq<Id>, vs: seq<int>, n: nat)
    returns (p: seq<Id>, ws: seq<int>)
    requires Symmetric(net.graph) && Link(net, u, v, w) && WalkBetween(net, src, u, q, vs)
    ensures WalkBetween(net, src, u, p, ws) && Cost(ws) == Cost(vs) + Weights(n, w)
  {
    if n == 0 {
      p, ws := q, vs;
    } else {
      p, ws := BackAndForth(net, src, u, v, w, q, vs, n - 1);
      assert Link(net, v, u, w);
      Joined(net, p, ws, [u, v, u], [w, w]);
      CostCons(w, [w]);
      CostCons(w, []);
      assert [w] + [w] == [w, w] && [w] + [] == [w];
      p, ws := p + [u, v, u][1..], ws + [w, w];
    }
  }

  function Weights(n: nat, w: int): int
  {
    if n == 0 then 0 else Weights(n - 1, w) + 2 * w
  }

  lemma {:induction false} WeightsFall(n: nat, w: int)
    requires w < 0
    ensures Weights(n, w) <= -2 * n
  {
    if n == 0 {
    } else {
      WeightsFall(n - 1, w);
    }
  }

  /** A negative two-way road within reach makes a round trip that costs less than nothing. */
  lemma NegativeRoundTrip(net: Network, src: Id, u: Id, v: Id, w: int) returns (p: seq<Id>, ws: seq<int>)
    requires Symmetric(net.graph) && Reachable(net, src, u) && Link(net, u, v, w) && w < 0
    ensures WalkBetween(net, src, src, p, ws) && Cost(ws) < 0
  {
    var q, vs :| WalkBetween(net, src, u, q, vs);
    var n: nat := if Cost(vs) < 0 then 1 else Cost(vs) + 1;
    var spun, us := BackAndForth(net, src, u, v, w, q, vs, n);
    WeightsFall(n, w);
    ReversedWalk(net, src, u, q, vs);
    Joined(net, spun, us, Reversed(q), Reversed(vs));
    p, ws := spun + Reversed(q)[1..], us + Reversed(vs);
  }

  /** It leaves no walk from there the shortest. */
  lemma NegativeRoadUndercuts(net: Network, src: Id, dest: Id, u: Id, v: Id, w: int, p: seq<Id>, ws: seq<int>)
    requires Symmetric(net.graph) && Reachable(net, src, u) && Link(net, u, v, w) && w < 0
    requires WalkBetween(net, src, dest, p, ws)
    ensures !Shortest(net, src, dest, p, ws)
  {
    var r, us := NegativeRoundTrip(net, src, u, v, w);
    Joined(net, r, us, p, ws);
  }

  /**
   * On two-way roads a reachable place has a shortest route exactly if no road within reach has a negative
   * weight, so asking for the latter leaves out no route that the search could be asked for.
   */
  lemma ShortestExistsIff(net: Network, src: Id, dest: Id)
    requires Symmetric(net.graph) && Reachable(net, src, dest)
    ensures (exists p, ws :: Shortest(net, src, dest, p, ws)) <==> NonNegativeFrom(net, src)
  {
    var q, vs :| WalkBetween(net, src, dest, q, vs);
    if NonNegativeFrom(net, src) {
      var p, ws := ShortestExists(net, src, dest, q, vs);
    } else {
      var u, v, w :| Reachable(net, src, u) && Link(net, u, v, w) && w < 0;
      forall p, ws | WalkBetween(net, src, dest, p, ws) ensures !Shortest(net, src, dest, p, ws) {
        NegativeRoadUndercuts(net, src, dest, u, v, w, p, ws);
      }
    }
  }

  /** A walk need not pass a place twice: cutting out the round trip makes it no costlier. */
  lemma {:induction false} Shortcut(net: Network, src: Id, dest: Id, q: seq<Id>, vs: seq<int>)
    returns (p: seq<Id>, ws: seq<int>)
    requires NonNegativeFrom(net, src) && WalkBetween(net, src, dest, q, vs)
    ensures WalkBetween(net, src, dest, p, ws) && Distinct(p) && Cost(ws) <= Cost(vs)
    decreases |q|
  {
    if Distinct(q) {
      p, ws := q, vs;
    } else {
      var i, j :| 0 <= i < j < |q| && q[i] == q[j];
      Split(net, q, vs, j);
      Split(net, q[..j + 1], vs[..j], i);
      WeightsAlongWalk(net, src, q, vs);
      CostNonNegative(vs[..j][i..]);
      assert q[..j + 1][..i + 1] == q[..i + 1];
      Joined(net, q[..i + 1], vs[..j][..i], q[j..], vs[j..]);
      p, ws := Shortcut(net, src, dest, q[..i + 1] + q[j..][1..], vs[..j][..i] + vs[j..]);
    }
  }

  lemma {:induction false} CostWithin(ws: seq<int>, maxWeight: nat)
    requires forall i :: 0 <= i < |ws| ==> ws[i] <= maxWeight
    ensures Cost(ws) <= Weigh(|ws|, maxWeight)
  {
    if ws == [] {
    } else {
      CostWithin(ws[..|ws| - 1], maxWeight);
    }
  }

  /** A reachable place lies within as many maximal weights as there are other real places. */
  lemma CloseByCount(net: Network, src: Id, v: Id, maxWeight: nat)
    requires WeightsWithin(net, maxWeight) && Reachable(net, src, v)
    ensures exists p, ws :: Shortest(net, src, v, p, ws) && Cost(ws) <= Weigh(|RealIds(net.nodes)| - 1, maxWeight)
  {
    var q, vs :| WalkBetween(net, src, v, q, vs);
    var r, us := Shortcut(net, src, v, q, vs);
    EveryStopIsReal(net, r, us);
    DistinctFits(r, RealIds(net.nodes));
    forall i | 0 <= i < |us| ensures us[i] <= maxWeight {
      assert Link(net, r[i], r[i + 1], us[i]);
    }
    CostWithin(us, maxWeight);
    WeighMore(|us|, |RealIds(net.nodes)| - 1, maxWeight);
    var p, ws := ShortestExists(net, src, v, r, us);
  }

  /**
   * If the number of real places times the largest weight is below INT_MAX, then all sums fit from
   * everywhere, and near is the same as reachable.
   */
  lemma FitsByCount(net: Network, src: Id, maxWeight: nat)
    requires WeightsWithin(net, maxWeight) && Weigh(|RealIds(net.nodes)|, maxWeight) < INT_MAX
    ensures SumsFit(net, src)
    ensures forall v :: Near(net, src, v) <==> Reachable(net, src, v)
  {
    var n := |RealIds(net.nodes)|;
    forall u | Reachable(net, src, u)
      ensures Near(net, src, u) && forall d :: IsDistance(net, src, u, d) ==> d + maxWeight < INT_MAX
    {
      CloseByCount(net, src, u, maxWeight);
      var p, ws :| Shortest(net, src, u, p, ws) && Cost(ws) <= Weigh(n - 1, maxWeight);
      EveryStopIsReal(net, p, ws);
      assert src in RealIds(net.nodes);
      assert Weigh(n, maxWeight) == Weigh(n - 1, maxWeight) + maxWeight;
      forall d | IsDistance(net, src, u, d) ensures d == Cost(ws) {
        DistanceIsUnique(net, src, u, d, Cost(ws));
      }
    }
    forall u, v, w, d | IsDistance(net, src, u, d) && d < INT_MAX && Link(net, u, v, w) ensures d + w <= INT_MAX {
      assert Reachable(net, src, u);
    }
  }

  /** Along a shortest route the distance left to its end never grows. */
  lemma LaterIsNearer(net: Network, src: Id, dest: Id, p: seq<Id>, ws: seq<int>, i: nat, j: nat)
    requires Shortest(net, src, dest, p, ws) && NonNegativeFrom(net, src) && i <= j < |p|
    ensures IsDistance(net, p[i], dest, Cost(ws[i..])) && IsDistance(net, p[j], dest, Cost(ws[j..]))
    ensures Cost(ws[j..]) <= Cost(ws[i..])
  {
    PiecesAreShortest(net, src, dest, p, ws, i);
    PiecesAreShortest(net, src, dest, p, ws, j);
    WeightsAlongWalk(net, src, p, ws);
    TailIsCheaper(ws, i, j);
  }

  lemma TailIsCheaper(ws: seq<int>, i: nat, j: nat)
    requires i <= j <= |ws| && forall m :: 0 <= m < |ws| ==> 0 <= ws[m]
    ensures Cost(ws[j..]) <= Cost(ws[i..])
  {
    assert ws[i..] == ws[i..j] + ws[j..];
    CostConcat(ws[i..j], ws[j..]);
    CostNonNegative(ws[i..j]);
  }

  /** Two places joined by one road of weight INT_MAX. */
  function FarNetwork(a: Node, b: Node): Network
  {
    Network(map[a.id := a, b.id := b], map[a.id := [(b.id, INT_MAX)], b.id := [(a.id, INT_MAX)]])
  }

  /** A place at distance INT_MAX is reachable, no sum overflows, and yet it is not near: the search misses it. */
  lemma FarIsMissed(a: Node, b: Node)
    requires a.id != b.id && !a.isGhost && !b.isGhost
    ensures var net := FarNetwork(a, b);
            SumsFit(net, a.id) && Reachable(net, a.id, b.id) && !Near(net, a.id, b.id)
  {
    var net := FarNetwork(a, b);
    forall u, v, w | Link(net, u, v, w) ensures w == INT_MAX && u != v {
    }
    assert Link(net, a.id, b.id, INT_MAX);
    assert WalkBetween(net, a.id, b.id, [a.id, b.id], [INT_MAX]);
    forall p, ws | WalkBetween(net, a.id, b.id, p, ws) ensures INT_MAX <= Cost(ws) {
      FarWalk(net, p, ws);
    }
    forall u, v, w, d | IsDistance(net, a.id, u, d) && d < INT_MAX && Link(net, u, v, w) ensures d + w <= INT_MAX {
      var p, ws :| Shortest(net, a.id, u, p, ws) && Cost(ws) == d;
      FarWalk(net, p, ws);
    }
  }

  /** Walks where every road has weight INT_MAX cost nothing or at least that. */
  lemma {:induction false} FarWalk(net: Network, p: seq<Id>, ws: seq<int>)
    requires Walk(net, p, ws) && forall u, v, w :: Link(net, u, v, w) ==> w == INT_MAX
    ensures if ws == [] then Cost(ws) == 0 else INT_MAX <= Cost(ws)
  {
    if ws == [] {
    } else {
      var m := |ws| - 1;
      Split(net, p, ws, m);
      assert Link(net, p[m], p[m + 1], ws[m]);
      FarWalk(net, p[..m + 1], ws[..m]);
    }
  }
}
