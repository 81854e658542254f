/** The handlers of the web server that change or route over the shared parking system. */
module Server {
  import opened Sequences
  import opened Roads
  import opened Distances
  import opened Display
  import opened Ledger
  import opened Storage
  import opened Runs
  import opened Restart
  import opened Parking

  datatype RouteReply =
    | InvalidHours
    | InvalidNames
    | NoRoute
    | NoParking
    | Parked(display: seq<Id>, fallback: bool, place: Id)

  /** One point of the path in a reply. */
  datatype Point = Point(x: Decimal, y: Decimal, isGhost: bool)

  datatype UpdateReply = MissingParameter | NegativeCapacity | NodeNotFound | IsGhostNode | Success

  /** The route up to and including the first stop at `place`. */
  function TrimmedAt(path: seq<Id>, place: Id): seq<Id>
  {
    if path == [] then []
    else if path[0] == place then [place]
    else [path[0]] + TrimmedAt(path[1..], place)
  }

  /** What a route request is answered in a given state. */
  function Answer(lot: Lot, table: Table, e: Event): RouteReply
    requires e.Route?
  {
    if !ValidHours(e.startH, e.endH) then InvalidHours
    else if e.src == -1 || e.dest == -1 then InvalidNames
    else if e.path == [] then NoRoute
    else
      match Granted(lot, e)
      case None => NoParking
      case Some(p) =>
        var fallback := !Available(lot, e.dest, e.startH, e.endH);
        Parked(Drawn(table, if fallback && p != e.dest then TrimmedAt(e.path, p) else e.path), fallback, p)
  }

  /** The outcome of the search as both handlers and runs see it. */
  ghost predicate Searched(net: Network, src: Id, dest: Id, path: seq<Id>, ws: seq<int>)
  {
    && (path == [] <==> !Near(net, src, dest))
    && (path != [] ==> Shortest(net, src, dest, path, ws) && Distinct(path))
  }

  /** One turn of the trimming loop. */
  lemma TrimTurn(trimmed: seq<Id>, path: seq<Id>, i: nat, place: Id)
    requires i < |path|
    ensures path[i] == place ==> trimmed + TrimmedAt(path[i..], place) == trimmed + [path[i]]
    ensures path[i] != place ==>
      trimmed + TrimmedAt(path[i..], place) == trimmed + [path[i]] + TrimmedAt(path[i + 1..], place)
  {
    assert path[i..][1..] == path[i + 1..];
    Regroup(trimmed, [path[i]], TrimmedAt(path[i + 1..], place));
  }

  method TrimAt(path: seq<Id>, place: Id) returns (trimmed: seq<Id>)
    ensures trimmed == TrimmedAt(path, place)
  {
    trimmed := [];
    for i := 0 to |path|
      invariant TrimmedAt(path, place) == trimmed + TrimmedAt(path[i..], place)
    {
      TrimTurn(trimmed, path, i, place);
      trimmed := trimmed + [path[i]];
      if path[i] == place {
        return;
      }
    }
    assert trimmed + [] == trimmed;
  }

  /** One point for each place drawn, all of them known. */
  predicate Rendered(nodes: Nodes, display: seq<Id>, points: seq<Point>)
  {
    && |points| == |display|
    && forall i :: 0 <= i < |points| ==>
      && display[i] in nodes
      && var n := nodes[display[i]]; points[i] == Point(n.x, n.y, n.isGhost)
  }

  /** The points of the path in the reply. */
  method Render(sys: SmartParking, display: seq<Id>) returns (points: seq<Point>)
    requires forall i :: 0 <= i < |display| ==> display[i] in sys.nodes
    ensures Rendered(sys.nodes, display, points)
    ensures |points| == |display|
    ensures forall i :: 0 <= i < |points| ==>
      && points[i].x == sys.nodes[display[i]].x && points[i].y == sys.nodes[display[i]].y
      && points[i].isGhost == sys.nodes[display[i]].isGhost
  {
    points := [];
    for i := 0 to |display|
      invariant |points| == i
      invariant forall j :: 0 <= j < i ==> var n := sys.nodes[display[j]]; points[j] == Point(n.x, n.y, n.isGhost)
    {
      var n := sys.nodes[display[i]];
      points := points + [Point(n.x, n.y, n.isGhost)];
    }
  }

  /** Where the search is defined: a route is looked for only if the hours are valid and both names known. */
  ghost predicate Servable(net: Network, r: Request)
  {
    r.RouteRequest? && ValidHours(r.startH, r.endH) && r.src != -1 && r.dest != -1 ==> SumsFit(net, r.src)
  }

  /** The route handler, from parsed parameters on; -1 stands for an unknown name. */
  method HandleRoute(sys: SmartParking, src: Id, dest: Id, startH: int, endH: int)
    returns (reply: RouteReply, points: seq<Point>, ghost path: seq<Id>, ghost ws: seq<int>)
    requires Servable(sys.Net(), RouteRequest(src, dest, startH, endH)) && HoldsKnown(sys.nodes, sys.visualPaths)
    modifies sys`slots
    ensures ValidHours(startH, endH) && src != -1 && dest != -1 ==> Searched(sys.Net(), src, dest, path, ws)
    ensures reply == Answer(old(sys.State()), sys.visualPaths, Event.Route(src, dest, startH, endH, path))
    ensures sys.State() == Apply(old(sys.State()), Event.Route(src, dest, startH, endH, path))
    ensures reply.Parked? ==> Rendered(sys.nodes, reply.display, points)
  {
    points, path, ws := [], [], [];
    if startH < 0 || endH > HOURS || startH >= endH {
      return InvalidHours, points, path, ws;
    }
    if src == -1 || dest == -1 {
      return InvalidNames, points, path, ws;
    }
    var realPath;
    realPath, ws := sys.Dijkstra(src, dest, sys.road);
    path := realPath;
    if realPath == [] {
      return NoRoute, points, path, ws;
    }
    var visualPath := sys.BuildVisualRoute(realPath);
    var parkingNode, fallback := FindParking(sys, dest, realPath, startH, endH);
    if parkingNode == -1 {
      return NoParking, points, path, ws;
    }
    sys.ReserveSlot(parkingNode, startH, endH);
    var displayPath := visualPath;
    if fallback && parkingNode != dest {
      var trimmedReal := TrimAt(realPath, parkingNode);
      displayPath := sys.BuildVisualRoute(trimmedReal);
    }
    TrimmedIsKnown(Network(sys.nodes, sys.road), sys.visualPaths, realPath, ws, parkingNode);
    points := Render(sys, displayPath);
    reply := Parked(displayPath, fallback, parkingNode);
  }

  /** The destination if it can be booked, else the last stop that can. */
  method FindParking(sys: SmartParking, dest: Id, realPath: seq<Id>, startH: int, endH: int)
    returns (place: Id, fallback: bool)
    ensures place == ParkingNode(sys.State(), dest, realPath, startH, endH)
    ensures fallback <==> !Available(sys.State(), dest, startH, endH)
    ensures place != -1 ==>
      Available(sys.State(), place, startH, endH) && (if fallback then place in realPath else place == dest)
  {
    fallback := false;
    var free := sys.AvailableAtTime(dest, startH, endH);
    if free {
      place := dest;
    } else {
      fallback := true;
      place := sys.FallbackParking(realPath, startH, endH);
    }
  }

  /** Both the full and the trimmed route are drawn over known places only. */
  lemma TrimmedIsKnown(net: Network, table: Table, path: seq<Id>, ws: seq<int>, place: Id)
    requires Walk(net, path, ws) && HoldsKnown(net.nodes, table)
    ensures forall i :: 0 <= i < |Drawn(table, path)| ==> Drawn(table, path)[i] in net.nodes
    ensures var d := Drawn(table, TrimmedAt(path, place)); forall i :: 0 <= i < |d| ==> d[i] in net.nodes
  {
    EveryStopIsReal(net, path, ws);
    TrimmedStops(path, place);
    DrawnIsKnown(net.nodes, table, path);
    DrawnIsKnown(net.nodes, table, TrimmedAt(path, place));
  }

  lemma {:induction false} TrimmedStops(path: seq<Id>, place: Id)
    ensures TrimmedAt(path, place) <= path
  {
    if path == [] || path[0] == place {
    } else {
      TrimmedStops(path[1..], place);
    }
  }

  /** What an update request with both parameters is answered in a given state. */
  function UpdateAnswer(lot: Lot, e: Event): UpdateReply
    requires e.Update?
  {
    if e.newCap < 0 then NegativeCapacity
    else if e.id !in lot.nodes then NodeNotFound
    else if lot.nodes[e.id].isGhost then IsGhostNode
    else Success
  }

  /** The update handler, from parsed parameters on. */
  method HandleUpdate(sys: SmartParking, id: Option<Id>, cap: Option<Int32>) returns (reply: UpdateReply)
    modifies sys`nodes, sys`slots, sys`nodesFile
    ensures reply == MissingParameter <==> id == None || cap == None
    ensures id.Some? && cap.Some? ==>
      var e := Event.Update(id.value, cap.value);
      && reply == UpdateAnswer(old(sys.State()), e)
      && sys.State() == Apply(old(sys.State()), e)
      && (reply == Success <==> AcceptedUpdate(old(sys.State()), e))
    ensures id.Some? && cap.Some? ==>
      && (reply == NegativeCapacity <==> cap.value < 0)
      && (reply == NodeNotFound <==> 0 <= cap.value && id.value !in old(sys.nodes))
      && (reply == IsGhostNode <==>
            0 <= cap.value && id.value in old(sys.nodes) && old(sys.nodes)[id.value].isGhost)
    ensures reply != Success ==> sys.State() == old(sys.State()) && sys.nodesFile == old(sys.nodesFile)
    ensures reply == Success ==> id.Some? && cap.Some? && id.value in old(sys.nodes)
    ensures reply == Success ==>
      && sys.nodes == old(sys.nodes)[id.value := old(sys.nodes)[id.value].(capacity := cap.value)]
      && Updated(old(sys.slots), sys.slots, id.value, old(sys.nodes)[id.value].capacity, cap.value)
      && sys.nodesFile == SaveText(sys.round, sys.nodes)
  {
    if id == None || cap == None {
      return MissingParameter;
    }
    if cap.value < 0 {
      return NegativeCapacity;
    }
    if id.value !in sys.nodes {
      return NodeNotFound;
    }
    if sys.nodes[id.value].isGhost {
      return IsGhostNode;
    }
    UpdateTakesEffect(sys.State(), Event.Update(id.value, cap.value));
    sys.UpdateCapacity(id.value, cap.value);
    return Success;
  }

  datatype Request =
    | RouteRequest(src: Id, dest: Id, startH: int, endH: int)
    | UpdateRequest(id: Id, cap: Int32)

  datatype Reply = ToRoute(route: RouteReply, points: seq<Point>) | ToUpdate(update: UpdateReply)

  /** The event a request became: the same parameters, and for a route the route found. */
  ghost predicate Became(net: Network, r: Request, e: Event)
  {
    match r
    case RouteRequest(src, dest, startH, endH) =>
      && e.Route? && e.src == src && e.dest == dest && e.startH == startH && e.endH == endH
      && (ValidHours(startH, endH) && src != -1 && dest != -1 ==> exists ws :: Searched(net, src, dest, e.path, ws))
    case UpdateRequest(id, cap) => e == Event.Update(id, cap)
  }

  /** The reply that an event gets in the state it finds. */
  predicate Replied(lot: Lot, table: Table, e: Event, reply: Reply)
  {
    match e
    case Route(_, _, _, _, _) =>
      && reply.ToRoute?
      && reply.route == Answer(lot, table, e)
      && (reply.route.Parked? ==> Rendered(lot.nodes, reply.route.display, reply.points))
    case Update(_, _) => reply == ToUpdate(UpdateAnswer(lot, e))
  }

  /** One request, whichever it is. */
  method ServeOne(sys: SmartParking, r: Request) returns (reply: Reply, ghost e: Event)
    requires Servable(sys.Net(), r) && HoldsKnown(sys.nodes, sys.visualPaths)
    modifies sys`nodes, sys`slots, sys`nodesFile
    ensures Became(old(sys.Net()), r, e)
    ensures Replied(old(sys.State()), sys.visualPaths, e, reply)
    ensures sys.State() == Apply(old(sys.State()), e)
    ensures sys.nodesFile
         == if AcceptedUpdate(old(sys.State()), e) then SaveText(sys.round, sys.nodes) else old(sys.nodesFile)
  {
    match r {
      case RouteRequest(src, dest, startH, endH) =>
        ghost var path, ws;
        var answer, points;
        answer, points, path, ws := HandleRoute(sys, src, dest, startH, endH);
        reply := ToRoute(answer, points);
        e := Event.Route(src, dest, startH, endH, path);
      case UpdateRequest(id, cap) =>
        var answer := HandleUpdate(sys, Some(id), Some(cap));
        reply := ToUpdate(answer);
        e := Event.Update(id, cap);
    }
  }

  /** A whole run as its client sees it: the `i`-th reply is the one due in the state before it. */
  ghost predicate Served(lot: Lot, table: Table, net: Network, requests: seq<Request>, events: seq<Event>,
                         replies: seq<Reply>)
  {
    && |events| == |replies| == |requests|
    && forall i :: 0 <= i < |requests| ==> ServedAt(lot, table, net, requests, events, replies, i)
  }

  ghost predicate ServedAt(lot: Lot, table: Table, net: Network, requests: seq<Request>, events: seq<Event>,
                           replies: seq<Reply>, i: nat)
    requires i < |requests| && i < |events| && i < |replies|
  {
    Became(net, requests[i], events[i]) && Replied(Run(lot, events[..i]), table, events[i], replies[i])
  }

  lemma ServedFurther(lot: Lot, table: Table, net: Network, requests: seq<Request>, events: seq<Event>,
                      replies: seq<Reply>, r: Request, e: Event, reply: Reply)
    requires Served(lot, table, net, requests, events, replies)
    requires Became(net, r, e) && Replied(Run(lot, events), table, e, reply)
    ensures Served(lot, table, net, requests + [r], events + [e], replies + [reply])
    ensures Run(lot, events + [e]) == Apply(Run(lot, events), e)
  {
    var longer := events + [e];
    forall i | 0 <= i < |longer|
      ensures ServedAt(lot, table, net, requests + [r], longer, replies + [reply], i)
    {
      if i < |events| {
        assert ServedAt(lot, table, net, requests, events, replies, i);
        assert longer[..i] == events[..i];
      } else {
        assert longer[..i] == events;
      }
    }
  }

  /** Requests served one after the other form a run of the ledger, each answered in the state it finds. */
  method Serve(sys: SmartParking, requests: seq<Request>) returns (replies: seq<Reply>, ghost events: seq<Event>)
    requires forall i :: 0 <= i < |requests| ==> Servable(sys.Net(), requests[i])
    requires HoldsKnown(sys.nodes, sys.visualPaths)
    modifies sys`nodes, sys`slots, sys`nodesFile
    ensures Served(old(sys.State()), sys.visualPaths, old(sys.Net()), requests, events, replies)
    ensures sys.State() == Run(old(sys.State()), events)
    ensures sys.nodesFile == FileAfter(sys.round, old(sys.State()), old(sys.nodesFile), events)
  {
    ghost var lot, net, file := sys.State(), sys.Net(), sys.nodesFile;
    replies, events := [], [];
    for i := 0 to |requests|
      invariant Served(lot, sys.visualPaths, net, requests[..i], events, replies)
      invariant sys.State() == Run(lot, events)
      invariant sys.nodesFile == FileAfter(sys.round, lot, file, events)
    {
      RunKeepsAlike(net, lot, events);
      ServableAlike(net, sys.Net(), requests[i]);
      ghost var now, e := sys.Net(), *;
      var reply;
      reply, e := ServeOne(sys, requests[i]);
      BecameAlike(now, net, requests[i], e);
      ServedFurther(lot, sys.visualPaths, net, requests[..i], events, replies, requests[i], e, reply);
      assert (events + [e])[..|events|] == events;
      assert requests[..i + 1] == requests[..i] + [requests[i]];
      replies, events := replies + [reply], events + [e];
    }
    assert requests[..|requests|] == requests;
  }

  /** The search sees only ids, ghost flags and roads. */
  ghost predicate Alike(a: Network, b: Network)
  {
    a.graph == b.graph && forall v :: Real(a.nodes, v) <==> Real(b.nodes, v)
  }

  lemma LinksAlike(a: Network, b: Network)
    requires Alike(a, b)
    ensures forall u, v, w :: Link(a, u, v, w) <==> Link(b, u, v, w)
    ensures forall p, ws :: Walk(a, p, ws) <==> Walk(b, p, ws)
  {
    forall p, ws ensures Walk(a, p, ws) <==> Walk(b, p, ws) {
      assert forall i :: 0 <= i < |ws| && i + 1 < |p| ==>
        (Link(a, p[i], p[i + 1], ws[i]) <==> Link(b, p[i], p[i + 1], ws[i]));
    }
  }

  lemma DistancesAlike(a: Network, b: Network, src: Id)
    requires Alike(a, b)
    ensures forall v, d :: IsDistance(a, src, v, d) <==> IsDistance(b, src, v, d)
    ensures forall v :: Reachable(a, src, v) <==> Reachable(b, src, v)
  {
    LinksAlike(a, b);
    assert forall v, p, ws :: WalkBetween(a, src, v, p, ws) <==> WalkBetween(b, src, v, p, ws);
    assert forall v, p, ws :: Shortest(a, src, v, p, ws) <==> Shortest(b, src, v, p, ws);
  }

  lemma ServableAlike(a: Network, b: Network, r: Request)
    requires Alike(a, b) && Servable(a, r)
    ensures Servable(b, r)
  {
    if r.RouteRequest? && ValidHours(r.startH, r.endH) && r.src != -1 && r.dest != -1 {
      LinksAlike(a, b);
      DistancesAlike(a, b, r.src);
    }
  }

  /** After a run the search sees what it saw before, and the table still holds known places. */
  lemma RunKeepsAlike(net: Network, lot: Lot, events: seq<Event>)
    requires net.nodes == lot.nodes
    ensures Alike(net, Network(Run(lot, events).nodes, net.graph))
    ensures Run(lot, events).nodes.Keys == lot.nodes.Keys
  {
    RunKeepsPlaces(lot, events);
  }

  lemma SearchedAlike(a: Network, b: Network, src: Id, dest: Id, path: seq<Id>, ws: seq<int>)
    requires Alike(a, b)
    ensures Searched(a, src, dest, path, ws) <==> Searched(b, src, dest, path, ws)
  {
    LinksAlike(a, b);
    assert forall p, vs :: WalkBetween(a, src, dest, p, vs) <==> WalkBetween(b, src, dest, p, vs);
  }

  lemma BecameAlike(a: Network, b: Network, r: Request, e: Event)
    requires Alike(a, b) && Became(a, r, e)
    ensures Became(b, r, e)
  {
    if r.RouteRequest? && ValidHours(r.startH, r.endH) && r.src != -1 && r.dest != -1 {
      var ws :| Searched(a, r.src, r.dest, e.path, ws);
      SearchedAlike(a, b, r.src, r.dest, e.path, ws);
    }
  }

  lemma {:induction false} TrimmedIsPrefix(path: seq<Id>, k: nat)
    requires k < |path| && path[k] !in path[..k]
    ensures TrimmedAt(path, path[k]) == path[..k + 1]
  {
    if k > 0 {
      assert path[0] == path[..k][0];
      assert path[1..][..k - 1] == path[1..k];
      forall x | x in path[1..k] ensures x in path[..k] {
      }
      TrimmedIsPrefix(path[1..], k - 1);
      assert path[1..][..k] == path[1..k + 1];
    } else {
      assert path[..1] == [path[0]];
    }
  }

  /** No bookable place of the route is nearer to the destination than `place`. */
  ghost predicate Nearest(net: Network, lot: Lot, e: Event, place: Id)
    requires e.Route?
  {
    forall q, d, f {:trigger IsDistance(net, q, e.dest, d), IsDistance(net, place, e.dest, f)} ::
      q in e.path && Available(lot, q, e.startH, e.endH)
      && IsDistance(net, q, e.dest, d) && IsDistance(net, place, e.dest, f)
      ==> f <= d
  }

  lemma LastIsNearest(net: Network, lot: Lot, e: Event, ws: seq<int>, k: nat)
    requires e.Route? && Shortest(net, e.src, e.dest, e.path, ws) && NonNegativeFrom(net, e.src) && k < |e.path|
    requires forall j :: k < j < |e.path| ==> !Available(lot, e.path[j], e.startH, e.endH)
    ensures Nearest(net, lot, e, e.path[k])
  {
    forall q, d, f | q in e.path && Available(lot, q, e.startH, e.endH)
        && IsDistance(net, q, e.dest, d) && IsDistance(net, e.path[k], e.dest, f)
      ensures f <= d
    {
      var j :| 0 <= j < |e.path| && e.path[j] == q;
      LaterIsNearer(net, e.src, e.dest, e.path, ws, j, k);
      DistanceIsUnique(net, q, e.dest, d, Cost(ws[j..]));
      DistanceIsUnique(net, e.path[k], e.dest, f, Cost(ws[k..]));
    }
  }

  /** The place granted is the last bookable one of the route, also when it is the destination. */
  lemma GrantedIsLast(net: Network, lot: Lot, table: Table, e: Event, ws: seq<int>) returns (k: nat)
    requires e.Route? && Answer(lot, table, e).Parked? && Shortest(net, e.src, e.dest, e.path, ws) && Distinct(e.path)
    ensures var r := Answer(lot, table, e);
            && k < |e.path| && e.path[k] == r.place && Available(lot, r.place, e.startH, e.endH)
            && (r.fallback <==> r.place != e.dest)
            && r.display == Drawn(table, e.path[..k + 1])
    ensures forall j :: k < j < |e.path| ==> !Available(lot, e.path[j], e.startH, e.endH)
  {
    var i := LastAvailableFinds(lot, e.path, e.startH, e.endH);
    assert Last(e.path) == e.dest;
    k := i;
    if Answer(lot, table, e).fallback {
      TrimmedIsPrefix(e.path, k);
    } else {
      assert e.path[..k + 1] == e.path;
    }
  }

  /**
   * A grant end to end: parking is at a bookable place of the route, nearest of those to the destination
   * and other than it exactly on a fallback; the route to it is a shortest one; its drawing is the
   * beginning of the full drawing and projects to that route.
   */
  lemma GrantEndToEnd(net: Network, lot: Lot, table: Table, e: Event, ws: seq<int>) returns (k: nat)
    requires e.Route? && Answer(lot, table, e).Parked?
    requires net.nodes == lot.nodes && NonNegativeFrom(net, e.src) && HoldsGhosts(net.nodes, table)
    requires Searched(net, e.src, e.dest, e.path, ws)
    ensures var r := Answer(lot, table, e);
            && (r.fallback <==> r.place != e.dest)
            && Nearest(net, lot, e, r.place)
            && k < |e.path| && Shortest(net, e.src, r.place, e.path[..k + 1], ws[..k])
            && r.display <= Drawn(table, e.path)
            && KeepReal(net.nodes, r.display) == e.path[..k + 1]
    ensures forall i :: 0 <= i < |Answer(lot, table, e).display| ==> Answer(lot, table, e).display[i] in net.nodes
  {
    k := GrantedIsLast(net, lot, table, e, ws);
    LastIsNearest(net, lot, e, ws, k);
    PiecesAreShortest(net, e.src, e.dest, e.path, ws, k);
    GrantIsDrawn(net, table, e.path, ws, k);
  }

  /** The drawing up to a stop of a walk. */
  lemma GrantIsDrawn(net: Network, table: Table, path: seq<Id>, ws: seq<int>, k: nat)
    requires Walk(net, path, ws) && k < |path| && HoldsGhosts(net.nodes, table)
    ensures Drawn(table, path[..k + 1]) <= Drawn(table, path)
    ensures KeepReal(net.nodes, Drawn(table, path[..k + 1])) == path[..k + 1]
    ensures var d := Drawn(table, path[..k + 1]); forall i :: 0 <= i < |d| ==> d[i] in net.nodes
  {
    DrawnPrefix(table, path, k + 1);
    EveryStopIsReal(net, path, ws);
    GhostTableIsOnlyGhosts(net.nodes, table);
    DrawnProjects(net.nodes, table, path[..k + 1]);
    DrawnIsKnown(net.nodes, table, path[..k + 1]);
  }

  /** The `i`-th stop is real and has a slot at each hour asked for, and none behind it is like that. */
  predicate LastBookable(lot: Lot, e: Event, i: nat)
    requires e.Route? && i < |e.path|
  {
    && Real(lot.nodes, e.path[i]) && HasSlots(lot.slots, e.path[i], e.startH, e.endH)
    && forall j :: i < j < |e.path| ==>
      !(Real(lot.nodes, e.path[j]) && HasSlots(lot.slots, e.path[j], e.startH, e.endH))
  }

  /** The last stop with slots, where the scan stops, or -1 for none. */
  lemma LastBookableFound(net: Network, lot: Lot, e: Event, ws: seq<int>) returns (k: int)
    requires e.Route? && ValidHours(e.startH, e.endH) && Shortest(net, e.src, e.dest, e.path, ws)
    ensures -1 <= k < |e.path|
    ensures forall i :: 0 <= i < |e.path| ==> (LastBookable(lot, e, i) <==> i == k)
    ensures ParkingNode(lot, e.dest, e.path, e.startH, e.endH) == if k >= 0 then e.path[k] else -1
  {
    k := LastAvailableFinds(lot, e.path, e.startH, e.endH);
    assert e.path[|e.path| - 1] == e.dest;
    forall i | 0 <= i < |e.path|
      ensures Available(lot, e.path[i], e.startH, e.endH)
         <==> Real(lot.nodes, e.path[i]) && HasSlots(lot.slots, e.path[i], e.startH, e.endH)
    {
      AvailableIff(lot, e.path[i], e.startH, e.endH);
    }
  }

  /**
   * A request with a route is refused exactly if no stop is bookable, save that a last bookable stop with
   * the id -1 is taken for none.
   */
  lemma NoParkingIff(net: Network, lot: Lot, table: Table, e: Event, ws: seq<int>)
    requires e.Route? && ValidHours(e.startH, e.endH) && e.src != -1 && e.dest != -1
    requires Shortest(net, e.src, e.dest, e.path, ws)
    ensures Answer(lot, table, e) == NoParking
       <==> forall i :: 0 <= i < |e.path| && LastBookable(lot, e, i) ==> e.path[i] == -1
  {
    var k := LastBookableFound(net, lot, e, ws);
  }

  /** It is granted exactly the last stop that has a slot at each hour asked for. */
  lemma ParkedIff(net: Network, lot: Lot, table: Table, e: Event, ws: seq<int>, place: Id)
    requires e.Route? && ValidHours(e.startH, e.endH) && e.src != -1 && e.dest != -1
    requires Shortest(net, e.src, e.dest, e.path, ws)
    ensures Answer(lot, table, e).Parked? && Answer(lot, table, e).place == place
       <==> place != -1 && exists i :: 0 <= i < |e.path| && LastBookable(lot, e, i) && e.path[i] == place
  {
    var k := LastBookableFound(net, lot, e, ws);
  }

  /** A grant takes one slot at each hour asked for, all of which had one, and leaves all else as it was. */
  lemma GrantTakesSlots(lot: Lot, table: Table, e: Event)
    requires e.Route? && Answer(lot, table, e).Parked?
    ensures var p := Answer(lot, table, e).place;
            && p in lot.slots
            && (forall h: nat :: e.startH <= h < e.endH ==> h in lot.slots[p] && 0 < lot.slots[p][h])
            && Apply(lot, e).nodes == lot.nodes
            && Apply(lot, e).slots == lot.slots[p := map h | h in lot.slots[p] ::
                 if e.startH <= h < e.endH then lot.slots[p][h] - 1 else lot.slots[p][h]]
  {
    var p := Answer(lot, table, e).place;
    GrantedIsAvailable(lot, e);
    AvailableIff(lot, p, e.startH, e.endH);
    var row := map h | h in lot.slots[p] :: if e.startH <= h < e.endH then lot.slots[p][h] - 1 else lot.slots[p][h];
    assert Reserve(lot.slots, p, e.startH, e.endH)[p] == row;
  }

  /** Each error reply comes exactly in its case. */
  lemma ErrorsIff(net: Network, lot: Lot, table: Table, e: Event, ws: seq<int>)
    requires e.Route?
    requires ValidHours(e.startH, e.endH) && e.src != -1 && e.dest != -1 ==> Searched(net, e.src, e.dest, e.path, ws)
    ensures Answer(lot, table, e) == InvalidHours <==> e.startH < 0 || 24 < e.endH || e.endH <= e.startH
    ensures Answer(lot, table, e) == InvalidNames
       <==> 0 <= e.startH < e.endH <= 24 && (e.src == -1 || e.dest == -1)
    ensures Answer(lot, table, e) == NoRoute
       <==> 0 <= e.startH < e.endH <= 24 && e.src != -1 && e.dest != -1 && !Near(net, e.src, e.dest)
  {
  }

  /** And so does each error reply to an update with both parameters. */
  lemma UpdateErrorsIff(lot: Lot, e: Event)
    requires e.Update?
    ensures UpdateAnswer(lot, e) == NegativeCapacity <==> e.newCap < 0
    ensures UpdateAnswer(lot, e) == NodeNotFound <==> 0 <= e.newCap && e.id !in lot.nodes
    ensures UpdateAnswer(lot, e) == IsGhostNode <==> 0 <= e.newCap && e.id in lot.nodes && lot.nodes[e.id].isGhost
    ensures UpdateAnswer(lot, e) == Success <==> 0 <= e.newCap && e.id in lot.nodes && !lot.nodes[e.id].isGhost
  {
  }

  /** A granted request lowers each hour it asked for by one at its place, any other answer changes nothing. */
  lemma RouteFrame(lot: Lot, table: Table, e: Event, n: Id, h: nat)
    requires e.Route? && Tidy(lot) && Real(lot.nodes, n) && h < HOURS
    ensures Apply(lot, e).nodes == lot.nodes
    ensures !Answer(lot, table, e).Parked? ==> Apply(lot, e) == lot
    ensures Answer(lot, table, e).Parked? ==>
      Free(Apply(lot, e).slots, n, h)
      == Free(lot.slots, n, h) - if n == Answer(lot, table, e).place && e.startH <= h < e.endH then 1 else 0
  {
    ApplyCell(lot, e, n, h);
  }

  /** On a loaded network the way back is the way out reversed: shortest, at equal cost, and drawn in reverse. */
  lemma WayBack(net: Network, es: seq<Edge>, entries: seq<Entry>, src: Id, dest: Id, p: seq<Id>, ws: seq<int>)
    requires net.graph == RoadOf(es) && Shortest(net, src, dest, p, ws) && Distinct(p)
    ensures Shortest(net, dest, src, Reversed(p), Reversed(ws)) && Cost(Reversed(ws)) == Cost(ws)
    ensures Drawn(TableOf(entries), Reversed(p)) == Reversed(Drawn(TableOf(entries), p))
  {
    LoadedIsSymmetric(es);
    WayBackIsShortest(net, src, dest, p, ws);
    forall i | 0 <= i < |p| - 1
      ensures Between(TableOf(entries), p[i + 1], p[i]) == Reversed(Between(TableOf(entries), p[i], p[i + 1]))
    {
      OffDiagonalMirrored(entries, p[i], p[i + 1]);
    }
    DrawnReversed(TableOf(entries), p);
  }

  /** The roads file keeps roads between real places within `0..maxWeight`. */
  predicate ListsWithin(nodes: Nodes, es: seq<Edge>, maxWeight: nat)
  {
    forall i :: 0 <= i < |es| && Real(nodes, es[i].u) && Real(nodes, es[i].v) ==> 0 <= es[i].w <= maxWeight
  }

  /**
   * Files whose number of real places times the largest weight is below INT_MAX: every request can be
   * served, and a route is found to every reachable place.
   */
  lemma FilesFit(nodes: Nodes, es: seq<Edge>, maxWeight: nat)
    requires ListsWithin(nodes, es, maxWeight) && |RealIds(nodes)| * maxWeight < INT_MAX
    ensures forall r :: Servable(Network(nodes, RoadOf(es)), r)
    ensures forall u, v :: Near(Network(nodes, RoadOf(es)), u, v) <==> Reachable(Network(nodes, RoadOf(es)), u, v)
  {
    var net := Network(nodes, RoadOf(es));
    forall u, v, w | Link(net, u, v, w) ensures 0 <= w <= maxWeight {
      WeightIsInt(es, u, v, w);
      RoadOfHolds(es, u, v, w);
    }
    WeighIsProduct(|RealIds(nodes)|, maxWeight);
    forall r: Request ensures Servable(net, r) {
      if r.RouteRequest? {
        FitsByCount(net, r.src, maxWeight);
      }
    }
    forall u: Id, v: Id ensures Near(net, u, v) <==> Reachable(net, u, v) {
      FitsByCount(net, u, maxWeight);
    }
  }

  /** Every request can be served by a system loaded from these files, and the table names places in them. */
  ghost predicate CanServe(nodes: Nodes, road: Graph, paths: seq<Entry>, requests: seq<Request>)
  {
    && (forall i :: 0 <= i < |requests| ==> Servable(Network(nodes, road), requests[i]))
    && forall i, j :: 0 <= i < |paths| && 0 <= j < |paths[i].ghosts| ==> paths[i].ghosts[j] in nodes
  }

  /** The life of a server: it loads the files and serves. */
  method Live(nodesText: string, roadText: string, paths: seq<Entry>, round: Rounding, requests: seq<Request>)
    returns (replies: seq<Reply>, sys: SmartParking, ghost events: seq<Event>)
    requires CanServe(LotOf(ReadNodes(nodesText)).nodes, RoadOf(ReadRoads(roadText)), paths, requests)
    ensures sys.road == RoadOf(ReadRoads(roadText)) && sys.visualPaths == TableOf(paths)
    ensures var lot := LotOf(ReadNodes(nodesText));
            && Served(lot, sys.visualPaths, Network(lot.nodes, sys.road), requests, events, replies)
            && sys.State() == Run(lot, events)
            && sys.nodesFile == FileAfter(round, lot, nodesText, events)
  {
    sys := new SmartParking(nodesText, roadText, paths, round);
    TableHoldsKnown(sys.nodes, paths);
    replies, events := Serve(sys, requests);
  }

  /** And its next start, with the roads as they were and the places file as it was left. */
  method Lifetime(nodesText: string, roadText: string, paths: seq<Entry>, round: Rounding, requests: seq<Request>)
    returns (replies: seq<Reply>, sys: SmartParking, again: SmartParking, ghost events: seq<Event>)
    requires CanServe(LotOf(ReadNodes(nodesText)).nodes, RoadOf(ReadRoads(roadText)), paths, requests)
    ensures var lot := LotOf(ReadNodes(nodesText));
            && Served(lot, sys.visualPaths, Network(lot.nodes, sys.road), requests, events, replies)
            && sys.State() == Run(lot, events)
            && again.nodes == PlacesAfter(round, lot, events)
            && (again.slots == FreshSlots(sys.nodes) <==> Saved(lot, events) || Clean(ReadNodes(nodesText)))
    ensures |replies| == |requests|
    ensures again.road == sys.road == RoadOf(ReadRoads(roadText))
    ensures again.visualPaths == sys.visualPaths == TableOf(paths)
  {
    replies, sys, events := Live(nodesText, roadText, paths, round, requests);
    again := new SmartParking(sys.nodesFile, roadText, paths, round);
    RestartForgetsBookings(round, nodesText, events);
  }

  /** Two places with a free slot each before a full destination, the nearer one with the id -1. */
  predicate MinusOneLast(a: Node, m: Node, b: Node)
  {
    && m.id == -1 && a.id != -1 && b.id != -1 && a.id != b.id
    && Fills(a) && Fills(m) && !b.isGhost && b.capacity == 0
  }

  function RoadsOver(a: Id, m: Id, b: Id): seq<Edge>
  {
    [Edge(a, m, 1), Edge(m, b, 1)]
  }

  /** A request for the route over them is refused for want of parking. */
  lemma MinusOneRefused(a: Node, m: Node, b: Node, table: Table)
    requires MinusOneLast(a, m, b)
    ensures var lot, es := LotOf([a, m, b]), RoadsOver(a.id, -1, b.id);
            var net, e := Network(lot.nodes, RoadOf(es)), Event.Route(a.id, b.id, 10, 12, [a.id, -1, b.id]);
            && Searched(net, a.id, b.id, e.path, [1, 1])
            && Available(lot, a.id, 10, 12) && Available(lot, -1, 10, 12)
            && Answer(lot, table, e) == NoParking
  {
    var lot := LotOf([a, m, b]);
    MinusOneLoaded(a, m, b);
    MinusOneRoute(lot.nodes, a.id, -1, b.id);
    var path: seq<Id> := [a.id, -1, b.id];
    assert path[..|path| - 1] == [a.id, -1];
    assert LastAvailable(lot, [a.id, -1], 10, 12) == -1;
    assert LastAvailable(lot, path, 10, 12) == -1;
  }

  lemma MinusOneLoaded(a: Node, m: Node, b: Node)
    requires MinusOneLast(a, m, b)
    ensures var lot := LotOf([a, m, b]);
            && Real(lot.nodes, a.id) && Real(lot.nodes, -1) && Real(lot.nodes, b.id)
            && Available(lot, a.id, 10, 12) && Available(lot, -1, 10, 12) && !Available(lot, b.id, 10, 12)
  {
    var ns := [a, m, b];
    assert ns[0] == a && ns[1] == m && ns[2] == b;
    LotOfAt(ns, a.id);
    LotOfAt(ns, -1);
    LotOfAt(ns, b.id);
    assert Free(LotOf(ns).slots, b.id, 10) == 0;
  }

  /** The route over the middle is the shortest: there is no road past it, and every road has weight 1. */
  lemma MinusOneRoute(nodes: Nodes, a: Id, m: Id, b: Id)
    requires Real(nodes, a) && Real(nodes, m) && Real(nodes, b) && a != m && m != b && a != b
    ensures Searched(Network(nodes, RoadOf(RoadsOver(a, m, b))), a, b, [a, m, b], [1, 1])
  {
    var es, p, ws := RoadsOver(a, m, b), [a, m, b], [1, 1];
    var net := Network(nodes, RoadOf(es));
    forall u, v, w ensures Link(net, u, v, w) ==> w == 1 && !(u == a && v == b) {
      if Link(net, u, v, w) {
        WeightIsInt(es, u, v, w);
        RoadOfHolds(es, u, v, w);
      }
    }
    assert es[0] == Edge(a, m, 1) && es[1] == Edge(m, b, 1);
    RoadOfHolds(es, a, m, 1);
    RoadOfHolds(es, m, b, 1);
    assert Link(net, p[0], p[0 + 1], ws[0]) && Link(net, p[1], p[1 + 1], ws[1]);
    assert WalkBetween(net, a, b, p, ws);
    CostOfOnes(ws);
    forall q, vs | WalkBetween(net, a, b, q, vs) ensures Cost(ws) <= Cost(vs) {
      forall i | 0 <= i < |vs| ensures vs[i] == 1 {
        assert Link(net, q[i], q[i + 1], vs[i]);
      }
      CostOfOnes(vs);
    }
  }

  lemma {:induction false} CostOfOnes(ws: seq<int>)
    requires forall i :: 0 <= i < |ws| ==> ws[i] == 1
    ensures Cost(ws) == |ws|
  {
    if ws == [] {
    } else {
      CostOfOnes(ws[..|ws| - 1]);
    }
  }
}
