/** The parking system: places, roads, slots and the table of drawn paths, and what can be asked of it. */
module Parking {
  import opened Sequences
  import opened Roads
  import opened Distances
  import opened Dijkstra
  import opened Display
  import opened Ledger
  import opened Storage

  class SmartParking {
    var nodes: Nodes
    var road: Graph
    var slots: Slots
    var visualPaths: Table

    /** Contents of the places file, which is loaded at the start and written by every update. */
    var nodesFile: string

    /** How the output library rounds the coordinates it writes. */
    const round: Rounding

    ghost function State(): Lot
      reads this
    {
      Lot(nodes, slots)
    }

    ghost function Net(): Network
      reads this
    {
      Network(nodes, road)
    }

    constructor (nodesText: string, roadText: string, paths: seq<Entry>, round: Rounding)
      ensures State() == LotOf(ReadNodes(nodesText))
      ensures road == RoadOf(ReadRoads(roadText))
      ensures visualPaths == TableOf(paths)
      ensures HoldsEntries(visualPaths, paths)
      ensures nodesFile == nodesText && this.round == round
    {
      this.round := round;
      nodes, road, slots, visualPaths, nodesFile := map[], map[], map[], map[], nodesText;
      new;
      LoadAll(ReadNodes(nodesText), ReadRoads(roadText), paths);
    }

    method LoadAll(ns: seq<Node>, es: seq<Edge>, paths: seq<Entry>)
      requires visualPaths == map[]
      modifies this`nodes, this`slots, this`road, this`visualPaths
      ensures State() == LotOf(ns) && road == RoadOf(es) && visualPaths == TableOf(paths)
      ensures HoldsEntries(visualPaths, paths)
    {
      LoadNodes(ns);
      LoadGraph(es);
      BuildVisualPaths(paths);
    }

    method LoadNodes(ns: seq<Node>)
      modifies this`nodes, this`slots
      ensures State() == LotOf(ns)
    {
      nodes, slots := map[], map[];
      for i := 0 to |ns|
        invariant State() == LotOf(ns[..i])
      {
        var n := ns[i];
        nodes := nodes[n.id := n];
        if !n.isGhost && n.capacity > 0 {
          FillSlots(n.id, n.capacity);
        }
        assert ns[..i + 1][..i] == ns[..i];
      }
      assert ns[..|ns|] == ns;
    }

    method FillSlots(id: Id, cap: int)
      modifies this`slots
      ensures slots == old(slots)[id := Filled(RowOf(old(slots), id), HOURS, cap)]
    {
      for h := 0 to HOURS
        invariant h == 0 ==> slots == old(slots)
        invariant h > 0 ==> slots == old(slots)[id := Filled(RowOf(old(slots), id), h, cap)]
      {
        slots := slots[id := RowOf(slots, id)[h := cap]];
      }
    }

    method LoadGraph(es: seq<Edge>)
      modifies this`road
      ensures road == RoadOf(es)
    {
      road := map[];
      for i := 0 to |es|
        invariant road == RoadOf(es[..i])
      {
        var Edge(u, v, w) := es[i];
        road := road[u := Adjacent(road, u) + [(v, w)]];
        road := road[v := Adjacent(road, v) + [(u, w)]];
        assert es[..i + 1][..i] == es[..i];
      }
      assert es[..|es|] == es;
    }

    method BuildVisualPaths(paths: seq<Entry>)
      requires visualPaths == map[]
      modifies this`visualPaths
      ensures visualPaths == TableOf(paths)
      ensures HoldsEntries(visualPaths, paths)
    {
      for i := 0 to |paths|
        invariant visualPaths == TableOf(paths[..i])
      {
        assert paths[..i + 1][..i] == paths[..i];
        AddPath(paths[i].a, paths[i].b, paths[i].ghosts);
      }
      assert paths[..|paths|] == paths;
      TableHoldsEntries(paths);
    }

    method AddPath(a: Id, b: Id, ghosts: seq<Id>)
      modifies this`visualPaths
      ensures visualPaths == WithPath(old(visualPaths), a, b, ghosts)
      ensures Between(visualPaths, b, a) == Reversed(ghosts) && (a != b ==> Between(visualPaths, a, b) == ghosts)
      ensures forall key :: key != (a, b) && key != (b, a) ==>
        Between(visualPaths, key.0, key.1) == Between(old(visualPaths), key.0, key.1)
      ensures Mirrored(old(visualPaths)) ==> (Mirrored(visualPaths) <==> a != b || ghosts == Reversed(ghosts))
    {
      if Mirrored(visualPaths) {
        WithPathMirrored(visualPaths, a, b, ghosts);
      }
      visualPaths := visualPaths[(a, b) := ghosts];
      var rev := Reversed(ghosts);
      visualPaths := visualPaths[(b, a) := rev];
    }

    /** Shortest route over the given graph; see ShortestRoute for what the ghost results say. */
    method Dijkstra(src: Id, dest: Id, graph: Graph) returns (path: seq<Id>, ghost ws: seq<int>)
      requires SumsFit(Network(nodes, graph), src)
      ensures path == [] <==> !Near(Network(nodes, graph), src, dest)
      ensures path != [] ==> Shortest(Network(nodes, graph), src, dest, path, ws) && Distinct(path)
    {
      ghost var known, settled;
      path, ws, known, settled := ShortestRoute(Network(nodes, graph), src, dest);
    }

    static method PushAll(path: seq<Id>, ids: seq<Id>) returns (longer: seq<Id>)
      ensures longer == path + ids
    {
      longer := path;
      for j := 0 to |ids|
        invariant longer == path + ids[..j]
      {
        longer := longer + [ids[j]];
      }
    }

    method BuildVisualRoute(realPath: seq<Id>) returns (finalPath: seq<Id>)
      ensures finalPath == Drawn(visualPaths, realPath)
    {
      finalPath := [];
      if realPath == [] {
        return;
      }
      for i := 0 to |realPath| - 1
        invariant finalPath + Drawn(visualPaths, realPath[i..]) == Drawn(visualPaths, realPath)
      {
        var a, b := realPath[i], realPath[i + 1];
        DrawnTurn(visualPaths, finalPath, realPath, i);
        finalPath := finalPath + [a];
        if (a, b) in visualPaths {
          finalPath := PushAll(finalPath, visualPaths[(a, b)]);
        } else {
          assert finalPath + [] == finalPath;
        }
      }
      assert realPath[|realPath| - 1..] == [Last(realPath)];
      finalPath := finalPath + [Last(realPath)];
    }

    method AvailableAtTime(node: Id, startH: int, endH: int) returns (ok: bool)
      ensures ok == Available(State(), node, startH, endH)
      ensures ok <==>
        && 0 <= startH < endH <= 24
        && node in nodes && !nodes[node].isGhost
        && node in slots
        && forall h: nat :: startH <= h < endH ==> h in slots[node] && 0 < slots[node][h]
    {
      AvailableIff(State(), node, startH, endH);
      if startH < 0 || endH > HOURS || startH >= endH {
        return false;
      }
      if node !in nodes || nodes[node].isGhost {
        return false;
      }
      if node !in slots {
        return false;
      }
      var h := startH;
      while h < endH
        invariant startH <= h <= endH
        invariant forall g: nat :: startH <= g < h ==> g in slots[node] && 0 < slots[node][g]
      {
        if h !in slots[node] || slots[node][h] <= 0 {
          return false;
        }
        h := h + 1;
      }
      return true;
    }

    method ReserveSlot(node: Id, startH: int, endH: int)
      modifies this`slots
      ensures slots == Reserve(old(slots), node, startH, endH)
      ensures slots.Keys == old(slots).Keys
      ensures forall n, h: nat ::
        Free(slots, n, h) == old(Free(slots, n, h))
                             - (if n == node && Covers(startH, endH, h) && 0 < old(Free(slots, n, h)) then 1 else 0)
    {
      forall n, h: nat {
        ReserveCell(slots, node, startH, endH, n, h);
      }
      if startH < 0 || endH > HOURS || startH >= endH {
        return;
      }
      if node !in slots {
        return;
      }
      var h := startH;
      while h < endH
        invariant startH <= h <= endH
        invariant slots == Reserve(old(slots), node, startH, h)
      {
        ReserveStep(old(slots), node, startH, h);
        if h in slots[node] && slots[node][h] > 0 {
          slots := slots[node := slots[node][h := slots[node][h] - 1]];
        }
        h := h + 1;
      }
    }

    method FallbackParking(realPath: seq<Id>, startH: int, endH: int) returns (place: Id)
      ensures place == LastAvailable(State(), realPath, startH, endH)
      ensures place != -1 ==> place in realPath && Available(State(), place, startH, endH)
    {
      var i := |realPath| - 1;
      assert realPath[..i + 1] == realPath;
      while i >= 0
        invariant -1 <= i < |realPath|
        invariant LastAvailable(State(), realPath, startH, endH)
               == LastAvailable(State(), realPath[..i + 1], startH, endH)
      {
        var id := realPath[i];
        assert Last(realPath[..i + 1]) == id && realPath[..i + 1][..i] == realPath[..i];
        if id !in nodes || nodes[id].isGhost {
          i := i - 1;
          continue;
        }
        var ok := AvailableAtTime(id, startH, endH);
        if ok {
          return id;
        }
        i := i - 1;
      }
      return -1;
    }

    method UpdateCapacity(id: Id, newCap: int)
      modifies this`nodes, this`slots, this`nodesFile
      ensures State() == Update(old(State()), id, newCap)
      ensures id in old(nodes) ==> id in nodes && nodes[id] == old(nodes)[id].(capacity := newCap)
      ensures id in old(nodes) ==> forall h: nat :: h < HOURS ==>
        Taken(State(), id, h) == Min(Max(0, Taken(old(State()), id, h)), newCap)
      ensures nodesFile == if id in old(nodes) then SaveText(round, nodes) else old(nodesFile)
    {
      if id !in nodes {
        return;
      }
      var oldCap := nodes[id].capacity;
      nodes := nodes[id := nodes[id].(capacity := newCap)];
      forall h: nat | h < HOURS {
        UpdateCell(old(State()), id, newCap, id, h);
      }
      RecutSlots(id, oldCap, newCap);
      SaveNodes();
    }

    method RecutSlots(id: Id, oldCap: int, newCap: int)
      modifies this`slots
      ensures slots == old(slots)[id := RecutRow(RowOf(old(slots), id), oldCap, newCap, HOURS)]
    {
      ghost var row := RowOf(slots, id);
      for h := 0 to HOURS
        invariant h == 0 ==> slots == old(slots)
        invariant h > 0 ==> slots == old(slots)[id := RecutRow(row, oldCap, newCap, h)]
      {
        RecutRowAt(row, oldCap, newCap, h, h);
        var reserved := oldCap - Free(slots, id, h);
        reserved := Max(0, reserved);
        slots := slots[id := RowOf(slots, id)[h := Max(0, newCap - reserved)]];
      }
    }

    method SaveNodes()
      modifies this`nodesFile
      ensures nodesFile == SaveText(round, nodes)
    {
      var file := "";
      var rest := nodes;
      while rest != map[]
        invariant file + SaveText(round, rest) == SaveText(round, nodes)
        decreases |rest|
      {
        FirstExists(rest);
        var k :| IsFirst(rest, k);
        SaveStep(round, file, rest, k);
        file := file + NodeText(Shown(round, rest[k]), "");
        rest := rest - {k};
      }
      NothingSaved(round);
      nodesFile := file;
    }
  }
}
