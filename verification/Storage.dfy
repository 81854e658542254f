/** The two text files: places, which are loaded and saved, and roads, which are only loaded. */
module Storage {
  import opened Sequences
  import opened Roads
  import opened Ledger
  import opened Text

  /** One line of the places file, followed by the rest of the file. */
  function NodeText(n: Node, rest: string): string
  {
    "" + IntText(n.id) + (" " + n.name + (" " + IntText(n.capacity) + PositionText(n, rest)))
  }

  function PositionText(n: Node, rest: string): string
  {
    " " + DecimalText(n.x) + (" " + DecimalText(n.y) + (" " + IntText(GhostFlag(n)) + ("\n" + rest)))
  }

  function GhostFlag(n: Node): Id
  {
    if n.isGhost then 1 else 0
  }

  lemma LineThenRest(n: Node, rest: string)
    ensures NodeText(n, rest) == NodeText(n, "") + rest
  {
    var g, y, x := " " + IntText(GhostFlag(n)), " " + DecimalText(n.y), " " + DecimalText(n.x);
    var cap, name, id := " " + IntText(n.capacity), " " + n.name, "" + IntText(n.id);
    var end := "\n" + "";
    assert "\n" + rest == end + rest;
    Regroup(g, end, rest);
    Regroup(y, g + end, rest);
    Regroup(x, y + (g + end), rest);
    Regroup(cap, x + (y + (g + end)), rest);
    Regroup(name, cap + (x + (y + (g + end))), rest);
    Regroup(id, name + (cap + (x + (y + (g + end)))), rest);
  }

  function ReadNode(text: string): (r: Reading<Node>)
    ensures r.Some? ==> |r.value.1| < |text| && Writable(r.value.0)
  {
    var id := ReadInt(text);
    if id == None then None else
    var name := ReadWord(id.value.1);
    if name == None then None else
    var cap := ReadInt(name.value.1);
    if cap == None then None else
    var place := ReadPosition(cap.value.1);
    if place == None then None else
    var ((x, y, isGhost), rest) := place.value;
    Some((Node(id.value.0, name.value.0, cap.value.0, x, y, isGhost), rest))
  }

  /** The rest of a line: two coordinates and the ghost flag. */
  function ReadPosition(text: string): (r: Reading<(Decimal, Decimal, bool)>)
    ensures r.Some? ==> |r.value.1| < |text| && IsPlain(r.value.0.0) && IsPlain(r.value.0.1)
  {
    var x := ReadDecimal(text);
    if x == None then None else
    var y := ReadDecimal(x.value.1);
    if y == None then None else
    var isGhost := ReadInt(y.value.1);
    if isGhost == None then None else
    Some(((x.value.0, y.value.0, isGhost.value.0 == 1), isGhost.value.1))
  }

  /** Values that a place can have after loading; nothing the handlers do leaves this range. */
  predicate Writable(n: Node)
  {
    IsName(n.name) && -0x8000_0000 <= n.capacity <= INT_MAX && IsPlain(n.x) && IsPlain(n.y)
  }

  /** All places the file lists, up to the first that cannot be read. */
  function ReadNodes(text: string): (ns: seq<Node>)
    ensures AllWritable(ns)
    decreases |text|
  {
    match ReadNode(text)
    case None => []
    case Some((n, rest)) => [n] + ReadNodes(rest)
  }

  predicate AllWritable(ns: seq<Node>)
  {
    forall i :: 0 <= i < |ns| ==> Writable(ns[i])
  }

  /** A row with the hours before `n` set to `free`. */
  function Filled(row: Hours, n: nat, free: int): (r: Hours)
    ensures forall h: nat :: h in r <==> h in row || h < n
    ensures forall h: nat :: h in r ==> r[h] == if h < n then free else row[h]
  {
    if n == 0 then row else Filled(row, n - 1, free)[n - 1 := free]
  }

  /** The state after one more place was read: a later line replaces an earlier one of the same id. */
  function WithNode(lot: Lot, n: Node): Lot
  {
    Lot(lot.nodes[n.id := n],
        if !n.isGhost && 0 < n.capacity then lot.slots[n.id := Filled(RowOf(lot.slots, n.id), HOURS, n.capacity)]
        else lot.slots)
  }

  function LotOf(ns: seq<Node>): Lot
  {
    if ns == [] then Lot(map[], map[]) else WithNode(LotOf(ns[..|ns| - 1]), Last(ns))
  }

  /** The fields of a line in the order of the file, whatever blanks lie before and between them. */
  function LineText(lead: string, gap: string, n: Node, flag: int, rest: string): string
  {
    lead + IntText(n.id) + (gap + n.name + (gap + IntText(n.capacity) + CoordinatesText(gap, n.x, n.y, flag, rest)))
  }

  function CoordinatesText(gap: string, x: Decimal, y: Decimal, flag: int, rest: string): string
  {
    gap + DecimalText(x) + (gap + DecimalText(y) + (gap + IntText(flag) + rest))
  }

  predicate IsGap(gap: string)
  {
    gap != [] && AllSpaces(gap)
  }

  /** Such a line is read field by field, and only the flag 1 makes a ghost. */
  lemma NodeRead(lead: string, gap: string, n: Node, flag: Int32, rest: string)
    requires AllSpaces(lead) && IsGap(gap) && Writable(n) && (rest == [] || !IsDigit(rest[0]))
    ensures ReadNode(LineText(lead, gap, n, flag, rest)) == Some((n.(isGhost := flag == 1), rest))
  {
    var place := CoordinatesText(gap, n.x, n.y, flag, rest);
    var cap := gap + IntText(n.capacity) + place;
    var name := gap + n.name + cap;
    IntRoundTrip(lead, n.id, name);
    WordRoundTrip(gap, n.name, cap);
    IntRoundTrip(gap, n.capacity, place);
    PositionRead(gap, n.x, n.y, flag, rest);
  }

  lemma PositionRead(gap: string, x: Decimal, y: Decimal, flag: Int32, rest: string)
    requires IsGap(gap) && IsPlain(x) && IsPlain(y) && (rest == [] || !IsDigit(rest[0]))
    ensures ReadPosition(CoordinatesText(gap, x, y, flag, rest)) == Some(((x, y, flag == 1), rest))
  {
    var g := gap + IntText(flag) + rest;
    var second := gap + DecimalText(y) + g;
    DecimalRoundTrip(gap, x, second);
    DecimalRoundTrip(gap, y, g);
    IntRoundTrip(gap, flag, rest);
  }

  lemma NodeRoundTrip(n: Node, rest: string)
    requires Writable(n)
    ensures ReadNode(NodeText(n, rest)) == Some((n, "\n" + rest))
  {
    NodeRead("", " ", n, GhostFlag(n), "\n" + rest);
  }

  /** What is written, spelled out. */
  lemma LineSpelled(n: Node)
    ensures NodeText(n, "")
         == IntText(n.id) + " " + n.name + " " + IntText(n.capacity) + " " + DecimalText(n.x) + " " + DecimalText(n.y)
            + " " + (if n.isGhost then "1" else "0") + "\n"
  {
    FlagSpelled(n);
    var id, cap, x, y := IntText(n.id), IntText(n.capacity), DecimalText(n.x), DecimalText(n.y);
    var g := if n.isGhost then "1" else "0";
    var end := "\n" + "";
    assert end == "\n" && "" + id == id;
    FieldSpelled(id, n.name, " " + cap + (" " + x + (" " + y + (" " + g + end))));
    FieldSpelled(id + " " + n.name, cap, " " + x + (" " + y + (" " + g + end)));
    FieldSpelled(id + " " + n.name + " " + cap, x, " " + y + (" " + g + end));
    FieldSpelled(id + " " + n.name + " " + cap + " " + x, y, " " + g + end);
    FieldSpelled(id + " " + n.name + " " + cap + " " + x + " " + y, g, end);
  }

  lemma FieldSpelled(line: string, field: string, rest: string)
    ensures line + (" " + field + rest) == line + " " + field + rest
  {
    Regroup(line, " " + field, rest);
    Regroup(line, " ", field);
  }

  lemma FlagSpelled(n: Node)
    ensures IntText(GhostFlag(n)) == if n.isGhost then "1" else "0"
  {
    assert NatText(1) == "1" && NatText(0) == "0";
  }

  function NodesText(ns: seq<Node>): string
  {
    if ns == [] then "" else NodeText(ns[0], NodesText(ns[1..]))
  }

  /** A file that starts with a line break reads like the rest of it. */
  lemma BreakSkipped(rest: string)
    ensures ReadNodes("\n" + rest) == ReadNodes(rest)
  {
    assert ("\n" + rest)[1..] == rest;
    assert SkipSpace("\n" + rest) == SkipSpace(rest);
    assert ReadNode("\n" + rest) == ReadNode(rest);
  }

  lemma {:induction false} NodesRoundTrip(ns: seq<Node>)
    requires AllWritable(ns)
    ensures ReadNodes(NodesText(ns)) == ns
  {
    if ns == [] {
      NothingToRead();
    } else {
      NodesRoundTrip(ns[1..]);
      LineRead(ns[0], NodesText(ns[1..]));
    }
  }

  lemma LineRead(n: Node, rest: string)
    requires Writable(n)
    ensures ReadNodes(NodeText(n, rest)) == [n] + ReadNodes(rest)
  {
    NodeRoundTrip(n, rest);
    BreakSkipped(rest);
  }

  lemma NothingToRead()
    ensures ReadNodes("") == []
  {
    assert ReadInt("") == None;
  }

  /** The smallest key, where iteration over the map begins. */
  predicate IsFirst(nodes: Nodes, k: Id)
  {
    k in nodes && forall j :: j in nodes ==> k <= j
  }

  lemma {:induction false} FirstExists(nodes: Nodes)
    requires nodes != map[]
    ensures exists k :: IsFirst(nodes, k)
    decreases |nodes|
  {
    var k :| k in nodes;
    var rest := nodes - {k};
    assert forall i :: i in nodes ==> i == k || i in rest;
    if rest == map[] {
      assert IsFirst(nodes, k);
    } else {
      FirstExists(rest);
      var j :| IsFirst(rest, j);
      assert IsFirst(nodes, if j < k then j else k);
    }
  }

  /** The places in the order of their keys. */
  ghost function InOrder(nodes: Nodes): seq<Node>
    decreases |nodes|
  {
    if nodes == map[] then []
    else
      FirstExists(nodes);
      var k :| IsFirst(nodes, k);
      [nodes[k]] + InOrder(nodes - {k})
  }

  function LeadingZeros(s: string): nat
  {
    if s != [] && s[0] == '0' then 1 + LeadingZeros(s[1..]) else 0
  }

  /** A coordinate of six significant digits at most, which `<<` writes without rounding or exponent. */
  predicate SixDigits(d: Decimal)
  {
    if d.whole > 0 then |NatText(d.whole)| + |d.fraction| <= 6
    else LeadingZeros(d.fraction) <= 3 && |d.fraction| <= LeadingZeros(d.fraction) + 6
  }

  /**
   * What `<<` makes of a coordinate: it rounds to six significant digits, leaves alone what has no more,
   * and changes nothing more when asked again. How it breaks ties is left open.
   */
  ghost predicate Rounds(f: Decimal -> Decimal)
  {
    forall d :: IsPlain(d) ==> IsPlain(f(d)) && f(f(d)) == f(d) && (SixDigits(d) ==> f(d) == d)
  }

  type Rounding = f: Decimal -> Decimal | Rounds(f) witness d => d

  function Shown(round: Rounding, n: Node): Node
  {
    n.(x := round(n.x), y := round(n.y))
  }

  /** The places as the file shows them. */
  function AllShown(round: Rounding, nodes: Nodes): Nodes
  {
    map k | k in nodes :: Shown(round, nodes[k])
  }

  /** What saving writes. */
  ghost function SaveText(round: Rounding, nodes: Nodes): string
  {
    NodesText(InOrder(AllShown(round, nodes)))
  }

  lemma InOrderStep(nodes: Nodes, k: Id)
    requires IsFirst(nodes, k)
    ensures InOrder(nodes) == [nodes[k]] + InOrder(nodes - {k})
    ensures NodesText(InOrder(nodes)) == NodeText(nodes[k], NodesText(InOrder(nodes - {k})))
  {
    var rest := InOrder(nodes - {k});
    assert ([nodes[k]] + rest)[1..] == rest;
  }

  lemma ShownLess(round: Rounding, nodes: Nodes, k: Id)
    ensures AllShown(round, nodes - {k}) == AllShown(round, nodes) - {k}
  {
  }

  lemma SaveStep(round: Rounding, file: string, nodes: Nodes, k: Id)
    requires IsFirst(nodes, k)
    ensures file + NodeText(Shown(round, nodes[k]), "") + SaveText(round, nodes - {k}) == file + SaveText(round, nodes)
  {
    var n := Shown(round, nodes[k]);
    InOrderStep(AllShown(round, nodes), k);
    ShownLess(round, nodes, k);
    LineThenRest(n, SaveText(round, nodes - {k}));
    Regroup(file, NodeText(n, ""), SaveText(round, nodes - {k}));
  }

  lemma NothingSaved(round: Rounding)
    ensures SaveText(round, map[]) == ""
  {
    assert AllShown(round, map[]) == map[];
  }

  ghost predicate KeysAreIds(nodes: Nodes)
  {
    forall k :: k in nodes ==> nodes[k].id == k
  }

  /** The list holds each place of the map once. */
  ghost predicate Lists(ns: seq<Node>, nodes: Nodes)
  {
    && (forall i :: 0 <= i < |ns| ==> ns[i].id in nodes && nodes[ns[i].id] == ns[i])
    && (forall k :: k in nodes ==> nodes[k].id == k && nodes[k] in ns)
    && (forall i, j :: 0 <= i < j < |ns| ==> ns[i].id != ns[j].id)
  }

  lemma {:induction false} InOrderLists(nodes: Nodes)
    requires KeysAreIds(nodes)
    ensures Lists(InOrder(nodes), nodes)
    decreases |nodes|
  {
    if nodes == map[] {
    } else {
      FirstExists(nodes);
      var k :| IsFirst(nodes, k);
      InOrderStep(nodes, k);
      InOrderLists(nodes - {k});
      ListsLonger(InOrder(nodes - {k}), nodes, k);
    }
  }

  ghost predicate Sorted(ns: seq<Node>)
  {
    forall i, j :: 0 <= i < j < |ns| ==> ns[i].id < ns[j].id
  }

  /** The places are written in the order of their ids. */
  lemma {:induction false} InOrderIsSorted(nodes: Nodes)
    requires KeysAreIds(nodes)
    ensures Sorted(InOrder(nodes))
    decreases |nodes|
  {
    if nodes == map[] {
      assert InOrder(nodes) == [];
    } else {
      FirstExists(nodes);
      var k: Id :| IsFirst(nodes, k);
      InOrderStep(nodes, k);
      InOrderIsSorted(nodes - {k});
      FirstIsLess(nodes, k);
      SortedLonger(nodes[k], InOrder(nodes - {k}));
    }
  }

  lemma FirstIsLess(nodes: Nodes, k: Id)
    requires KeysAreIds(nodes) && IsFirst(nodes, k)
    ensures forall j :: 0 <= j < |InOrder(nodes - {k})| ==> k < InOrder(nodes - {k})[j].id
  {
    InOrderLists(nodes - {k});
  }

  lemma SortedLonger(n: Node, ns: seq<Node>)
    requires Sorted(ns) && forall j :: 0 <= j < |ns| ==> n.id < ns[j].id
    ensures Sorted([n] + ns)
  {
  }

  lemma ListsLonger(ns: seq<Node>, nodes: Nodes, k: Id)
    requires KeysAreIds(nodes) && k in nodes && Lists(ns, nodes - {k})
    ensures Lists([nodes[k]] + ns, nodes)
  {
    forall j | j in nodes ensures nodes[j] in [nodes[k]] + ns {
      if j != k {
        assert j in nodes - {k};
      }
    }
  }

  /** All slots of the real places with a capacity, all free. */
  function FreshSlots(nodes: Nodes): Slots
  {
    map id | id in nodes && !nodes[id].isGhost && 0 < nodes[id].capacity :: Filled(map[], HOURS, nodes[id].capacity)
  }

  lemma {:induction false} LotOfList(ns: seq<Node>, nodes: Nodes)
    requires Lists(ns, nodes)
    ensures LotOf(ns) == Lot(nodes, FreshSlots(nodes))
    decreases |ns|
  {
    if ns == [] {
      assert nodes == map[];
    } else {
      var n := Last(ns);
      ListsShorter(ns, nodes);
      LotOfList(ns[..|ns| - 1], nodes - {n.id});
      FreshGrows(nodes, n);
    }
  }

  lemma ListsShorter(ns: seq<Node>, nodes: Nodes)
    requires Lists(ns, nodes) && ns != []
    ensures Last(ns).id in nodes && nodes[Last(ns).id] == Last(ns)
    ensures Lists(ns[..|ns| - 1], nodes - {Last(ns).id})
  {
    var before, fewer := ns[..|ns| - 1], nodes - {Last(ns).id};
    forall k | k in fewer ensures fewer[k].id == k && fewer[k] in before {
      var i :| 0 <= i < |ns| && ns[i] == nodes[k];
      assert before[i] == nodes[k];
    }
  }

  lemma FreshGrows(nodes: Nodes, n: Node)
    requires n.id in nodes && nodes[n.id] == n
    ensures WithNode(Lot(nodes - {n.id}, FreshSlots(nodes - {n.id})), n) == Lot(nodes, FreshSlots(nodes))
  {
    var fewer := nodes - {n.id};
    assert nodes == fewer[n.id := n];
    assert n.id !in FreshSlots(fewer);
    var grown := WithNode(Lot(fewer, FreshSlots(fewer)), n).slots;
    forall k ensures k in grown <==> k in FreshSlots(nodes) {
      assert k != n.id ==> (k in grown <==> k in FreshSlots(fewer));
    }
    assert grown == FreshSlots(nodes);
  }

  predicate ShortCoordinates(nodes: Nodes)
  {
    forall k :: k in nodes ==> SixDigits(nodes[k].x) && SixDigits(nodes[k].y)
  }

  lemma OrderedRoundTrip(nodes: Nodes)
    requires KeysAreIds(nodes) && forall k :: k in nodes ==> Writable(nodes[k])
    ensures LotOf(ReadNodes(NodesText(InOrder(nodes)))) == Lot(nodes, FreshSlots(nodes))
  {
    InOrderLists(nodes);
    var ns := InOrder(nodes);
    forall i | 0 <= i < |ns| ensures Writable(ns[i]) {
      assert ns[i] == nodes[ns[i].id];
    }
    NodesRoundTrip(ns);
    LotOfList(ns, nodes);
  }

  lemma ShownKeepsSlots(round: Rounding, nodes: Nodes)
    ensures FreshSlots(AllShown(round, nodes)) == FreshSlots(nodes)
  {
  }

  /** Saving and loading again restores every place up to the rounding and makes all slots free. */
  lemma SaveLoadRoundTrip(round: Rounding, nodes: Nodes)
    requires KeysAreIds(nodes) && forall k :: k in nodes ==> Writable(nodes[k])
    ensures LotOf(ReadNodes(SaveText(round, nodes))) == Lot(AllShown(round, nodes), FreshSlots(nodes))
  {
    OrderedRoundTrip(AllShown(round, nodes));
    ShownKeepsSlots(round, nodes);
  }

  /** No coordinate changes when it is written. */
  predicate WrittenExactly(round: Rounding, nodes: Nodes)
  {
    forall k :: k in nodes ==> round(nodes[k].x) == nodes[k].x && round(nodes[k].y) == nodes[k].y
  }

  /** It restores them as they were exactly if all coordinates are written exactly, as six digits are. */
  lemma SaveLoadRestoresIff(round: Rounding, nodes: Nodes)
    requires KeysAreIds(nodes) && forall k :: k in nodes ==> Writable(nodes[k])
    ensures LotOf(ReadNodes(SaveText(round, nodes))).nodes == nodes <==> WrittenExactly(round, nodes)
    ensures ShortCoordinates(nodes) ==> WrittenExactly(round, nodes)
  {
    SaveLoadRoundTrip(round, nodes);
    ShownIsSameIff(round, nodes);
  }

  lemma ShownIsSameIff(round: Rounding, nodes: Nodes)
    ensures AllShown(round, nodes) == nodes <==> WrittenExactly(round, nodes)
  {
    if AllShown(round, nodes) == nodes {
      forall k | k in nodes ensures round(nodes[k].x) == nodes[k].x && round(nodes[k].y) == nodes[k].y {
        assert AllShown(round, nodes)[k] == Shown(round, nodes[k]);
      }
    }
  }

  lemma {:induction false} LotOfHolds(ns: seq<Node>)
    requires AllWritable(ns)
    ensures KeysAreIds(LotOf(ns).nodes)
    ensures forall k :: k in LotOf(ns).nodes ==> Writable(LotOf(ns).nodes[k]) && LotOf(ns).nodes[k] in ns
  {
    if ns == [] {
    } else {
      LotOfHolds(ns[..|ns| - 1]);
    }
  }

  /** What was rounded once is saved and loaded as it is. */
  lemma ShownAgain(round: Rounding, nodes: Nodes)
    requires KeysAreIds(nodes) && forall k :: k in nodes ==> Writable(nodes[k])
    ensures LotOf(ReadNodes(SaveText(round, AllShown(round, nodes)))) == Lot(AllShown(round, nodes), FreshSlots(nodes))
  {
    assert AllShown(round, AllShown(round, nodes)) == AllShown(round, nodes);
    OrderedRoundTrip(AllShown(round, nodes));
    ShownKeepsSlots(round, nodes);
  }

  /** Whatever a file says, what is loaded and saved once is restored by every further saving and loading. */
  lemma ReloadIsStable(round: Rounding, text: string)
    ensures var once := LotOf(ReadNodes(SaveText(round, LotOf(ReadNodes(text)).nodes)));
            && once.nodes == AllShown(round, LotOf(ReadNodes(text)).nodes)
            && LotOf(ReadNodes(SaveText(round, once.nodes))) == once
  {
    var nodes := LotOf(ReadNodes(text)).nodes;
    LotOfHolds(ReadNodes(text));
    SaveLoadRoundTrip(round, nodes);
    ShownAgain(round, nodes);
  }

  /** Loading distinct ids with capacities that are not negative makes a tidy lot with all slots free. */
  lemma FreshIsTidy(nodes: Nodes)
    requires forall k :: Real(nodes, k) ==> 0 <= nodes[k].capacity
    ensures Tidy(Lot(nodes, FreshSlots(nodes)))
    ensures forall k, h: nat :: Real(nodes, k) && h < HOURS ==> Free(FreshSlots(nodes), k, h) == nodes[k].capacity
  {
  }

  /** A line that gives its place slots. */
  predicate Fills(n: Node)
  {
    !n.isGhost && 0 < n.capacity
  }

  predicate IsLast(ns: seq<Node>, i: nat)
    requires i < |ns|
  {
    forall j :: i < j < |ns| ==> ns[j].id != ns[i].id
  }

  /** No line gives slots to a place that a later line makes a ghost or leaves without a capacity. */
  predicate Clean(ns: seq<Node>)
  {
    forall i, j :: 0 <= j < i < |ns| && ns[j].id == ns[i].id && Fills(ns[j]) && IsLast(ns, i) ==> Fills(ns[i])
  }

  /** The last line of a place, or -1. */
  function LastLine(ns: seq<Node>, id: Id): (i: int)
    ensures -1 <= i < |ns|
    ensures i >= 0 ==> ns[i].id == id
    ensures forall j :: i < j < |ns| ==> ns[j].id != id
  {
    if ns == [] then -1
    else if Last(ns).id == id then |ns| - 1
    else
      var i := LastLine(ns[..|ns| - 1], id);
      assert forall j :: i < j < |ns| - 1 ==> ns[j] == ns[..|ns| - 1][j];
      i
  }

  /** The last line that gives a place slots, or -1. */
  function LastFill(ns: seq<Node>, id: Id): (i: int)
    ensures -1 <= i < |ns|
    ensures i >= 0 ==> ns[i].id == id && Fills(ns[i])
    ensures forall j :: i < j < |ns| && ns[j].id == id ==> !Fills(ns[j])
  {
    if ns == [] then -1
    else if Last(ns).id == id && Fills(Last(ns)) then |ns| - 1
    else
      var i := LastFill(ns[..|ns| - 1], id);
      assert forall j :: i < j < |ns| - 1 ==> ns[j] == ns[..|ns| - 1][j];
      i
  }

  lemma FilledAgain(row: Hours, a: int, b: int)
    ensures Filled(Filled(row, HOURS, a), HOURS, b) == Filled(row, HOURS, b)
  {
  }

  /** What loading makes of a place: its last line, and the slots of its last line that gives it any. */
  lemma {:induction false} LotOfAt(ns: seq<Node>, id: Id)
    ensures id in LotOf(ns).nodes <==> LastLine(ns, id) >= 0
    ensures LastLine(ns, id) >= 0 ==> LotOf(ns).nodes[id] == ns[LastLine(ns, id)]
    ensures id in LotOf(ns).slots <==> LastFill(ns, id) >= 0
    ensures LastFill(ns, id) >= 0 ==> LotOf(ns).slots[id] == Filled(map[], HOURS, ns[LastFill(ns, id)].capacity)
  {
    if ns == [] {
    } else {
      var before := ns[..|ns| - 1];
      LotOfAt(before, id);
      if Last(ns).id == id && Fills(Last(ns)) && LastFill(before, id) >= 0 {
        FilledAgain(map[], before[LastFill(before, id)].capacity, Last(ns).capacity);
      }
    }
  }

  /** The last line of a place gives it slots if any line does. */
  predicate CleanAt(ns: seq<Node>, id: Id)
  {
    LastFill(ns, id) >= 0 ==> LastFill(ns, id) == LastLine(ns, id)
  }

  lemma CleanEverywhere(ns: seq<Node>, id: Id)
    requires Clean(ns)
    ensures CleanAt(ns, id)
  {
    var i, j := LastLine(ns, id), LastFill(ns, id);
    if j >= 0 {
      assert IsLast(ns, i);
    }
  }

  lemma CleanByPlace(ns: seq<Node>)
    requires forall id :: CleanAt(ns, id)
    ensures Clean(ns)
  {
    forall i, j | 0 <= j < i < |ns| && ns[j].id == ns[i].id && Fills(ns[j]) && IsLast(ns, i) ensures Fills(ns[i]) {
      assert CleanAt(ns, ns[i].id);
      assert LastLine(ns, ns[i].id) == i;
    }
  }

  lemma LoadedAt(ns: seq<Node>, id: Id)
    ensures var lot := LotOf(ns); var full := FreshSlots(lot.nodes);
            && (id in full ==> id in lot.slots)
            && (id in lot.slots && CleanAt(ns, id) ==> id in full && lot.slots[id] == full[id])
            && (id in lot.slots && id in full ==> CleanAt(ns, id))
            && (id !in lot.slots ==> CleanAt(ns, id))
  {
    LotOfAt(ns, id);
  }

  /** Loading leaves exactly the real places with a capacity with slots, all free, exactly if the file is clean. */
  lemma LoadedIsFreshIff(ns: seq<Node>)
    ensures LotOf(ns) == Lot(LotOf(ns).nodes, FreshSlots(LotOf(ns).nodes)) <==> Clean(ns)
  {
    var lot := LotOf(ns);
    var full := FreshSlots(lot.nodes);
    if Clean(ns) {
      forall id: Id
        ensures id in lot.slots <==> id in full
        ensures id in full ==> lot.slots[id] == full[id]
      {
        LoadedAt(ns, id);
        CleanEverywhere(ns, id);
      }
      assert lot.slots == full;
    }
    if lot.slots == full {
      forall id: Id ensures CleanAt(ns, id) {
        LoadedAt(ns, id);
      }
      CleanByPlace(ns);
    }
  }

  datatype Edge = Edge(u: Id, v: Id, w: Id)

  /** All roads the file lists, up to the first that cannot be read. */
  function ReadRoads(text: string): seq<Edge>
    decreases |text|
  {
    match ReadEdge(text)
    case None => []
    case Some((e, rest)) => [e] + ReadRoads(rest)
  }

  function ReadEdge(text: string): (r: Reading<Edge>)
    ensures r.Some? ==> |r.value.1| < |text|
  {
    var u := ReadInt(text);
    if u == None then None else
    var v := ReadInt(u.value.1);
    if v == None then None else
    var w := ReadInt(v.value.1);
    if w == None then None else
    Some((Edge(u.value.0, v.value.0, w.value.0), w.value.1))
  }

  /** One line of the roads file, followed by the rest of the file. */
  function EdgeText(lead: string, gap: string, e: Edge, rest: string): string
  {
    lead + IntText(e.u) + (gap + IntText(e.v) + (gap + IntText(e.w) + rest))
  }

  /** A line names its two places, then the weight, whatever blanks lie before and between them. */
  lemma EdgeRead(lead: string, gap: string, e: Edge, rest: string)
    requires AllSpaces(lead) && IsGap(gap) && (rest == [] || !IsDigit(rest[0]))
    ensures ReadEdge(EdgeText(lead, gap, e, rest)) == Some((e, rest))
    ensures ReadRoads(EdgeText(lead, gap, e, rest)) == [e] + ReadRoads(rest)
  {
    var w := gap + IntText(e.w) + rest;
    var v := gap + IntText(e.v) + w;
    IntRoundTrip(lead, e.u, v);
    IntRoundTrip(gap, e.v, w);
    IntRoundTrip(gap, e.w, rest);
  }

  function RoadsText(es: seq<Edge>): string
  {
    if es == [] then "" else EdgeText("", " ", es[0], "\n" + RoadsText(es[1..]))
  }

  /** A line spelled out. */
  lemma EdgeSpelled(e: Edge, rest: string)
    ensures EdgeText("", " ", e, "\n" + rest) == IntText(e.u) + " " + IntText(e.v) + " " + IntText(e.w) + "\n" + rest
  {
    var u, v, w := IntText(e.u), IntText(e.v), IntText(e.w);
    assert "" + u == u;
    FieldSpelled(u, v, " " + w + ("\n" + rest));
    FieldSpelled(u + " " + v, w, "\n" + rest);
    Regroup(u + " " + v + " " + w, "\n", rest);
  }

  lemma RoadBreakSkipped(rest: string)
    ensures ReadRoads("\n" + rest) == ReadRoads(rest)
  {
    assert ("\n" + rest)[1..] == rest;
    assert SkipSpace("\n" + rest) == SkipSpace(rest);
    assert ReadEdge("\n" + rest) == ReadEdge(rest);
  }

  lemma {:induction false} RoadsRead(es: seq<Edge>)
    ensures ReadRoads(RoadsText(es)) == es
  {
    if es == [] {
      NoRoadToRead();
    } else {
      RoadsRead(es[1..]);
      RoadLineRead(es[0], RoadsText(es[1..]));
    }
  }

  lemma NoRoadToRead()
    ensures ReadRoads("") == []
  {
    assert ReadInt("") == None;
  }

  lemma RoadLineRead(e: Edge, rest: string)
    ensures ReadRoads(EdgeText("", " ", e, "\n" + rest)) == [e] + ReadRoads(rest)
  {
    EdgeRead("", " ", e, "\n" + rest);
    RoadBreakSkipped(rest);
  }

  /** A road is stored at both of its ends. */
  function WithEdge(road: Graph, e: Edge): Graph
  {
    var one := road[e.u := Adjacent(road, e.u) + [(e.v, e.w)]];
    one[e.v := Adjacent(one, e.v) + [(e.u, e.w)]]
  }

  function RoadOf(es: seq<Edge>): Graph
  {
    if es == [] then map[] else WithEdge(RoadOf(es[..|es| - 1]), Last(es))
  }

  /** The graph has exactly the roads listed, each in both directions. */
  lemma {:induction false} RoadOfHolds(es: seq<Edge>, u: Id, v: Id, w: Id)
    ensures (v, w) in Adjacent(RoadOf(es), u) <==> Edge(u, v, w) in es || Edge(v, u, w) in es
  {
    if es == [] {
    } else {
      var before, e := es[..|es| - 1], Last(es);
      RoadOfHolds(before, u, v, w);
      assert es == before + [e];
      var one := RoadOf(before)[e.u := Adjacent(RoadOf(before), e.u) + [(e.v, e.w)]];
      assert (v, w) in Adjacent(one, u)
        <==> (v, w) in Adjacent(RoadOf(before), u) || (u == e.u && (v, w) == (e.v, e.w));
    }
  }

  /** The graph loaded from lines has exactly the roads they list, each in both directions. */
  lemma RoadsLoaded(es: seq<Edge>, u: Id, v: Id, w: Id)
    ensures (v, w) in Adjacent(RoadOf(ReadRoads(RoadsText(es))), u) <==> Edge(u, v, w) in es || Edge(v, u, w) in es
  {
    RoadsRead(es);
    RoadOfHolds(es, u, v, w);
  }

  lemma {:induction false} LoadedIsSymmetric(es: seq<Edge>)
    ensures Symmetric(RoadOf(es))
  {
    forall u: Id, v: Id, w: int | (v, w) in Adjacent(RoadOf(es), u) ensures (u, w) in Adjacent(RoadOf(es), v) {
      WeightIsInt(es, u, v, w);
      RoadOfHolds(es, u, v, w);
      RoadOfHolds(es, v, u, w);
    }
  }

  lemma {:induction false} WeightIsInt(es: seq<Edge>, u: Id, v: Id, w: int)
    requires (v, w) in Adjacent(RoadOf(es), u)
    ensures -0x8000_0000 <= w <= INT_MAX
  {
    var e := Last(es);
    if (v, w) in Adjacent(RoadOf(es[..|es| - 1]), u) {
      WeightIsInt(es[..|es| - 1], u, v, w);
    }
  }
}
