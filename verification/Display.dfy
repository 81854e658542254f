/** The drawn route: ghost places from a table are put between the real places of a route. */
module Display {
  import opened Sequences
  import opened Roads

  type Table = map<(Id, Id), seq<Id>>

  function Between(table: Table, a: Id, b: Id): seq<Id>
  {
    if (a, b) in table then table[(a, b)] else []
  }

  /** The table after one more entry, which is stored for both directions. */
  function WithPath(table: Table, a: Id, b: Id, ghosts: seq<Id>): Table
  {
    table[(a, b) := ghosts][(b, a) := Reversed(ghosts)]
  }

  datatype Entry = Entry(a: Id, b: Id, ghosts: seq<Id>)

  function TableOf(entries: seq<Entry>): Table
  {
    if entries == [] then map[]
    else
      var e := Last(entries);
      WithPath(TableOf(entries[..|entries| - 1]), e.a, e.b, e.ghosts)
  }

  function Drawn(table: Table, path: seq<Id>): seq<Id>
  {
    if |path| <= 1 then path
    else [path[0]] + Between(table, path[0], path[1]) + Drawn(table, path[1..])
  }

  /** One turn of the drawing loop. */
  lemma DrawnTurn(table: Table, drawn: seq<Id>, path: seq<Id>, i: nat)
    requires i + 1 < |path|
    ensures drawn + [path[i]] + Between(table, path[i], path[i + 1]) + Drawn(table, path[i + 1..])
         == drawn + Drawn(table, path[i..])
  {
    assert path[i..][1..] == path[i + 1..];
  }

  /** The entry is about these two places, in one direction or the other. */
  predicate Names(e: Entry, a: Id, b: Id)
  {
    (e.a == a && e.b == b) || (e.a == b && e.b == a)
  }

  /** No later entry is about the same two places. */
  predicate IsLastEntry(entries: seq<Entry>, i: nat)
    requires i < |entries|
  {
    forall j :: i < j < |entries| ==> !Names(entries[j], entries[i].a, entries[i].b)
  }

  /** The table has the last entry for each two places, from both sides, and nothing else. */
  ghost predicate HoldsEntries(table: Table, entries: seq<Entry>)
  {
    && (forall i {:trigger IsLastEntry(entries, i)} :: 0 <= i < |entries| && IsLastEntry(entries, i) ==>
          HoldsEntry(table, entries[i]))
    && forall a: Id, b: Id :: (a, b) in table <==> exists i :: 0 <= i < |entries| && Names(entries[i], a, b)
  }

  ghost predicate HoldsEntry(table: Table, e: Entry)
  {
    && (e.b, e.a) in table && table[(e.b, e.a)] == Reversed(e.ghosts)
    && (e.a, e.b) in table && (e.a != e.b ==> table[(e.a, e.b)] == e.ghosts)
  }

  lemma {:induction false} TableHoldsLast(entries: seq<Entry>, i: nat)
    requires i < |entries| && IsLastEntry(entries, i)
    ensures var e, table := entries[i], TableOf(entries);
            && (e.b, e.a) in table && table[(e.b, e.a)] == Reversed(e.ghosts)
            && (e.a, e.b) in table && (e.a != e.b ==> table[(e.a, e.b)] == e.ghosts)
  {
    var m := |entries| - 1;
    if i == m {
    } else {
      var before := entries[..m];
      assert before[i] == entries[i] && !Names(entries[m], entries[i].a, entries[i].b);
      assert forall j :: i < j < m ==> before[j] == entries[j];
      TableHoldsLast(before, i);
    }
  }

  lemma {:induction false} TableHoldsOnly(entries: seq<Entry>, a: Id, b: Id)
    ensures (a, b) in TableOf(entries) <==> exists i :: 0 <= i < |entries| && Names(entries[i], a, b)
  {
    if entries == [] {
    } else {
      var m := |entries| - 1;
      TableHoldsOnly(entries[..m], a, b);
      if i :| 0 <= i < m && Names(entries[..m][i], a, b) {
        assert Names(entries[i], a, b);
      }
      if i :| 0 <= i < |entries| && Names(entries[i], a, b) {
        assert i < m ==> Names(entries[..m][i], a, b);
        assert i == m ==> Names(Last(entries), a, b);
      }
    }
  }

  lemma TableHoldsEntries(entries: seq<Entry>)
    ensures HoldsEntries(TableOf(entries), entries)
  {
    forall i | 0 <= i < |entries| && IsLastEntry(entries, i) ensures HoldsEntry(TableOf(entries), entries[i]) {
      TableHoldsLast(entries, i);
    }
    forall a: Id, b: Id
      ensures (a, b) in TableOf(entries) <==> exists i :: 0 <= i < |entries| && Names(entries[i], a, b)
    {
      TableHoldsOnly(entries, a, b);
    }
  }

  /** What lies between two places, seen from the other side, is the same in reverse. */
  ghost predicate Mirrored(table: Table)
  {
    forall a, b :: Between(table, b, a) == Reversed(Between(table, a, b))
  }

  /** An entry keeps the table mirrored exactly if its ends differ or it reads the same both ways. */
  lemma WithPathMirrored(table: Table, a: Id, b: Id, ghosts: seq<Id>)
    requires Mirrored(table)
    ensures Mirrored(WithPath(table, a, b, ghosts)) <==> a != b || ghosts == Reversed(ghosts)
  {
    var t := WithPath(table, a, b, ghosts);
    ReversedTwice(ghosts);
    if a != b || ghosts == Reversed(ghosts) {
      forall x: Id, y: Id ensures Between(t, y, x) == Reversed(Between(t, x, y)) {
        WithPathAt(table, a, b, ghosts, x, y);
        WithPathAt(table, a, b, ghosts, y, x);
      }
    } else {
      WithPathAt(table, a, b, ghosts, a, a);
      assert Mirrored(t) ==> Between(t, a, a) == Reversed(Between(t, a, a));
    }
  }

  lemma WithPathAt(table: Table, a: Id, b: Id, ghosts: seq<Id>, x: Id, y: Id)
    ensures Between(WithPath(table, a, b, ghosts), x, y)
         == if x == b && y == a then Reversed(ghosts) else if x == a && y == b then ghosts else Between(table, x, y)
  {
  }

  lemma {:induction false} TableIsMirrored(entries: seq<Entry>)
    requires forall i :: 0 <= i < |entries| ==> entries[i].a != entries[i].b
    ensures Mirrored(TableOf(entries))
  {
    if entries == [] {
    } else {
      var before := entries[..|entries| - 1];
      TableIsMirrored(before);
      WithPathMirrored(TableOf(before), Last(entries).a, Last(entries).b, Last(entries).ghosts);
    }
  }

  /** Whatever is entered, two different places have each other's reverse between them. */
  lemma {:induction false} OffDiagonalMirrored(entries: seq<Entry>, a: Id, b: Id)
    requires a != b
    ensures Between(TableOf(entries), b, a) == Reversed(Between(TableOf(entries), a, b))
  {
    if entries == [] {
    } else {
      var e := Last(entries);
      OffDiagonalMirrored(entries[..|entries| - 1], a, b);
      ReversedTwice(e.ghosts);
    }
  }

  /** A table is mirrored exactly if what it has between a place and itself reads the same both ways. */
  lemma TableIsMirroredIff(entries: seq<Entry>)
    ensures Mirrored(TableOf(entries))
       <==> forall a :: Between(TableOf(entries), a, a) == Reversed(Between(TableOf(entries), a, a))
  {
    forall a: Id, b: Id | a != b
      ensures Between(TableOf(entries), b, a) == Reversed(Between(TableOf(entries), a, b))
    {
      OffDiagonalMirrored(entries, a, b);
    }
  }

  /** A route drawn in two pieces has the ghosts between the pieces in the middle. */
  lemma {:induction false} DrawnInPieces(table: Table, p: seq<Id>, q: seq<Id>)
    requires p != [] && q != []
    ensures Drawn(table, p + q) == Drawn(table, p) + Between(table, Last(p), q[0]) + Drawn(table, q)
  {
    if |p| == 1 {
      DrawnFirst(table, p[0], q);
      assert p == [p[0]];
    } else {
      var turn := [p[0]] + Between(table, p[0], p[1]);
      var middle, rest := Between(table, Last(p), q[0]), Drawn(table, p[1..]);
      DrawnInPieces(table, p[1..], q);
      assert Last(p[1..]) == Last(p);
      assert Drawn(table, p) == turn + rest;
      DrawnLonger(table, p, q);
      Regroup(turn, rest, middle);
      Regroup(turn, rest + middle, Drawn(table, q));
    }
  }

  lemma DrawnFirst(table: Table, a: Id, q: seq<Id>)
    requires q != []
    ensures Drawn(table, [a] + q) == Drawn(table, [a]) + Between(table, a, q[0]) + Drawn(table, q)
  {
    assert ([a] + q)[1..] == q;
  }

  lemma DrawnLonger(table: Table, p: seq<Id>, q: seq<Id>)
    requires |p| > 1
    ensures Drawn(table, p + q) == [p[0]] + Between(table, p[0], p[1]) + Drawn(table, p[1..] + q)
  {
    assert (p + q)[1..] == p[1..] + q;
  }

  /** The way back is drawn as the way out in reverse. */
  ghost predicate DrawnBothWays(table: Table, p: seq<Id>)
  {
    Drawn(table, Reversed(p)) == Reversed(Drawn(table, p))
  }

  /** What lies between two stops in turn, seen from the other side, is the same in reverse. */
  ghost predicate MirroredAlong(table: Table, p: seq<Id>)
  {
    forall i :: 0 <= i < |p| - 1 ==> Between(table, p[i + 1], p[i]) == Reversed(Between(table, p[i], p[i + 1]))
  }

  lemma {:induction false} DrawnReversed(table: Table, p: seq<Id>)
    requires MirroredAlong(table, p)
    ensures DrawnBothWays(table, p)
  {
    if |p| <= 1 {
      assert Reversed(p) == p;
    } else {
      var rest := p[1..];
      var mid := Between(table, p[0], p[1]);
      forall i | 0 <= i < |rest| - 1
        ensures Between(table, rest[i + 1], rest[i]) == Reversed(Between(table, rest[i], rest[i + 1]))
      {
        assert rest[i] == p[i + 1] && rest[i + 1] == p[i + 1 + 1];
      }
      DrawnReversed(table, rest);
      ReversedHead(p);
      DrawnInPieces(table, Reversed(rest), [p[0]]);
      assert Last(Reversed(rest)) == p[1];
      assert Between(table, p[0 + 1], p[0]) == Reversed(mid);
      ReversedEnds(p[0], mid, Drawn(table, rest));
    }
  }

  /** A mirrored table is not only enough for that but needed. */
  lemma DrawnReversedIff(table: Table)
    ensures Mirrored(table) <==> forall p :: DrawnBothWays(table, p)
  {
    if Mirrored(table) {
      forall p ensures DrawnBothWays(table, p) {
        DrawnReversed(table, p);
      }
    } else {
      var a, b :| Between(table, b, a) != Reversed(Between(table, a, b));
      var p := [a, b];
      if DrawnBothWays(table, p) {
        PairReversed(table, a, b);
      }
    }
  }

  lemma PairReversed(table: Table, a: Id, b: Id)
    requires DrawnBothWays(table, [a, b])
    ensures Between(table, b, a) == Reversed(Between(table, a, b))
  {
    var there, back := Between(table, a, b), Between(table, b, a);
    DrawnPair(table, a, b);
    DrawnPair(table, b, a);
    ReversedEnds(a, there, [b]);
    assert Reversed([b]) == [b] && Reversed([a, b]) == [b, a];
    SameMiddle(b, back, Reversed(there), a);
  }

  lemma SameMiddle(b: Id, s: seq<Id>, t: seq<Id>, a: Id)
    requires [b] + s + [a] == [b] + t + [a]
    ensures s == t
  {
    assert s == ([b] + s + [a])[1..|s| + 1];
    assert t == ([b] + t + [a])[1..|t| + 1];
  }

  lemma DrawnPair(table: Table, a: Id, b: Id)
    ensures Drawn(table, [a, b]) == [a] + Between(table, a, b) + [b]
  {
    assert [a, b][1..] == [b];
  }

  /** Two places with an entry are drawn with its ghosts between them, in the order of the direction. */
  lemma EntryIsDrawn(entries: seq<Entry>, i: nat)
    requires i < |entries| && IsLastEntry(entries, i) && entries[i].a != entries[i].b
    ensures var e := entries[i];
            && Drawn(TableOf(entries), [e.a, e.b]) == [e.a] + e.ghosts + [e.b]
            && Drawn(TableOf(entries), [e.b, e.a]) == [e.b] + Reversed(e.ghosts) + [e.a]
  {
    TableHoldsLast(entries, i);
    DrawnPair(TableOf(entries), entries[i].a, entries[i].b);
    DrawnPair(TableOf(entries), entries[i].b, entries[i].a);
  }

  lemma ReversedHead(p: seq<Id>)
    requires p != []
    ensures Reversed(p) == Reversed(p[1..]) + [p[0]]
  {
  }

  lemma ReversedEnds(a: Id, mid: seq<Id>, tail: seq<Id>)
    ensures Reversed([a] + mid + tail) == Reversed(tail) + Reversed(mid) + [a]
  {
    ReversedConcat([a] + mid, tail);
    ReversedConcat([a], mid);
    assert Reversed([a]) == [a];
  }

  /** A drawn prefix of a route is a prefix of the drawn route. */
  lemma DrawnPrefix(table: Table, p: seq<Id>, k: nat)
    requires k <= |p|
    ensures Drawn(table, p[..k]) <= Drawn(table, p)
  {
    if k == |p| {
      assert p[..k] == p;
    } else if k > 0 {
      DrawnInPieces(table, p[..k], p[k..]);
      assert p == p[..k] + p[k..];
    }
  }

  /** Delete what is not a real place. */
  function KeepReal(nodes: Nodes, s: seq<Id>): seq<Id>
  {
    if s == [] then []
    else KeptHead(nodes, s[0]) + KeepReal(nodes, s[1..])
  }

  function KeptHead(nodes: Nodes, v: Id): seq<Id>
  {
    if Real(nodes, v) then [v] else []
  }

  lemma {:induction false} KeepRealConcat(nodes: Nodes, a: seq<Id>, b: seq<Id>)
    ensures KeepReal(nodes, a + b) == KeepReal(nodes, a) + KeepReal(nodes, b)
  {
    if a == [] {
      assert a + b == b;
    } else {
      KeepRealConcat(nodes, a[1..], b);
      KeepRealLonger(nodes, a, b);
      Regroup(KeptHead(nodes, a[0]), KeepReal(nodes, a[1..]), KeepReal(nodes, b));
    }
  }

  lemma KeepRealLonger(nodes: Nodes, a: seq<Id>, b: seq<Id>)
    requires a != []
    ensures KeepReal(nodes, a + b) == KeptHead(nodes, a[0]) + KeepReal(nodes, a[1..] + b)
  {
    assert (a + b)[1..] == a[1..] + b;
  }

  ghost predicate AllReal(nodes: Nodes, p: seq<Id>)
  {
    forall i :: 0 <= i < |p| ==> Real(nodes, p[i])
  }

  /** Nothing real is ever drawn between two real places. */
  ghost predicate OnlyGhosts(nodes: Nodes, table: Table)
  {
    forall a, b :: Real(nodes, a) && Real(nodes, b) ==> KeepReal(nodes, Between(table, a, b)) == []
  }

  lemma {:induction false} DrawnProjects(nodes: Nodes, table: Table, p: seq<Id>)
    requires OnlyGhosts(nodes, table) && AllReal(nodes, p)
    ensures KeepReal(nodes, Drawn(table, p)) == p
  {
    if |p| == 1 {
      KeepRealOne(nodes, p[0]);
      assert p == [p[0]];
    } else if |p| > 1 {
      var rest := p[1..];
      DrawnProjects(nodes, table, rest);
      KeepRealOne(nodes, p[0]);
      KeepRealConcat(nodes, [p[0]], Between(table, p[0], p[1]));
      KeepRealConcat(nodes, [p[0]] + Between(table, p[0], p[1]), Drawn(table, rest));
      assert p == [p[0]] + [] + rest;
    }
  }

  lemma KeepRealOne(nodes: Nodes, v: Id)
    requires Real(nodes, v)
    ensures KeepReal(nodes, [v]) == [v]
  {
    assert [v][1..] == [];
  }

  /** Deleting the ghosts gives back the route for every real route, exactly if only ghosts lie between. */
  lemma DrawnProjectsIff(nodes: Nodes, table: Table)
    ensures OnlyGhosts(nodes, table)
       <==> forall p :: AllReal(nodes, p) ==> KeepReal(nodes, Drawn(table, p)) == p
  {
    if OnlyGhosts(nodes, table) {
      forall p | AllReal(nodes, p) ensures KeepReal(nodes, Drawn(table, p)) == p {
        DrawnProjects(nodes, table, p);
      }
    } else {
      var a, b :| Real(nodes, a) && Real(nodes, b) && KeepReal(nodes, Between(table, a, b)) != [];
      var mid := Between(table, a, b);
      assert Drawn(table, [a, b]) == [a] + mid + [b];
      KeepRealConcat(nodes, [a] + mid, [b]);
      KeepRealConcat(nodes, [a], mid);
      assert |KeepReal(nodes, [a])| == 1 && |KeepReal(nodes, [b])| == 1;
      assert AllReal(nodes, [a, b]);
    }
  }

  /** Different real routes are drawn differently. */
  lemma DrawnIsInjective(nodes: Nodes, table: Table, p: seq<Id>, q: seq<Id>)
    requires OnlyGhosts(nodes, table) && AllReal(nodes, p) && AllReal(nodes, q)
    requires Drawn(table, p) == Drawn(table, q)
    ensures p == q
  {
    DrawnProjects(nodes, table, p);
    DrawnProjects(nodes, table, q);
  }

  lemma {:induction false} NoneKept(nodes: Nodes, s: seq<Id>)
    requires forall i :: 0 <= i < |s| ==> !Real(nodes, s[i])
    ensures KeepReal(nodes, s) == []
  {
    if s == [] {
    } else {
      NoneKept(nodes, s[1..]);
    }
  }

  /** The table holds known places only. */
  ghost predicate HoldsKnown(nodes: Nodes, table: Table)
  {
    forall key, i :: key in table && 0 <= i < |table[key]| ==> table[key][i] in nodes
  }

  lemma {:induction false} TableHoldsKnown(nodes: Nodes, entries: seq<Entry>)
    requires forall i, j :: 0 <= i < |entries| && 0 <= j < |entries[i].ghosts| ==> entries[i].ghosts[j] in nodes
    ensures HoldsKnown(nodes, TableOf(entries))
  {
    if entries == [] {
    } else {
      TableHoldsKnown(nodes, entries[..|entries| - 1]);
      var ghosts := entries[|entries| - 1].ghosts;
      assert forall j :: 0 <= j < |ghosts| ==> ghosts[j] in nodes;
    }
  }

  /** The table holds known ghosts only. */
  ghost predicate HoldsGhosts(nodes: Nodes, table: Table)
  {
    forall key, i :: key in table && 0 <= i < |table[key]| ==> table[key][i] in nodes && nodes[table[key][i]].isGhost
  }

  lemma {:induction false} TableHoldsGhosts(nodes: Nodes, entries: seq<Entry>)
    requires forall i, j :: 0 <= i < |entries| && 0 <= j < |entries[i].ghosts| ==>
      entries[i].ghosts[j] in nodes && nodes[entries[i].ghosts[j]].isGhost
    ensures HoldsGhosts(nodes, TableOf(entries))
  {
    if entries == [] {
    } else {
      TableHoldsGhosts(nodes, entries[..|entries| - 1]);
      var ghosts := entries[|entries| - 1].ghosts;
      assert forall j :: 0 <= j < |ghosts| ==> ghosts[j] in nodes && nodes[ghosts[j]].isGhost;
    }
  }

  lemma GhostTableIsOnlyGhosts(nodes: Nodes, table: Table)
    requires HoldsGhosts(nodes, table)
    ensures OnlyGhosts(nodes, table) && HoldsKnown(nodes, table)
  {
    forall a, b | Real(nodes, a) && Real(nodes, b) ensures KeepReal(nodes, Between(table, a, b)) == [] {
      NoneKept(nodes, Between(table, a, b));
    }
  }

  /** Every place drawn is known if the route and the table hold only known places. */
  lemma {:induction false} DrawnIsKnown(nodes: Nodes, table: Table, p: seq<Id>)
    requires forall i :: 0 <= i < |p| ==> p[i] in nodes
    requires HoldsKnown(nodes, table)
    ensures forall i :: 0 <= i < |Drawn(table, p)| ==> Drawn(table, p)[i] in nodes
  {
    if |p| <= 1 {
    } else {
      DrawnIsKnown(nodes, table, p[1..]);
    }
  }
}
