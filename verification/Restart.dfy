/** What a run leaves in the places file, and what the next start makes of it. */
module Restart {
  import opened Sequences
  import opened Roads
  import opened Ledger
  import opened Storage
  import opened Runs

  /** The places file after a run: what the last accepted update saved, else what was there before. */
  ghost function FileAfter(round: Rounding, lot: Lot, file: string, events: seq<Event>): string
  {
    if events == [] then file
    else
      var before := events[..|events| - 1];
      if AcceptedUpdate(Run(lot, before), Last(events)) then SaveText(round, Run(lot, events).nodes)
      else FileAfter(round, lot, file, before)
  }

  predicate AcceptedUpdate(lot: Lot, e: Event)
  {
    e.Update? && Accepted(lot, e)
  }

  /** Some update of the run was accepted, so the file was written. */
  predicate Saved(lot: Lot, events: seq<Event>)
  {
    events != []
    && (AcceptedUpdate(Run(lot, events[..|events| - 1]), Last(events)) || Saved(lot, events[..|events| - 1]))
  }

  lemma {:induction false} FileIsSaved(round: Rounding, lot: Lot, file: string, events: seq<Event>)
    ensures FileAfter(round, lot, file, events)
         == if Saved(lot, events) then SaveText(round, Run(lot, events).nodes) else file
    ensures !Saved(lot, events) ==> Run(lot, events).nodes == lot.nodes
  {
    if events == [] {
    } else {
      FileIsSaved(round, lot, file, events[..|events| - 1]);
      if !AcceptedUpdate(Run(lot, events[..|events| - 1]), Last(events)) {
        OnlyUpdatesSave(Run(lot, events[..|events| - 1]), Last(events));
      }
    }
  }

  lemma OnlyUpdatesSave(lot: Lot, e: Event)
    requires !AcceptedUpdate(lot, e)
    ensures Apply(lot, e).nodes == lot.nodes
  {
  }

  /** Loaded places, which runs change only within the values a place can have after loading. */
  ghost predicate Storable(nodes: Nodes)
  {
    KeysAreIds(nodes) && forall k :: k in nodes ==> Writable(nodes[k])
  }

  lemma {:induction false} RunKeepsStorable(lot: Lot, events: seq<Event>)
    requires Storable(lot.nodes)
    ensures Storable(Run(lot, events).nodes)
  {
    if events == [] {
    } else {
      var before := Run(lot, events[..|events| - 1]);
      RunKeepsStorable(lot, events[..|events| - 1]);
      match Last(events)
      case Route(_, _, _, _, _) =>
      case Update(id, newCap) =>
        if Accepted(before, Last(events)) {
          UpdateKeepsStorable(before.nodes, id, newCap);
        }
    }
  }

  lemma UpdateKeepsStorable(nodes: Nodes, id: Id, newCap: Int32)
    requires Storable(nodes) && id in nodes
    ensures Storable(nodes[id := nodes[id].(capacity := newCap)])
  {
  }

  /** The places as the next start finds them: rounded if they were saved. */
  function PlacesAfter(round: Rounding, lot: Lot, events: seq<Event>): Nodes
  {
    if Saved(lot, events) then AllShown(round, Run(lot, events).nodes) else Run(lot, events).nodes
  }

  /**
   * A restart after any run finds every place with the capacity it had at the end, and it finds all slots
   * free exactly if an update was saved or the first file was clean.
   */
  lemma RestartForgetsBookings(round: Rounding, text: string, events: seq<Event>)
    ensures var lot := LotOf(ReadNodes(text));
            var end, again := Run(lot, events), LotOf(ReadNodes(FileAfter(round, lot, text, events)));
            && again.nodes == PlacesAfter(round, lot, events)
            && (again.slots == FreshSlots(end.nodes) <==> Saved(lot, events) || Clean(ReadNodes(text)))
            && (!Saved(lot, events) ==> again == lot)
  {
    var ns := ReadNodes(text);
    var lot := LotOf(ns);
    FileIsSaved(round, lot, text, events);
    if Saved(lot, events) {
      LotOfHolds(ns);
      RunKeepsStorable(lot, events);
      SaveLoadRoundTrip(round, Run(lot, events).nodes);
    } else {
      LoadedIsFreshIff(ns);
    }
  }

  /** Only coordinates can differ from those at the end, and none does if all were written exactly. */
  lemma PlacesAfterKeep(round: Rounding, lot: Lot, events: seq<Event>)
    ensures PlacesAfter(round, lot, events).Keys == Run(lot, events).nodes.Keys
    ensures forall k :: k in Run(lot, events).nodes ==>
      var n := Run(lot, events).nodes[k]; PlacesAfter(round, lot, events)[k].(x := n.x, y := n.y) == n
    ensures PlacesAfter(round, lot, events) == Run(lot, events).nodes
       <==> !Saved(lot, events) || WrittenExactly(round, lot.nodes)
  {
    var end := Run(lot, events).nodes;
    RunKeepsPlaces(lot, events);
    ShownIsSameIff(round, end);
    assert forall k :: k in end ==> end[k].x == lot.nodes[k].x && end[k].y == lot.nodes[k].y;
  }

  /** The last line of no real place has a negative capacity. */
  predicate NoNegativeLast(ns: seq<Node>)
  {
    forall i :: 0 <= i < |ns| && IsLast(ns, i) && !ns[i].isGhost ==> 0 <= ns[i].capacity
  }

  lemma LastIsLoaded(ns: seq<Node>, i: nat)
    requires i < |ns| && IsLast(ns, i)
    ensures ns[i].id in LotOf(ns).nodes && LotOf(ns).nodes[ns[i].id] == ns[i]
  {
    LotOfAt(ns, ns[i].id);
    assert LastLine(ns, ns[i].id) == i;
  }

  lemma LoadedIsLast(ns: seq<Node>, k: Id) returns (i: nat)
    requires k in LotOf(ns).nodes
    ensures i < |ns| && IsLast(ns, i) && LotOf(ns).nodes[k] == ns[i]
  {
    LotOfAt(ns, k);
    i := LastLine(ns, k);
  }

  lemma NoNegativeLoaded(ns: seq<Node>)
    requires NoNegativeLast(ns)
    ensures forall k :: Real(LotOf(ns).nodes, k) ==> 0 <= LotOf(ns).nodes[k].capacity
  {
    forall k | Real(LotOf(ns).nodes, k) ensures 0 <= LotOf(ns).nodes[k].capacity {
      var i := LoadedIsLast(ns, k);
    }
  }

  /** Loading ends in the state that every run keeps, with all slots free, exactly for these files. */
  lemma LoadedIsTidyIff(ns: seq<Node>)
    ensures Tidy(LotOf(ns)) && AllFree(LotOf(ns)) <==> Clean(ns) && NoNegativeLast(ns)
  {
    if Clean(ns) && NoNegativeLast(ns) {
      NoNegativeLoaded(ns);
      LoadedIsFreshIff(ns);
      FreshIsTidy(LotOf(ns).nodes);
    }
    if Tidy(LotOf(ns)) && AllFree(LotOf(ns)) {
      forall id: Id ensures CleanAt(ns, id) {
        TidyIsClean(ns, id);
      }
      CleanByPlace(ns);
      TidyIsNotNegative(ns);
    }
  }

  lemma TidyIsClean(ns: seq<Node>, id: Id)
    requires Tidy(LotOf(ns)) && AllFree(LotOf(ns))
    ensures CleanAt(ns, id)
  {
    LotOfAt(ns, id);
    if LastFill(ns, id) >= 0 {
      assert Real(LotOf(ns).nodes, id);
      assert Free(LotOf(ns).slots, id, 0) == ns[LastFill(ns, id)].capacity;
      assert Fills(ns[LastLine(ns, id)]);
    }
  }

  lemma TidyIsNotNegative(ns: seq<Node>)
    requires Tidy(LotOf(ns))
    ensures NoNegativeLast(ns)
  {
    forall i | 0 <= i < |ns| && IsLast(ns, i) && !ns[i].isGhost ensures 0 <= ns[i].capacity {
      LastIsLoaded(ns, i);
      assert 0 <= Free(LotOf(ns).slots, ns[i].id, 0) <= LotOf(ns).nodes[ns[i].id].capacity;
    }
  }
}
