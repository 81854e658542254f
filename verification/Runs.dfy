/** Serial runs of the two handlers that change state, and the ledger law over them. */
module Runs {
  import opened Sequences
  import opened Roads
  import opened Ledger

  /**
   * A handled request. A route request carries the route that the search found for it, a place of -1
   * stands for an unknown name.
   */
  datatype Event =
    | Route(src: Id, dest: Id, startH: int, endH: int, path: seq<Id>)
    | Update(id: Id, newCap: Int32)

  /** Where a route request parks: at its destination, else at the last bookable place of its route. */
  function ParkingNode(lot: Lot, dest: Id, path: seq<Id>, startH: int, endH: int): Id
  {
    if Available(lot, dest, startH, endH) then dest else LastAvailable(lot, path, startH, endH)
  }

  /** The place booked by a route request, if it is granted. */
  function Granted(lot: Lot, e: Event): Option<Id>
    requires e.Route?
  {
    if !ValidHours(e.startH, e.endH) || e.src == -1 || e.dest == -1 || e.path == [] then None
    else
      var p := ParkingNode(lot, e.dest, e.path, e.startH, e.endH);
      if p == -1 then None else Some(p)
  }

  predicate Accepted(lot: Lot, e: Event)
    requires e.Update?
  {
    0 <= e.newCap && Real(lot.nodes, e.id)
  }

  /** The state after one request. */
  function Apply(lot: Lot, e: Event): Lot
  {
    match e
    case Route(_, _, startH, endH, _) =>
      (match Granted(lot, e)
       case None => lot
       case Some(p) => lot.(slots := Reserve(lot.slots, p, startH, endH)))
    case Update(id, newCap) =>
      if Accepted(lot, e) then Ledger.Update(lot, id, newCap) else lot
  }

  function Run(lot: Lot, events: seq<Event>): Lot
  {
    if events == [] then lot else Apply(Run(lot, events[..|events| - 1]), Last(events))
  }

  /**
   * An update of a known real place to a capacity that is not negative sets the capacity, keeps at each hour
   * the bookings that fit, and changes nothing else; any other update changes nothing at all.
   */
  lemma UpdateTakesEffect(lot: Lot, e: Event)
    requires e.Update?
    ensures e.newCap < 0 || !Real(lot.nodes, e.id) ==> Apply(lot, e) == lot
    ensures 0 <= e.newCap && Real(lot.nodes, e.id) ==>
      && Apply(lot, e).nodes == lot.nodes[e.id := lot.nodes[e.id].(capacity := e.newCap)]
      && Updated(lot.slots, Apply(lot, e).slots, e.id, lot.nodes[e.id].capacity, e.newCap)
  {
    if Accepted(lot, e) {
      UpdatedSlots(lot, e.id, e.newCap);
    }
  }

  /** The event sets the capacity of a real place. */
  predicate Sets(e: Event, n: Id)
  {
    e.Update? && e.id == n && 0 <= e.newCap
  }

  predicate SetsLast(events: seq<Event>, n: Id, k: nat)
    requires k < |events|
  {
    Sets(events[k], n) && forall j :: k < j < |events| ==> !Sets(events[j], n)
  }

  lemma SetOrKept(lot: Lot, e: Event, n: Id)
    requires Real(lot.nodes, n)
    ensures Real(Apply(lot, e).nodes, n)
    ensures Apply(lot, e).nodes[n] == if Sets(e, n) then lot.nodes[n].(capacity := e.newCap) else lot.nodes[n]
  {
    ApplyKeepsPlaces(lot, e);
  }

  /** A place that no update sets stays as it was. */
  lemma {:induction false} CapacityIsKept(lot: Lot, events: seq<Event>, n: Id)
    requires Real(lot.nodes, n) && forall k :: 0 <= k < |events| ==> !Sets(events[k], n)
    ensures n in Run(lot, events).nodes && Run(lot, events).nodes[n] == lot.nodes[n]
  {
    if events == [] {
    } else {
      var m := |events| - 1;
      CapacityIsKept(lot, events[..m], n);
      SetOrKept(Run(lot, events[..m]), events[m], n);
    }
  }

  /** The capacity of a place at the end of a run is that of the last update that set it. */
  lemma {:induction false} CapacityIsLast(lot: Lot, events: seq<Event>, n: Id, k: nat)
    requires Real(lot.nodes, n) && k < |events| && SetsLast(events, n, k)
    ensures Real(Run(lot, events).nodes, n) && Run(lot, events).nodes[n].capacity == events[k].newCap
  {
    var m := |events| - 1;
    RunKeepsPlaces(lot, events[..m]);
    SetOrKept(Run(lot, events[..m]), events[m], n);
    if k < m {
      assert SetsLast(events[..m], n, k);
      CapacityIsLast(lot, events[..m], n, k);
    }
  }

  /** Bookings that one request makes on a cell. */
  function BookedBy(lot: Lot, e: Event, n: Id, h: nat): nat
  {
    if e.Route? && Granted(lot, e) == Some(n) && Covers(e.startH, e.endH, h) then 1 else 0
  }

  /** Bookings that one request drops from a cell: those a new capacity no longer holds. */
  function CutBy(lot: Lot, e: Event, n: Id, h: nat): nat
    requires n in lot.nodes
  {
    if e.Update? && Accepted(lot, e) && e.id == n then Max(0, Taken(lot, n, h) - e.newCap) else 0
  }

  function Booked(lot: Lot, events: seq<Event>, n: Id, h: nat): nat
  {
    if events == [] then 0
    else
      var before := events[..|events| - 1];
      Booked(lot, before, n, h) + BookedBy(Run(lot, before), Last(events), n, h)
  }

  function Cut(lot: Lot, events: seq<Event>, n: Id, h: nat): nat
    requires n in lot.nodes
  {
    if events == [] then 0
    else
      var before := events[..|events| - 1];
      RunKeepsPlaces(lot, before);
      Cut(lot, before, n, h) + CutBy(Run(lot, before), Last(events), n, h)
  }

  /** Handlers neither add nor drop a place, nor change anything of it but its capacity. */
  ghost predicate SamePlaces(a: Lot, b: Lot)
  {
    && a.nodes.Keys == b.nodes.Keys
    && forall id :: id in a.nodes ==> a.nodes[id] == b.nodes[id].(capacity := a.nodes[id].capacity)
  }

  lemma ApplyKeepsPlaces(lot: Lot, e: Event)
    ensures SamePlaces(lot, Apply(lot, e))
  {
    assert e.Update? && Accepted(lot, e) ==> Apply(lot, e).nodes.Keys == lot.nodes.Keys;
  }

  lemma {:induction false} RunKeepsPlaces(lot: Lot, events: seq<Event>)
    ensures SamePlaces(lot, Run(lot, events))
  {
    if events == [] {
    } else {
      RunKeepsPlaces(lot, events[..|events| - 1]);
      ApplyKeepsPlaces(Run(lot, events[..|events| - 1]), Last(events));
    }
  }

  lemma ApplyKeepsTidy(lot: Lot, e: Event)
    requires Tidy(lot)
    ensures Tidy(Apply(lot, e))
  {
    match e
    case Route(_, _, startH, endH, _) =>
      if Granted(lot, e).Some? {
        ReserveTidy(lot, Granted(lot, e).value, startH, endH);
      }
    case Update(id, newCap) =>
      if Accepted(lot, e) {
        UpdateTidy(lot, id, newCap);
      }
  }

  /** Over every run 0 <= free <= capacity holds at all hours of all real places. */
  lemma {:induction false} RunKeepsTidy(lot: Lot, events: seq<Event>)
    requires Tidy(lot)
    ensures Tidy(Run(lot, events))
  {
    if events == [] {
    } else {
      RunKeepsTidy(lot, events[..|events| - 1]);
      ApplyKeepsTidy(Run(lot, events[..|events| - 1]), Last(events));
    }
  }

  /** A granted place is bookable at every hour asked for. */
  lemma GrantedIsAvailable(lot: Lot, e: Event)
    requires e.Route? && Granted(lot, e).Some?
    ensures Available(lot, Granted(lot, e).value, e.startH, e.endH)
    ensures Granted(lot, e).value == e.dest || Granted(lot, e).value in e.path
  {
    if !Available(lot, e.dest, e.startH, e.endH) {
      var i := LastAvailableFinds(lot, e.path, e.startH, e.endH);
    }
  }

  /**
   * What one request does to one cell: a granted route lowers each of the hours asked for by exactly
   * one at the place granted, an error lowers nothing.
   */
  lemma ApplyCell(lot: Lot, e: Event, n: Id, h: nat)
    requires Real(lot.nodes, n) && h < HOURS && Tidy(lot)
    ensures n in Apply(lot, e).nodes
    ensures e.Route? ==> Free(Apply(lot, e).slots, n, h) == Free(lot.slots, n, h) - BookedBy(lot, e, n, h)
    ensures e.Route? ==> Apply(lot, e).nodes == lot.nodes
    ensures Taken(Apply(lot, e), n, h) == Taken(lot, n, h) + BookedBy(lot, e, n, h) - CutBy(lot, e, n, h)
  {
    ApplyKeepsPlaces(lot, e);
    match e
    case Route(_, _, startH, endH, _) =>
      if Granted(lot, e).Some? {
        var p := Granted(lot, e).value;
        GrantedIsAvailable(lot, e);
        ReserveCell(lot.slots, p, startH, endH, n, h);
      }
    case Update(id, newCap) =>
      if Accepted(lot, e) {
        UpdateCell(lot, id, newCap, n, h);
      }
  }

  /** Ledger law: bookings made are bookings standing plus bookings cut, on every cell of every run. */
  lemma {:induction false} LedgerBalances(lot: Lot, events: seq<Event>, n: Id, h: nat)
    requires Tidy(lot) && Real(lot.nodes, n) && h < HOURS
    ensures n in Run(lot, events).nodes
    ensures Taken(lot, n, h) + Booked(lot, events, n, h) == Taken(Run(lot, events), n, h) + Cut(lot, events, n, h)
  {
    if events == [] {
    } else {
      var before := events[..|events| - 1];
      LedgerBalances(lot, before, n, h);
      RunKeepsTidy(lot, before);
      RunKeepsPlaces(lot, before);
      ApplyCell(Run(lot, before), Last(events), n, h);
    }
  }

  /** The update, if it is one of this place, leaves room for the bookings standing at the hour. */
  predicate HoldsBookings(lot: Lot, e: Event, n: Id, h: nat)
    requires n in lot.nodes
  {
    e.Update? && Accepted(lot, e) && e.id == n ==> Taken(lot, n, h) <= e.newCap
  }

  ghost predicate RoomAt(lot: Lot, events: seq<Event>, n: Id, h: nat, k: nat)
    requires k < |events|
  {
    n in Run(lot, events[..k]).nodes && HoldsBookings(Run(lot, events[..k]), events[k], n, h)
  }

  /** No update of the run went below the bookings it found at the cell. */
  ghost predicate NeverCut(lot: Lot, events: seq<Event>, n: Id, h: nat)
  {
    forall k {:trigger RoomAt(lot, events, n, h, k)} :: 0 <= k < |events| ==> RoomAt(lot, events, n, h, k)
  }

  lemma {:induction false} CutIsZeroIff(lot: Lot, events: seq<Event>, n: Id, h: nat)
    requires n in lot.nodes
    ensures Cut(lot, events, n, h) == 0 <==> NeverCut(lot, events, n, h)
  {
    if events == [] {
    } else {
      var m := |events| - 1;
      CutIsZeroIff(lot, events[..m], n, h);
      RunKeepsPlaces(lot, events[..m]);
      NeverCutSplits(lot, events, n, h);
    }
  }

  lemma NeverCutSplits(lot: Lot, events: seq<Event>, n: Id, h: nat)
    requires events != []
    ensures NeverCut(lot, events, n, h)
       <==> NeverCut(lot, events[..|events| - 1], n, h) && RoomAt(lot, events, n, h, |events| - 1)
  {
    var before := events[..|events| - 1];
    forall k | 0 <= k < |before| ensures RoomAt(lot, events, n, h, k) <==> RoomAt(lot, before, n, h, k) {
      assert events[..k] == before[..k];
    }
  }

  /** Freshly loaded: every slot of every real place is free. */
  ghost predicate AllFree(lot: Lot)
  {
    forall n, h: nat :: Real(lot.nodes, n) && h < HOURS ==> Free(lot.slots, n, h) == lot.nodes[n].capacity
  }

  /**
   * Bookings plus free slots make up the capacity exactly when no update since loading went below the
   * bookings it found.
   */
  lemma BooksCloseIff(lot: Lot, events: seq<Event>, n: Id, h: nat)
    requires Tidy(lot) && AllFree(lot) && Real(lot.nodes, n) && h < HOURS
    ensures n in Run(lot, events).nodes
    ensures Booked(lot, events, n, h) + Free(Run(lot, events).slots, n, h) == Run(lot, events).nodes[n].capacity
       <==> NeverCut(lot, events, n, h)
  {
    LedgerBalances(lot, events, n, h);
    CutIsZeroIff(lot, events, n, h);
  }
}
