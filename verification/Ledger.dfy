/** Slots per place and hour: when a place can be booked, what a booking and a capacity update do. */
module Ledger {
  import opened Sequences
  import opened Roads

  const HOURS: nat := 24

  /** Free slots of one place by hour. */
  type Hours = map<nat, int>

  type Slots = map<Id, Hours>

  datatype Lot = Lot(nodes: Nodes, slots: Slots)

  predicate ValidHours(startH: int, endH: int)
  {
    0 <= startH < endH <= HOURS
  }

  predicate Covers(startH: int, endH: int, h: nat)
  {
    ValidHours(startH, endH) && startH <= h < endH
  }

  function RowOf(slots: Slots, id: Id): Hours
  {
    if id in slots then slots[id] else map[]
  }

  /** Free slots at a cell; a missing entry reads as zero. */
  function Free(slots: Slots, id: Id, h: nat): int
  {
    if id in slots && h in slots[id] then slots[id][h] else 0
  }

  function Taken(lot: Lot, id: Id, h: nat): int
    requires id in lot.nodes
  {
    lot.nodes[id].capacity - Free(lot.slots, id, h)
  }

  predicate Available(lot: Lot, id: Id, startH: int, endH: int)
  {
    && ValidHours(startH, endH)
    && Real(lot.nodes, id)
    && forall h: nat :: startH <= h < endH ==> 0 < Free(lot.slots, id, h)
  }

  /** Bookable means: hours within the day, a known place that is no ghost, and a slot left at each of the hours. */
  lemma AvailableIff(lot: Lot, id: Id, startH: int, endH: int)
    ensures Available(lot, id, startH, endH)
       <==> && 0 <= startH < endH <= 24
            && id in lot.nodes && !lot.nodes[id].isGhost
            && id in lot.slots
            && forall h: nat :: startH <= h < endH ==> h in lot.slots[id] && 0 < lot.slots[id][h]
  {
    if Available(lot, id, startH, endH) {
      assert 0 < Free(lot.slots, id, startH);
      forall h: nat | startH <= h < endH ensures h in lot.slots[id] && 0 < lot.slots[id][h] {
        assert 0 < Free(lot.slots, id, h);
      }
    }
  }

  /** The place has a slot left at each of the hours. */
  predicate HasSlots(slots: Slots, id: Id, startH: int, endH: int)
  {
    id in slots && forall h: nat :: startH <= h < endH ==> h in slots[id] && 0 < slots[id][h]
  }

  function Reserve(slots: Slots, id: Id, startH: int, endH: int): Slots
  {
    if ValidHours(startH, endH) && id in slots then
      slots[id := map h | h in slots[id] ::
                    if startH <= h < endH && 0 < slots[id][h] then slots[id][h] - 1 else slots[id][h]]
    else slots
  }

  /** Free slots left by a new capacity when the old one had `free` of `oldCap`. */
  function Recut(oldCap: int, free: int, newCap: int): int
  {
    Max(0, newCap - Max(0, oldCap - free))
  }

  function FreeAt(row: Hours, h: nat): int
  {
    if h in row then row[h] else 0
  }

  /** A row with its hours below `n` recut; a missing hour counts as zero free. */
  function RecutRow(row: Hours, oldCap: int, newCap: int, n: nat): Hours
  {
    if n == 0 then row
    else RecutRow(row, oldCap, newCap, n - 1)[n - 1 := Recut(oldCap, FreeAt(row, n - 1), newCap)]
  }

  lemma {:induction false} RecutRowAt(row: Hours, oldCap: int, newCap: int, n: nat, h: nat)
    ensures h in RecutRow(row, oldCap, newCap, n) <==> h in row || h < n
    ensures FreeAt(RecutRow(row, oldCap, newCap, n), h)
         == if h < n then Recut(oldCap, FreeAt(row, h), newCap) else FreeAt(row, h)
  {
    if n == 0 {
    } else {
      RecutRowAt(row, oldCap, newCap, n - 1, h);
    }
  }

  function Update(lot: Lot, id: Id, newCap: int): Lot
  {
    if id !in lot.nodes then lot
    else
      Lot(lot.nodes[id := lot.nodes[id].(capacity := newCap)],
          lot.slots[id := RecutRow(RowOf(lot.slots, id), lot.nodes[id].capacity, newCap, HOURS)])
  }

  /** The last place of the path that can be booked, or -1. */
  function LastAvailable(lot: Lot, path: seq<Id>, startH: int, endH: int): Id
  {
    if path == [] then -1
    else if Available(lot, Last(path), startH, endH) then Last(path)
    else LastAvailable(lot, path[..|path| - 1], startH, endH)
  }

  /**
   * The state that loading establishes and every handler keeps: real places have all 24 hours with
   * 0 <= free <= capacity, or no slots at all and capacity 0; ghosts have none.
   */
  ghost predicate Tidy(lot: Lot)
  {
    && (forall id :: id in lot.slots ==> Real(lot.nodes, id) && forall h: nat :: h in lot.slots[id] <==> h < HOURS)
    && (forall id, h: nat :: Real(lot.nodes, id) && h < HOURS ==>
          0 <= Free(lot.slots, id, h) <= lot.nodes[id].capacity)
    && (forall id :: Real(lot.nodes, id) && id !in lot.slots ==> lot.nodes[id].capacity == 0)
  }

  /** A booking takes one slot from each covered cell that has one, and touches nothing else. */
  lemma ReserveCell(slots: Slots, id: Id, startH: int, endH: int, n: Id, h: nat)
    ensures Free(Reserve(slots, id, startH, endH), n, h)
         == Free(slots, n, h) - if n == id && Covers(startH, endH, h) && 0 < Free(slots, n, h) then 1 else 0
    ensures Reserve(slots, id, startH, endH).Keys == slots.Keys
  {
  }

  /** Booking one hour more is booking that hour after the others. */
  lemma ReserveStep(slots: Slots, id: Id, startH: int, h: int)
    requires 0 <= startH <= h < HOURS && id in slots
    ensures var s := Reserve(slots, id, startH, h);
            id in s && Reserve(slots, id, startH, h + 1)
                    == if h in s[id] && 0 < s[id][h] then s[id := s[id][h := s[id][h] - 1]] else s
  {
    var s, t := Reserve(slots, id, startH, h), Reserve(slots, id, startH, h + 1);
    var row := if h in s[id] && 0 < s[id][h] then s[id][h := s[id][h] - 1] else s[id];
    assert forall g: nat :: g in slots[id] ==> row[g] == t[id][g];
    assert row.Keys == t[id].Keys == slots[id].Keys;
    assert row == t[id];
  }

  lemma ReserveTidy(lot: Lot, id: Id, startH: int, endH: int)
    requires Tidy(lot)
    ensures Tidy(lot.(slots := Reserve(lot.slots, id, startH, endH)))
  {
    forall n, h: nat | Real(lot.nodes, n) && h < HOURS
      ensures 0 <= Free(Reserve(lot.slots, id, startH, endH), n, h) <= lot.nodes[n].capacity
    {
      ReserveCell(lot.slots, id, startH, endH, n, h);
    }
  }

  /** After an update the bookings kept are the old ones as far as the new capacity holds them. */
  lemma UpdateCell(lot: Lot, id: Id, newCap: int, n: Id, h: nat)
    requires id in lot.nodes && n in lot.nodes && h < HOURS
    ensures Update(lot, id, newCap).nodes.Keys == lot.nodes.Keys
    ensures n != id ==> Free(Update(lot, id, newCap).slots, n, h) == Free(lot.slots, n, h)
    ensures n != id ==> Update(lot, id, newCap).nodes[n] == lot.nodes[n]
    ensures Taken(Update(lot, id, newCap), id, h) == Min(Max(0, Taken(lot, id, h)), newCap)
  {
    RecutRowAt(RowOf(lot.slots, id), lot.nodes[id].capacity, newCap, HOURS, h);
  }

  /** What an update does to the slots: the row of the place is recut, the others stay. */
  predicate Updated(before: Slots, after: Slots, id: Id, oldCap: int, newCap: int)
  {
    && after.Keys == before.Keys + {id}
    && (forall n :: n in before && n != id ==> after[n] == before[n])
    && forall h: nat :: h < 24 ==>
      && h in after[id]
      && newCap - after[id][h]
         == Min(Max(0, oldCap - if id in before && h in before[id] then before[id][h] else 0), newCap)
  }

  lemma UpdatedSlots(lot: Lot, id: Id, newCap: int)
    requires id in lot.nodes
    ensures Updated(lot.slots, Update(lot, id, newCap).slots, id, lot.nodes[id].capacity, newCap)
  {
    var cap, row := lot.nodes[id].capacity, RowOf(lot.slots, id);
    forall h: nat | h < 24
      ensures h in RecutRow(row, cap, newCap, HOURS)
      ensures RecutRow(row, cap, newCap, HOURS)[h] == Recut(cap, FreeAt(row, h), newCap)
    {
      RecutRowAt(row, cap, newCap, HOURS, h);
    }
  }

  lemma UpdateTidy(lot: Lot, id: Id, newCap: nat)
    requires Tidy(lot) && Real(lot.nodes, id)
    ensures Tidy(Update(lot, id, newCap))
  {
    var u := Update(lot, id, newCap);
    forall n, h: nat | Real(u.nodes, n) && h < HOURS
      ensures 0 <= Free(u.slots, n, h) <= u.nodes[n].capacity
    {
      UpdateCell(lot, id, newCap, n, h);
      assert Real(lot.nodes, n);
    }
    forall n | n in u.slots ensures Real(u.nodes, n) && forall h: nat :: h in u.slots[n] <==> h < HOURS {
      if n == id {
        forall h: nat ensures h in u.slots[n] <==> h < HOURS {
          RecutRowAt(RowOf(lot.slots, id), lot.nodes[id].capacity, newCap, HOURS, h);
        }
      }
    }
    forall n | Real(u.nodes, n) && n !in u.slots ensures u.nodes[n].capacity == 0 {
      assert Real(lot.nodes, n);
    }
  }

  function UpdateAll(lot: Lot, id: Id, caps: seq<nat>): Lot
  {
    if caps == [] then lot else Update(UpdateAll(lot, id, caps[..|caps| - 1]), id, Last(caps))
  }

  function Least(first: int, caps: seq<nat>): int
  {
    if caps == [] then first else Min(Least(first, caps[..|caps| - 1]), Last(caps))
  }

  /** Updates in a row keep as many bookings as the tightest of them allows, also on a place without slots. */
  lemma {:induction false} UpdatesKeepLeast(lot: Lot, id: Id, caps: seq<nat>, h: nat)
    requires id in lot.nodes && h < HOURS && caps != []
    ensures id in UpdateAll(lot, id, caps).nodes && UpdateAll(lot, id, caps).nodes[id].capacity == Last(caps)
    ensures Taken(UpdateAll(lot, id, caps), id, h) == Least(Max(0, Taken(lot, id, h)), caps)
  {
    var fewer := caps[..|caps| - 1];
    if fewer != [] {
      UpdatesKeepLeast(lot, id, fewer, h);
      LeastIsNat(Max(0, Taken(lot, id, h)), fewer);
    }
    UpdateCell(UpdateAll(lot, id, fewer), id, Last(caps), id, h);
  }

  lemma {:induction false} LeastIsNat(first: nat, caps: seq<nat>)
    ensures 0 <= Least(first, caps)
  {
    if caps == [] {
    } else {
      LeastIsNat(first, caps[..|caps| - 1]);
    }
  }

  /** The scan from the far end finds the last bookable place, and -1 only if there is none or that is its id. */
  lemma {:induction false} LastAvailableFinds(lot: Lot, path: seq<Id>, startH: int, endH: int) returns (i: int)
    ensures -1 <= i < |path|
    ensures forall j :: i < j < |path| ==> !Available(lot, path[j], startH, endH)
    ensures i >= 0 ==> Available(lot, path[i], startH, endH)
    ensures LastAvailable(lot, path, startH, endH) == if i >= 0 then path[i] else -1
  {
    if path == [] {
      i := -1;
    } else if Available(lot, Last(path), startH, endH) {
      i := |path| - 1;
    } else {
      i := LastAvailableFinds(lot, path[..|path| - 1], startH, endH);
      assert path == path[..|path| - 1] + [Last(path)];
    }
  }
}
