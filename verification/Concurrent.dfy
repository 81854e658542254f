/**
 * Route requests served by several threads: each availability check and each booking is atomic, but
 * other requests may come between the two. No capacity update takes place.
 */
module Concurrent {
  import opened Sequences
  import opened Roads
  import opened Ledger

  /** A request with the route its search found. */
  datatype Request = Request(dest: Id, startH: int, endH: int, path: seq<Id>)

  /** Requests with bad hours, unknown names or without a route are answered before any check. */
  predicate Admitted(r: Request)
  {
    ValidHours(r.startH, r.endH) && r.dest != -1 && r.path != [] && r.path[0] != -1 && Last(r.path) == r.dest
  }

  /** How far a request is: next to check `path[i]`, holding a place it saw free, or answered. */
  datatype Phase =
    | Scanning(i: int)
    | Holding(place: Id)
    | Granted(place: Id)
    | Refused

  datatype Thread = Thread(request: Request, phase: Phase)

  /** Threads are numbered in order of arrival. */
  datatype State = State(lot: Lot, threads: seq<Thread>)

  ghost predicate Start(s: State)
  {
    s.threads == [] && Tidy(s.lot)
  }

  /** A request arrives and checks its destination. */
  function Arrive(s: State, r: Request): State
  {
    var phase := if Available(s.lot, r.dest, r.startH, r.endH) then Holding(r.dest) else Scanning(|r.path| - 1);
    s.(threads := s.threads + [Thread(r, phase)])
  }

  /** The scan of the route checks its next place; -1 found or nothing left means refusal. */
  function Scan(s: State, t: nat): State
    requires t < |s.threads| && s.threads[t].phase.Scanning?
  {
    var Thread(r, Scanning(i)) := s.threads[t];
    var phase :=
      if i < 0 || i >= |r.path| then Refused
      else if !Available(s.lot, r.path[i], r.startH, r.endH) then Scanning(i - 1)
      else if r.path[i] == -1 then Refused
      else Holding(r.path[i]);
    s.(threads := s.threads[t := Thread(r, phase)])
  }

  /** A thread that saw its place free books it, whether or not it still is. */
  function Book(s: State, t: nat): State
    requires t < |s.threads| && s.threads[t].phase.Holding?
  {
    var Thread(r, Holding(p)) := s.threads[t];
    State(s.lot.(slots := Reserve(s.lot.slots, p, r.startH, r.endH)), s.threads[t := Thread(r, Granted(p))])
  }

  ghost predicate Step(s: State, u: State)
  {
    || (exists r: Request :: Admitted(r) && u == Arrive(s, r))
    || (exists t: nat :: t < |s.threads| && s.threads[t].phase.Scanning? && u == Scan(s, t))
    || (exists t: nat :: t < |s.threads| && s.threads[t].phase.Holding? && u == Book(s, t))
  }

  ghost predicate IsRun(run: seq<State>)
  {
    && run != [] && Start(run[0])
    && forall k :: 0 <= k < |run| - 1 ==> Step(run[k], run[k + 1])
  }

  predicate HoldsCell(t: Thread, n: Id, h: nat)
  {
    t.phase == Holding(n) && Covers(t.request.startH, t.request.endH, h)
  }

  predicate BookedCell(t: Thread, n: Id, h: nat)
  {
    t.phase == Granted(n) && Covers(t.request.startH, t.request.endH, h)
  }

  /** Threads between their check and their booking of a cell. */
  function Pending(threads: seq<Thread>, n: Id, h: nat): nat
  {
    if threads == [] then 0
    else Pending(threads[..|threads| - 1], n, h) + if HoldsCell(Last(threads), n, h) then 1 else 0
  }

  /** Bookings granted on a cell. */
  function Grants(threads: seq<Thread>, n: Id, h: nat): nat
  {
    if threads == [] then 0
    else Grants(threads[..|threads| - 1], n, h) + if BookedCell(Last(threads), n, h) then 1 else 0
  }

  lemma {:induction false} CountsAfter(threads: seq<Thread>, t: nat, x: Thread, n: Id, h: nat)
    requires t < |threads|
    ensures Pending(threads[t := x], n, h) == Pending(threads, n, h)
              - (if HoldsCell(threads[t], n, h) then 1 else 0) + (if HoldsCell(x, n, h) then 1 else 0)
    ensures Grants(threads[t := x], n, h) == Grants(threads, n, h)
              - (if BookedCell(threads[t], n, h) then 1 else 0) + (if BookedCell(x, n, h) then 1 else 0)
  {
    var m := |threads| - 1;
    if t == m {
      assert threads[t := x][..m] == threads[..m];
    } else {
      CountsAfter(threads[..m], t, x, n, h);
      assert threads[t := x][..m] == threads[..m][t := x];
    }
  }

  lemma CountsAppended(threads: seq<Thread>, x: Thread, n: Id, h: nat)
    ensures Pending(threads + [x], n, h) == Pending(threads, n, h) + (if HoldsCell(x, n, h) then 1 else 0)
    ensures Grants(threads + [x], n, h) == Grants(threads, n, h) + (if BookedCell(x, n, h) then 1 else 0)
  {
    assert (threads + [x])[..|threads|] == threads;
  }

  /** What a cell shows: free slots are what grants have left of the initial ones. */
  ghost predicate CellOk(initial: State, s: State, n: Id, h: nat, width: nat)
  {
    && s.lot.nodes == initial.lot.nodes
    && Free(s.lot.slots, n, h) == Max(0, Free(initial.lot.slots, n, h) - Grants(s.threads, n, h))
    && (Pending(s.threads, n, h) + Grants(s.threads, n, h) == 0
        || Pending(s.threads, n, h) + Grants(s.threads, n, h) <= Free(initial.lot.slots, n, h) + width - 1)
  }

  lemma CheckKeepsCell(initial: State, s: State, n: Id, h: nat, width: nat, threads: seq<Thread>, p: Id, r: Request)
    requires Tidy(initial.lot) && CellOk(initial, s, n, h, width)
    requires Available(s.lot, p, r.startH, r.endH)
    requires Grants(threads, n, h) == Grants(s.threads, n, h)
    requires Pending(threads, n, h)
          == Pending(s.threads, n, h) + if p == n && Covers(r.startH, r.endH, h) then 1 else 0
    requires Pending(threads, n, h) <= width
    ensures CellOk(initial, s.(threads := threads), n, h, width)
  {
    if p == n && Covers(r.startH, r.endH, h) {
      assert 0 < Free(s.lot.slots, n, h);
    }
  }

  lemma ArriveKeepsCell(initial: State, s: State, r: Request, n: Id, h: nat, width: nat)
    requires Tidy(initial.lot) && CellOk(initial, s, n, h, width)
    requires Pending(Arrive(s, r).threads, n, h) <= width
    ensures CellOk(initial, Arrive(s, r), n, h, width)
  {
    var u := Arrive(s, r);
    CountsAppended(s.threads, Last(u.threads), n, h);
    if Available(s.lot, r.dest, r.startH, r.endH) {
      CheckKeepsCell(initial, s, n, h, width, u.threads, r.dest, r);
    }
  }

  lemma ScanKeepsCell(initial: State, s: State, t: nat, n: Id, h: nat, width: nat)
    requires Tidy(initial.lot) && CellOk(initial, s, n, h, width)
    requires t < |s.threads| && s.threads[t].phase.Scanning?
    requires Pending(Scan(s, t).threads, n, h) <= width
    ensures CellOk(initial, Scan(s, t), n, h, width)
  {
    var u := Scan(s, t);
    CountsAfter(s.threads, t, u.threads[t], n, h);
    if u.threads[t].phase.Holding? {
      CheckKeepsCell(initial, s, n, h, width, u.threads, u.threads[t].phase.place, u.threads[t].request);
    }
  }

  lemma BookKeepsCell(initial: State, s: State, t: nat, n: Id, h: nat, width: nat)
    requires Tidy(initial.lot) && CellOk(initial, s, n, h, width) && h < HOURS
    requires t < |s.threads| && s.threads[t].phase.Holding?
    ensures CellOk(initial, Book(s, t), n, h, width)
  {
    var u := Book(s, t);
    var Thread(r, Holding(p)) := s.threads[t];
    CountsAfter(s.threads, t, u.threads[t], n, h);
    ReserveCell(s.lot.slots, p, r.startH, r.endH, n, h);
  }

  /** At most `width` threads are ever between their check and their booking of the cell. */
  ghost predicate Narrow(run: seq<State>, n: Id, h: nat, width: nat)
  {
    forall k :: 0 <= k < |run| ==> Pending(run[k].threads, n, h) <= width
  }

  lemma {:induction false} RunKeepsCell(run: seq<State>, n: Id, h: nat, width: nat)
    requires IsRun(run) && Narrow(run, n, h, width) && h < HOURS
    ensures CellOk(run[0], Last(run), n, h, width)
    decreases |run|
  {
    var m := |run| - 1;
    if m == 0 {
      assert Pending([], n, h) == 0 && Grants([], n, h) == 0;
    } else {
      var s, u := run[m - 1], run[m];
      RunKeepsCell(run[..m], n, h, width);
      assert Step(run[m - 1], run[m - 1 + 1]);
      if r: Request :| Admitted(r) && u == Arrive(s, r) {
        ArriveKeepsCell(run[0], s, r, n, h, width);
      } else if t: nat :| t < |s.threads| && s.threads[t].phase.Scanning? && u == Scan(s, t) {
        ScanKeepsCell(run[0], s, t, n, h, width);
      } else {
        var t: nat :| t < |s.threads| && s.threads[t].phase.Holding? && u == Book(s, t);
        BookKeepsCell(run[0], s, t, n, h, width);
      }
    }
  }

  /**
   * Grant bound: with at most `width` requests between check and booking of a cell at a time, grants on
   * it exceed the free slots it started with by at most `width - 1`, and its slot count stays in range.
   */
  lemma GrantsAreBounded(run: seq<State>, n: Id, h: nat, width: nat)
    requires IsRun(run) && Narrow(run, n, h, width) && h < HOURS && 1 <= width && Real(run[0].lot.nodes, n)
    ensures Last(run).lot.nodes == run[0].lot.nodes
    ensures Grants(Last(run).threads, n, h) <= Free(run[0].lot.slots, n, h) + width - 1
    ensures Grants(Last(run).threads, n, h) <= run[0].lot.nodes[n].capacity + width - 1
    ensures 0 <= Free(Last(run).lot.slots, n, h) <= run[0].lot.nodes[n].capacity
  {
    RunKeepsCell(run, n, h, width);
  }

  /** One request at a time never overbooks: the slots booked are exactly the grants. */
  lemma SerialNeverOverbooks(run: seq<State>, n: Id, h: nat)
    requires IsRun(run) && Narrow(run, n, h, 1) && h < HOURS && Real(run[0].lot.nodes, n)
    ensures Free(run[0].lot.slots, n, h) - Free(Last(run).lot.slots, n, h) == Grants(Last(run).threads, n, h)
  {
    GrantsAreBounded(run, n, h, 1);
    RunKeepsCell(run, n, h, 1);
  }

  // The bound is reached. The run below serves requests for one cell: first all but one of its free
  // slots are booked one by one, then `width` requests check the last slot before any of them books it.

  function Ask(n: Id, h: nat): Request
  {
    Request(n, h, h + 1, [n])
  }

  /** `granted` threads done, the `holding` next ones between check and booking. */
  function Row(n: Id, h: nat, granted: nat, holding: nat): seq<Thread>
  {
    seq(granted + holding, i => Thread(Ask(n, h), if i < granted then Granted(n) else Holding(n)))
  }

  lemma {:induction false} RowCounts(n: Id, h: nat, granted: nat, holding: nat)
    requires h < HOURS
    ensures Pending(Row(n, h, granted, holding), n, h) == holding
    ensures Grants(Row(n, h, granted, holding), n, h) == granted
  {
    if holding == 0 {
      RowOfGrants(n, h, granted);
    } else {
      RowCounts(n, h, granted, holding - 1);
      RowLonger(n, h, granted, holding - 1);
      CountsAppended(Row(n, h, granted, holding - 1), Thread(Ask(n, h), Holding(n)), n, h);
    }
  }

  lemma {:induction false} RowOfGrants(n: Id, h: nat, granted: nat)
    requires h < HOURS
    ensures Pending(Row(n, h, granted, 0), n, h) == 0
    ensures Grants(Row(n, h, granted, 0), n, h) == granted
  {
    if granted == 0 {
    } else {
      RowOfGrants(n, h, granted - 1);
      GrantsLonger(n, h, granted - 1);
      CountsAppended(Row(n, h, granted - 1, 0), Thread(Ask(n, h), Granted(n)), n, h);
    }
  }

  lemma GrantsLonger(n: Id, h: nat, granted: nat)
    ensures Row(n, h, granted + 1, 0) == Row(n, h, granted, 0) + [Thread(Ask(n, h), Granted(n))]
  {
  }

  /** A run that ends in a row of threads and was never wider than `width`. */
  ghost predicate Staged(initial: Lot, run: seq<State>, n: Id, h: nat, granted: nat, holding: nat, width: nat)
  {
    && IsRun(run) && run[0].lot == initial && Narrow(run, n, h, width)
    && Last(run).threads == Row(n, h, granted, holding)
    && Real(initial.nodes, n) && n != -1 && h < HOURS
  }

  lemma StageArrives(initial: Lot, run: seq<State>, n: Id, h: nat, granted: nat, holding: nat, width: nat)
    returns (longer: seq<State>)
    requires Staged(initial, run, n, h, granted, holding, width)
    requires granted < Free(initial.slots, n, h) && holding < width
    ensures Staged(initial, longer, n, h, granted, holding + 1, width)
  {
    var s := Last(run);
    StageIsFree(initial, run, n, h, granted, holding, width);
    RowLonger(n, h, granted, holding);
    RowCounts(n, h, granted, holding + 1);
    var r := Ask(n, h);
    var u := Arrive(s, r);
    assert Admitted(r);
    longer := Extended(run, u, n, h, width);
  }

  lemma StageIsFree(initial: Lot, run: seq<State>, n: Id, h: nat, granted: nat, holding: nat, width: nat)
    requires Staged(initial, run, n, h, granted, holding, width) && granted < Free(initial.slots, n, h)
    ensures Available(Last(run).lot, n, h, h + 1)
  {
    RunKeepsCell(run, n, h, width);
    RowCounts(n, h, granted, holding);
  }

  lemma RowLonger(n: Id, h: nat, granted: nat, holding: nat)
    ensures Row(n, h, granted, holding + 1) == Row(n, h, granted, holding) + [Thread(Ask(n, h), Holding(n))]
  {
  }

  lemma Extended(run: seq<State>, u: State, n: Id, h: nat, width: nat) returns (longer: seq<State>)
    requires IsRun(run) && Narrow(run, n, h, width) && Step(Last(run), u) && Pending(u.threads, n, h) <= width
    ensures longer == run + [u] && IsRun(longer) && Narrow(longer, n, h, width)
  {
    longer := run + [u];
    RunFurther(run, u);
  }

  lemma RunFurther(run: seq<State>, u: State)
    requires IsRun(run) && Step(Last(run), u)
    ensures IsRun(run + [u])
  {
    var longer := run + [u];
    forall k | 0 <= k < |longer| - 1 ensures Step(longer[k], longer[k + 1]) {
      if k < |run| - 1 {
        assert Step(run[k], run[k + 1]);
      }
    }
  }

  lemma StageBooks(initial: Lot, run: seq<State>, n: Id, h: nat, granted: nat, holding: nat, width: nat)
    returns (longer: seq<State>)
    requires Staged(initial, run, n, h, granted, holding, width) && 0 < holding
    ensures Staged(initial, longer, n, h, granted + 1, holding - 1, width)
  {
    var s := Last(run);
    RowCounts(n, h, granted, holding);
    RowCounts(n, h, granted + 1, holding - 1);
    var u := Book(s, granted);
    assert u.threads == Row(n, h, granted + 1, holding - 1);
    assert Pending(run[|run| - 1].threads, n, h) <= width;
    assert Step(s, u);
    longer := Extended(run, u, n, h, width);
  }

  lemma {:induction false} OneByOne(initial: Lot, n: Id, h: nat, granted: nat, width: nat) returns (run: seq<State>)
    requires Tidy(initial) && Real(initial.nodes, n) && n != -1 && h < HOURS && 1 <= width
    requires granted <= Free(initial.slots, n, h)
    ensures Staged(initial, run, n, h, granted, 0, width)
  {
    if granted == 0 {
      run := [State(initial, [])];
    } else {
      run := OneByOne(initial, n, h, granted - 1, width);
      run := StageArrives(initial, run, n, h, granted - 1, 0, width);
      run := StageBooks(initial, run, n, h, granted - 1, 1, width);
    }
  }

  lemma {:induction false} AllCheck(initial: Lot, n: Id, h: nat, holding: nat, width: nat) returns (run: seq<State>)
    requires Tidy(initial) && Real(initial.nodes, n) && n != -1 && h < HOURS && holding <= width && 1 <= width
    requires 1 <= Free(initial.slots, n, h)
    ensures Staged(initial, run, n, h, Free(initial.slots, n, h) - 1, holding, width)
  {
    if holding == 0 {
      run := OneByOne(initial, n, h, Free(initial.slots, n, h) - 1, width);
    } else {
      run := AllCheck(initial, n, h, holding - 1, width);
      run := StageArrives(initial, run, n, h, Free(initial.slots, n, h) - 1, holding - 1, width);
    }
  }

  lemma {:induction false} AllBook(initial: Lot, run0: seq<State>, n: Id, h: nat, granted: nat, holding: nat,
                                   width: nat)
    returns (run: seq<State>)
    requires Staged(initial, run0, n, h, granted, holding, width)
    ensures Staged(initial, run, n, h, granted + holding, 0, width)
    decreases holding
  {
    run := run0;
    if holding > 0 {
      run := StageBooks(initial, run0, n, h, granted, holding, width);
      run := AllBook(initial, run, n, h, granted + 1, holding - 1, width);
    }
  }

  /** The grant bound is exact: from every start with a free slot some run reaches it. */
  lemma GrantBoundIsReached(initial: Lot, n: Id, h: nat, width: nat) returns (run: seq<State>)
    requires Tidy(initial) && Real(initial.nodes, n) && n != -1 && h < HOURS
    requires 1 <= width && 1 <= Free(initial.slots, n, h)
    ensures IsRun(run) && run[0].lot == initial && Narrow(run, n, h, width)
    ensures Grants(Last(run).threads, n, h) == Free(initial.slots, n, h) + width - 1
  {
    run := AllCheck(initial, n, h, width, width);
    run := AllBook(initial, run, n, h, Free(initial.slots, n, h) - 1, width, width);
    RowCounts(n, h, Free(initial.slots, n, h) - 1 + width, 0);
  }

  /** The runs that start from a state and are never wider than `width` at a cell. */
  ghost predicate RunFrom(run: seq<State>, initial: Lot, n: Id, h: nat, width: nat)
  {
    IsRun(run) && run[0].lot == initial && Narrow(run, n, h, width)
  }

  /** Grants can exceed the free slots of a cell exactly if two requests can be between check and booking. */
  lemma OverbooksIff(initial: Lot, n: Id, h: nat, width: nat)
    requires Tidy(initial) && Real(initial.nodes, n) && n != -1 && h < HOURS && 1 <= Free(initial.slots, n, h)
    ensures (forall run :: RunFrom(run, initial, n, h, width) ==>
               Grants(Last(run).threads, n, h) <= Free(initial.slots, n, h))
       <==> width <= 1
  {
    if width <= 1 {
      forall run | RunFrom(run, initial, n, h, width)
        ensures Grants(Last(run).threads, n, h) <= Free(initial.slots, n, h)
      {
        RunKeepsCell(run, n, h, width);
      }
    } else {
      var run := GrantBoundIsReached(initial, n, h, width);
      assert RunFrom(run, initial, n, h, width);
    }
  }

  predicate AtMinusOne(t: Thread)
  {
    t.phase == Holding(-1) || t.phase == Granted(-1)
  }

  /** No interleaving holds or books the place -1, which no serial run grants either. */
  lemma {:induction false} NeverAtMinusOne(run: seq<State>)
    requires IsRun(run)
    ensures forall t :: t in Last(run).threads ==> !AtMinusOne(t)
    decreases |run|
  {
    var m := |run| - 1;
    if m == 0 {
    } else {
      var s, u := run[m - 1], run[m];
      NeverAtMinusOne(run[..m]);
      assert Last(run[..m]) == s && Step(run[m - 1], run[m - 1 + 1]);
      StepAvoidsMinusOne(s, u);
    }
  }

  lemma StepAvoidsMinusOne(s: State, u: State)
    requires Step(s, u) && forall t :: t in s.threads ==> !AtMinusOne(t)
    ensures forall t :: t in u.threads ==> !AtMinusOne(t)
  {
    if r: Request :| Admitted(r) && u == Arrive(s, r) {
      assert !AtMinusOne(Last(u.threads));
    } else if t: nat :| t < |s.threads| && s.threads[t].phase.Scanning? && u == Scan(s, t) {
      assert !AtMinusOne(u.threads[t]);
    } else {
      var t: nat :| t < |s.threads| && s.threads[t].phase.Holding? && u == Book(s, t);
      assert s.threads[t] in s.threads && !AtMinusOne(u.threads[t]);
    }
  }
}
