/** A route request that no other comes between: its thread then does what the serial handler does. */
module Alone {
  import opened Sequences
  import opened Roads
  import opened Ledger
  import opened Concurrent
  import Runs

  /** The request as one event of a serial run. */
  function AsEvent(r: Request): Runs.Event
    requires Admitted(r)
  {
    Runs.Event.Route(r.path[0], r.dest, r.startH, r.endH, r.path)
  }

  /** Where the serial handler ends with the request. */
  function SerialEnd(lot: Lot, r: Request): Phase
    requires Admitted(r)
  {
    match Runs.Granted(lot, AsEvent(r))
    case None => Refused
    case Some(p) => Granted(p)
  }

  predicate Answered(t: Thread)
  {
    t.phase.Granted? || t.phase.Refused?
  }

  /** How far the one thread is, and what it did to the lot it found. */
  ghost predicate OnItsWay(initial: Lot, lot: Lot, t: Thread)
  {
    var r := t.request;
    Admitted(r) &&
    match t.phase
    case Scanning(i) =>
      && lot == initial && -1 <= i < |r.path|
      && !Available(initial, r.dest, r.startH, r.endH)
      && LastAvailable(initial, r.path, r.startH, r.endH)
         == LastAvailable(initial, r.path[..i + 1], r.startH, r.endH)
    case Holding(p) => lot == initial && SerialEnd(initial, r) == Granted(p)
    case _ => lot == Runs.Apply(initial, AsEvent(r)) && SerialEnd(initial, r) == t.phase
  }

  lemma ArrivesOnItsWay(lot: Lot, r: Request)
    requires Admitted(r)
    ensures OnItsWay(lot, lot, Last(Arrive(State(lot, []), r).threads))
  {
    assert r.path[..|r.path|] == r.path;
  }

  lemma ScansOnItsWay(initial: Lot, s: State)
    requires |s.threads| == 1 && OnItsWay(initial, s.lot, s.threads[0]) && s.threads[0].phase.Scanning?
    ensures OnItsWay(initial, Scan(s, 0).lot, Scan(s, 0).threads[0])
  {
    var r, i := s.threads[0].request, s.threads[0].phase.i;
    if i >= 0 {
      var seen := r.path[..i + 1];
      assert Last(seen) == r.path[i] && seen[..i] == r.path[..i];
    } else {
      assert r.path[..i + 1] == [];
    }
  }

  lemma BooksOnItsWay(initial: Lot, s: State)
    requires |s.threads| == 1 && OnItsWay(initial, s.lot, s.threads[0]) && s.threads[0].phase.Holding?
    ensures OnItsWay(initial, Book(s, 0).lot, Book(s, 0).threads[0])
  {
  }

  /** In every run with one request at most, its thread is on its way. */
  lemma {:induction false} AloneOnItsWay(run: seq<State>)
    requires IsRun(run) && |Last(run).threads| <= 1
    ensures Last(run).threads == [] ==> Last(run).lot == run[0].lot
    ensures Last(run).threads != [] ==> OnItsWay(run[0].lot, Last(run).lot, Last(run).threads[0])
    decreases |run|
  {
    var m := |run| - 1;
    if m == 0 {
    } else {
      var s, u := run[m - 1], run[m];
      assert Step(run[m - 1], run[m - 1 + 1]);
      StepAddsThreads(s, u);
      assert Last(run[..m]) == s;
      AloneOnItsWay(run[..m]);
      StepOnItsWay(run[0].lot, s, u);
    }
  }

  lemma StepAddsThreads(s: State, u: State)
    requires Step(s, u)
    ensures |s.threads| <= |u.threads|
  {
  }

  lemma StepOnItsWay(initial: Lot, s: State, u: State)
    requires Step(s, u) && |u.threads| <= 1
    requires if s.threads == [] then s.lot == initial else |s.threads| == 1 && OnItsWay(initial, s.lot, s.threads[0])
    ensures |u.threads| == 1 && OnItsWay(initial, u.lot, u.threads[0])
  {
    if r: Request :| Admitted(r) && u == Arrive(s, r) {
      assert s.threads == [];
      ArrivesOnItsWay(initial, r);
    } else if t: nat :| t < |s.threads| && s.threads[t].phase.Scanning? && u == Scan(s, t) {
      ScansOnItsWay(initial, s);
    } else {
      BooksOnItsWay(initial, s);
    }
  }

  /** A request that was alone and is answered has the answer and the effect of the serial handler. */
  lemma AloneEndsAs(run: seq<State>)
    requires IsRun(run) && |Last(run).threads| == 1 && Answered(Last(run).threads[0])
    ensures var t := Last(run).threads[0];
            && Admitted(t.request)
            && t.phase == SerialEnd(run[0].lot, t.request)
            && Last(run).lot == Runs.Apply(run[0].lot, AsEvent(t.request))
  {
    AloneOnItsWay(run);
  }

  /** How many steps are left at most. */
  function Left(t: Thread): int
  {
    match t.phase
    case Scanning(i) => i + 3
    case Holding(_) => 1
    case _ => 0
  }

  lemma {:induction false} Finished(run: seq<State>) returns (longer: seq<State>)
    requires IsRun(run) && |Last(run).threads| == 1
    ensures IsRun(longer) && longer[0] == run[0] && |Last(longer).threads| == 1
    ensures Last(longer).threads[0].request == Last(run).threads[0].request && Answered(Last(longer).threads[0])
    decreases Left(Last(run).threads[0])
  {
    var s := Last(run);
    AloneOnItsWay(run);
    if Answered(s.threads[0]) {
      longer := run;
    } else {
      var u := if s.threads[0].phase.Scanning? then Scan(s, 0) else Book(s, 0);
      RunFurther(run, u);
      longer := Finished(run + [u]);
    }
  }

  /** From every start each request can run alone to its end. */
  lemma AloneEnds(lot: Lot, r: Request) returns (run: seq<State>)
    requires Tidy(lot) && Admitted(r)
    ensures IsRun(run) && run[0] == State(lot, [])
    ensures Last(run) == State(Runs.Apply(lot, AsEvent(r)), [Thread(r, SerialEnd(lot, r))])
  {
    var start := State(lot, []);
    var u := Arrive(start, r);
    assert Step(start, u);
    RunFurther([start], u);
    run := Finished([start] + [u]);
    AloneEndsAs(run);
    assert Last(run).threads == [Last(run).threads[0]];
  }
}
