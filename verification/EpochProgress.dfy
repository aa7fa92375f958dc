/** The pool never deadlocks: work that exists can always be advanced, and advancing it
    uses up a finite budget. */
module EpochProgress {
  import opened EpochProtocol
  import opened EpochInvariants

  ghost predicate WorkLeft(s: State)
  {
    s.head < |s.stream| || exists w :: 0 <= w < |s.workers| && s.workers[w].Holds()
  }

  /** A step that is neither a spin (on barrier_pending or in_flight) nor an idle poll. */
  predicate Productive(s: State, w: nat)
    requires w < |s.workers|
  {
    var pc := s.workers[w];
    MovedTo(s, pc) != pc && (pc.Holds() || s.head < |s.stream| || MovedTo(s, pc).Stopped?)
  }

  /** Steps that a worker standing here may still owe, most first. */
  function Rank(pc: PC, ringEmpty: bool): nat
  {
    match pc
    case GotData(_) => 10
    case Incremented(_) => 9
    case Inside(_, _) => 8
    case Running(_, _) => 7
    case Ran(_, _) => 6
    case GotBarrier(_) => 8
    case Draining(_) => 7
    case Advancing(_) => 6
    case Clearing(_) => 5
    case Releasing(_) => 4
    case Top => if ringEmpty then 1 else 3
    case Check => if ringEmpty then 1 else 2
    case Ready => 1
    case Stopped => 0
  }

  function Ranks(ws: seq<PC>, ringEmpty: bool): nat
  {
    if ws == [] then 0 else Ranks(ws[..|ws| - 1], ringEmpty) + Rank(ws[|ws| - 1], ringEmpty)
  }

  function Budget(s: State): nat
    requires s.head <= |s.stream|
  {
    10 * (|s.stream| - s.head) + Ranks(s.workers, s.head == |s.stream|)
  }

  lemma {:induction false} RanksUpdate(ws: seq<PC>, w: nat, pc: PC, e: bool)
    requires w < |ws|
    ensures Ranks(ws[w := pc], e) + Rank(ws[w], e) == Ranks(ws, e) + Rank(pc, e)
  {
    var n := |ws| - 1;
    var us := ws[w := pc];
    if w == n {
      assert us[..n] == ws[..n];
    } else {
      assert us[..n] == ws[..n][w := pc];
      RanksUpdate(ws[..n], w, pc, e);
    }
  }

  lemma {:induction false} EmptyRingLowers(ws: seq<PC>)
    ensures Ranks(ws, true) <= Ranks(ws, false)
  {
    if ws != [] {
      EmptyRingLowers(ws[..|ws| - 1]);
    }
  }

  /** A worker step never raises the budget, and a productive one lowers it. */
  lemma StepSpends(s: State, w: nat, ok: bool)
    requires s.head <= |s.stream| && w < |s.workers|
    ensures var t := WorkerStep(s, w, ok);
      t.head <= |t.stream| && Budget(t) + (if Productive(s, w) then 1 else 0) <= Budget(s)
  {
    var pc := s.workers[w];
    RanksUpdate(s.workers, w, MovedTo(s, pc), s.head == |s.stream|);
    EmptyRingLowers(s.workers[w := MovedTo(s, pc)]);
  }

  predicate WorkersOnly(schedule: seq<Action>)
  {
    forall a :: a in schedule ==> a.Worker?
  }

  ghost function ProductiveSteps(s: State, schedule: seq<Action>): nat
    requires WorkersOnly(schedule)
  {
    if schedule == [] then 0 else
      var n := |schedule| - 1;
      var u, a := Exec(s, schedule[..n]), schedule[n];
      ProductiveSteps(s, schedule[..n])
        + if a.w < |u.workers| && Productive(u, a.w) then 1 else 0
  }

  /** Between two enqueues, whatever the scheduler does, the workers can take only a bounded
      number of productive steps: everything else they do is spinning or polling. */
  lemma {:induction false} ProductiveStepsBounded(s: State, schedule: seq<Action>)
    requires s.head <= |s.stream| && WorkersOnly(schedule)
    ensures var t := Exec(s, schedule);
      t.head <= |t.stream| && ProductiveSteps(s, schedule) + Budget(t) <= Budget(s)
  {
    if schedule != [] {
      var n := |schedule| - 1;
      ProductiveStepsBounded(s, schedule[..n]);
      var u, a := Exec(s, schedule[..n]), schedule[n];
      assert a in schedule;
      if a.w < |u.workers| {
        StepSpends(u, a.w, a.ok);
      }
    }
  }

  /** Some worker can always move work along, unless there is none or every worker has left. */
  lemma NoDeadlock(s: State) returns (w: nat)
    requires CountersAgree(s) && WorkLeft(s)
    requires exists v :: 0 <= v < |s.workers| && !s.workers[v].Stopped?
    ensures w < |s.workers| && Productive(s, w)
  {
    if v :| 0 <= v < |s.workers| && s.workers[v].Holds() {
      w := v;
      if s.workers[v].Draining? && s.inFlight != 0 {
        CountBounds(s.workers, IsInFlight);
        w :| 0 <= w < |s.workers| && IsInFlight(s.workers[w]);
      }
    } else {
      w :| 0 <= w < |s.workers| && !s.workers[w].Stopped?;
    }
  }

  /** From every reachable state the workers alone can reach one where no work is left, or
      where a stop request has sent every worker home. */
  lemma {:induction false} CanFinish(s: State) returns (xs: seq<Action>)
    requires Inv(s)
    ensures WorkersOnly(xs)
    ensures var t := Exec(s, xs);
      !WorkLeft(t) || forall v :: 0 <= v < |t.workers| ==> t.workers[v].Stopped?
    decreases Budget(s)
  {
    xs := [];
    if WorkLeft(s) && exists v :: 0 <= v < |s.workers| && !s.workers[v].Stopped? {
      var w := NoDeadlock(s);
      WorkerInv(s, w, true);
      StepSpends(s, w, true);
      var rest := CanFinish(WorkerStep(s, w, true));
      var first := [Worker(w, true)];
      ExecConcat(s, first, rest);
      assert first[..0] == [];
      xs := first + rest;
    }
  }
}
