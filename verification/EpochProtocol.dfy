/** The epoch barrier and the worker loop as interleaved atomic steps.

    Every access to the three shared atomics is sequentially consistent, so a run of
    the worker pool is a sequence of single steps, each taken by one worker, by the
    producer of the input ring, or by the signal handler that asks for a stop. */
module EpochProtocol {

  import opened Machine

  datatype Item = Data | Barrier

  /** Where a worker stands. The argument of a constructor that has one is the position
      in the input stream of the item that the worker holds. */
  datatype PC =
    | Top                            // about to read the stop flag
    | Check                          // about to load barrier_pending
    | Ready                          // saw no pending barrier, about to dequeue
    | GotData(item: nat)             // about to fetch_add in_flight
    | Incremented(item: nat)         // about to load current_epoch
    | Inside(item: nat, tag: nat)    // enter() returned, pipeline_run() not yet begun
    | Running(item: nat, tag: nat)   // inside pipeline_run()
    | Ran(item: nat, tag: nat)       // about to fetch_sub in_flight
    | GotBarrier(item: nat)          // about to store barrier_pending = true
    | Draining(item: nat)            // about to load in_flight
    | Advancing(item: nat)           // saw in_flight == 0, about to fetch_add current_epoch
    | Clearing(item: nat)            // about to store barrier_pending = false
    | Releasing(item: nat)           // about to free the item
    | Stopped
  {
    predicate Holds() { !Top? && !Check? && !Ready? && !Stopped? }
  }

  /** What the log remembers about a run, oldest event first. */
  datatype Event =
    | Increment(item: nat)
    | Enter(item: nat, tag: nat)
    | Exit(item: nat)
    | Pend(item: nat)
    | Advance(item: nat)

  datatype State = State(
    stream: seq<Item>,     // everything ever enqueued; the ring holds stream[head..]
    head: nat,
    epoch: nat,            // current_epoch
    inFlight: nat,         // in_flight
    pending: bool,         // barrier_pending
    stop: bool,
    workers: seq<PC>,
    freed: set<nat>,
    recordsIn: nat,
    dropped: nat,
    forwarded: nat,
    log: seq<Event>)

  datatype Action =
    | Worker(w: nat, ok: bool)   // ok: what pipeline_run() returns, if this step is its end
    | Enqueue(item: Item)
    | RequestStop

  function Init(count: nat): State
  {
    State([], 0, 0, 0, false, false, seq(count, i => Top), {}, 0, 0, 0, [])
  }

  /** Where a worker stands after its next step. */
  function MovedTo(s: State, pc: PC): PC
  {
    match pc
    case Top => if s.stop then Stopped else Check
    case Check => if s.pending then Check else Ready
    case Ready =>
      if |s.stream| <= s.head then Top
      else if s.stream[s.head].Data? then GotData(s.head) else GotBarrier(s.head)
    case GotData(k) => Incremented(k)
    case Incremented(k) => Inside(k, s.epoch)
    case Inside(k, tag) => Running(k, tag)
    case Running(k, tag) => Ran(k, tag)
    case Ran(k, _) => Releasing(k)
    case GotBarrier(k) => Draining(k)
    case Draining(k) => if s.inFlight != 0 then Draining(k) else Advancing(k)
    case Advancing(k) => Clearing(k)
    case Clearing(k) => Releasing(k)
    case Releasing(_) => Top
    case Stopped => Stopped
  }

  function Logged(s: State, pc: PC): seq<Event>
  {
    match pc
    case GotData(k) => [Increment(k)]
    case Incremented(k) => [Enter(k, s.epoch)]
    case Ran(k, _) => [Exit(k)]
    case GotBarrier(k) => [Pend(k)]
    case Advancing(k) => [Advance(k)]
    case _ => []
  }

  /** One atomic step of worker w: its own move, and what it does to each shared variable. */
  function WorkerStep(s: State, w: nat, ok: bool): State
    requires w < |s.workers|
  {
    var pc := s.workers[w];
    s.(workers := s.workers[w := MovedTo(s, pc)],
       head := if pc.Ready? && s.head < |s.stream| then s.head + 1 else s.head,
       inFlight := if pc.GotData? then Inc(s.inFlight) else if pc.Ran? then Dec(s.inFlight) else s.inFlight,
       pending := if pc.GotBarrier? then true else if pc.Clearing? then false else s.pending,
       epoch := if pc.Advancing? then Inc(s.epoch) else s.epoch,
       freed := if pc.Releasing? then s.freed + {pc.item} else s.freed,
       recordsIn := if pc.Inside? then Inc(s.recordsIn) else s.recordsIn,
       forwarded := if pc.Running? && ok then Inc(s.forwarded) else s.forwarded,
       dropped := if pc.Running? && !ok then Inc(s.dropped) else s.dropped,
       log := s.log + Logged(s, pc))
  }

  function Next(s: State, a: Action): State
  {
    match a
    case Worker(w, ok) => if w < |s.workers| then WorkerStep(s, w, ok) else s
    case Enqueue(item) => s.(stream := s.stream + [item])
    case RequestStop => s.(stop := true)
  }

  /** The state after a schedule; every schedule is a possible run of the pool. */
  function Exec(s: State, schedule: seq<Action>): State
  {
    if schedule == [] then s
    else Next(Exec(s, schedule[..|schedule| - 1]), schedule[|schedule| - 1])
  }

  // ---- Counting ----

  function Count(ws: seq<PC>, p: PC -> bool): nat
  {
    if ws == [] then 0
    else Count(ws[..|ws| - 1], p) + if p(ws[|ws| - 1]) then 1 else 0
  }

  predicate IsInFlight(pc: PC) { pc.Incremented? || pc.Inside? || pc.Running? || pc.Ran? }
  predicate IsRunning(pc: PC) { pc.Running? }
  predicate IsUndrained(pc: PC) { pc.GotBarrier? || pc.Draining? || pc.Advancing? }
  predicate IsDraining(pc: PC) { pc.Draining? || pc.Advancing? || pc.Clearing? }
  /** Between seeing barrier_pending == false and publishing what was dequeued. */
  predicate IsClaiming(pc: PC) { pc.Ready? || pc.GotData? || pc.GotBarrier? }

  /** Barriers among the first k items: the FIFO epoch of item k. */
  function Barriers(stream: seq<Item>, k: nat): nat
    requires k <= |stream|
  {
    if k == 0 then 0 else Barriers(stream, k - 1) + if stream[k - 1].Barrier? then 1 else 0
  }

  /** Epoch advances among the first n events. */
  function Advances(log: seq<Event>, n: nat): nat
    requires n <= |log|
  {
    if n == 0 then 0 else Advances(log, n - 1) + if log[n - 1].Advance? then 1 else 0
  }

  lemma {:induction false} CountUpdate(ws: seq<PC>, w: nat, pc: PC, p: PC -> bool)
    requires w < |ws|
    ensures Count(ws[w := pc], p) + (if p(ws[w]) then 1 else 0)
         == Count(ws, p) + (if p(pc) then 1 else 0)
  {
    var n := |ws| - 1;
    var us := ws[w := pc];
    if w == n {
      assert us[..n] == ws[..n];
    } else {
      assert us[..n] == ws[..n][w := pc];
      CountUpdate(ws[..n], w, pc, p);
    }
  }

  /** A count is positive exactly when some worker satisfies the predicate, and it is
      below the number of workers as soon as one does not. */
  lemma {:induction false} CountBounds(ws: seq<PC>, p: PC -> bool)
    ensures Count(ws, p) <= |ws|
    ensures 0 < Count(ws, p) <==> exists w :: 0 <= w < |ws| && p(ws[w])
    ensures Count(ws, p) < |ws| <==> exists w :: 0 <= w < |ws| && !p(ws[w])
  {
    if ws != [] {
      var n := |ws| - 1;
      CountBounds(ws[..n], p);
      assert forall w :: 0 <= w < n ==> ws[..n][w] == ws[w];
    }
  }

  lemma {:induction false} BarriersGrow(s: seq<Item>, t: seq<Item>, j: nat, k: nat)
    requires j <= k <= |s|
    ensures Barriers(s + t, k) == Barriers(s, k)
    ensures Barriers(s, j) <= Barriers(s, k)
  {
    if k > 0 {
      BarriersGrow(s, t, if j < k then j else k - 1, k - 1);
    }
  }

  lemma {:induction false} AdvancesGrow(s: seq<Event>, t: seq<Event>, n: nat)
    requires n <= |s|
    ensures Advances(s + t, n) == Advances(s, n)
  {
    if n > 0 {
      AdvancesGrow(s, t, n - 1);
    }
  }

  lemma {:induction false} ExecConcat(s: State, xs: seq<Action>, ys: seq<Action>)
    ensures Exec(s, xs + ys) == Exec(Exec(s, xs), ys)
  {
    if ys == [] {
      assert xs + ys == xs;
    } else {
      var n := |ys| - 1;
      assert (xs + ys)[..|xs + ys| - 1] == xs + ys[..n];
      ExecConcat(s, xs, ys[..n]);
    }
  }
}
