/** The same steps taken in place, on shared variables that the pool's workers update. */
module EpochPool {
  import opened Machine
  import P = EpochProtocol

  /** struct epoch_barrier: three atomics, each touched by one method per atomic access. */
  class EpochBarrier {
    var currentEpoch: nat
    var inFlight: nat
    var barrierPending: bool

    constructor ()
      ensures currentEpoch == 0 && inFlight == 0 && !barrierPending
    {
      currentEpoch, inFlight, barrierPending := 0, 0, false;
    }
  }

  /** The input ring, the worker lcores and the counters around one barrier. */
  class WorkerPool {
    const barrier: EpochBarrier
    var stream: seq<P.Item>
    var head: nat
    var stopRequested: bool
    const workers: array<P.PC>
    var freed: set<nat>
    var recordsIn: nat
    var dropped: nat
    var forwarded: nat
    ghost var log: seq<P.Event>

    ghost function View(): P.State
      reads this, barrier, workers
    {
      P.State(stream, head, barrier.currentEpoch, barrier.inFlight, barrier.barrierPending,
              stopRequested, workers[..], freed, recordsIn, dropped, forwarded, log)
    }

    constructor (count: nat)
      ensures View() == P.Init(count) && fresh(workers) && fresh(barrier)
    {
      barrier := new EpochBarrier();
      stream, head, stopRequested, freed := [], 0, false, {};
      recordsIn, dropped, forwarded, log := 0, 0, 0, [];
      workers := new P.PC[count](i => P.Top);
      new;
      assert workers[..] == seq(count, i => P.Top);
    }

    method Enqueue(item: P.Item)
      modifies this`stream
      ensures View() == P.Next(old(View()), P.Enqueue(item))
    {
      stream := stream + [item];
    }

    method RequestStop()
      modifies this`stopRequested
      ensures View() == P.Next(old(View()), P.RequestStop)
    {
      stopRequested := true;
    }

    /** The next atomic step of worker w. */
    method Step(w: nat, ok: bool)
      requires w < workers.Length
      modifies this, barrier, workers
      ensures View() == P.WorkerStep(old(View()), w, ok)
    {
      var pc := workers[w];
      if pc.GotData? || pc.Incremented? || pc.Inside? || pc.Running? || pc.Ran? {
        RecordStep(w, ok);
      } else if pc.GotBarrier? || pc.Draining? || pc.Advancing? || pc.Clearing? {
        DrainStep(w, ok);
      } else {
        LoopStep(w, ok);
      }
    }

    ghost predicate Moved(before: P.State, w: nat, next: P.PC)
      reads workers
    {
      w < |before.workers| && workers[..] == before.workers[w := next]
    }

    /** The loop around the two kinds of item: stop flag, wait_if_pending(), dequeue, free. */
    method LoopStep(w: nat, ghost ok: bool)
      requires w < workers.Length
      requires var pc := workers[w]; pc.Top? || pc.Check? || pc.Ready? || pc.Releasing? || pc.Stopped?
      modifies this`head, this`freed, workers
      ensures View() == P.WorkerStep(old(View()), w, ok)
    {
      ghost var before := View();
      var pc := workers[w];
      var next := pc;
      match pc {
        case Top => next := if stopRequested then P.Stopped else P.Check;
        case Check => if !barrier.barrierPending { next := P.Ready; }
        case Ready =>
          if head < |stream| {
            next := if stream[head].Data? then P.GotData(head) else P.GotBarrier(head);
            head := head + 1;
          } else {
            next := P.Top;
          }
        case Releasing(k) =>
          freed := freed + {k};
          next := P.Top;
        case Stopped =>
      }
      workers[w] := next;
      assert Moved(before, w, next);
      assert before.log + [] == before.log;
    }

    /** epoch_barrier_enter(), pipeline_run() and epoch_barrier_exit() around a data record. */
    method RecordStep(w: nat, ok: bool)
      requires w < workers.Length
      requires var pc := workers[w]; pc.GotData? || pc.Incremented? || pc.Inside? || pc.Running? || pc.Ran?
      modifies this`recordsIn, this`dropped, this`forwarded, this`log, barrier, workers
      ensures View() == P.WorkerStep(old(View()), w, ok)
    {
      ghost var before := View();
      var pc := workers[w];
      var next;
      match pc {
        case GotData(k) =>
          barrier.inFlight := Inc(barrier.inFlight);
          next := P.Incremented(k);
        case Incremented(k) => next := P.Inside(k, barrier.currentEpoch);
        case Inside(k, tag) =>
          recordsIn := Inc(recordsIn);
          next := P.Running(k, tag);
        case Running(k, tag) =>
          if ok { forwarded := Inc(forwarded); } else { dropped := Inc(dropped); }
          next := P.Ran(k, tag);
        case Ran(k, _) =>
          barrier.inFlight := Dec(barrier.inFlight);
          next := P.Releasing(k);
      }
      workers[w] := next;
      log := log + P.Logged(before, pc);
      assert Moved(before, w, next);
    }

    /** epoch_barrier_drain(), one atomic access at a time. */
    method DrainStep(w: nat, ghost ok: bool)
      requires w < workers.Length
      requires var pc := workers[w]; pc.GotBarrier? || pc.Draining? || pc.Advancing? || pc.Clearing?
      modifies this`log, barrier, workers
      ensures View() == P.WorkerStep(old(View()), w, ok)
    {
      ghost var before := View();
      var pc := workers[w];
      var next := pc;
      match pc {
        case GotBarrier(k) =>
          barrier.barrierPending := true;
          next := P.Draining(k);
        case Draining(k) => if barrier.inFlight == 0 { next := P.Advancing(k); }
        case Advancing(k) =>
          barrier.currentEpoch := Inc(barrier.currentEpoch);
          next := P.Clearing(k);
        case Clearing(k) =>
          barrier.barrierPending := false;
          next := P.Releasing(k);
      }
      workers[w] := next;
      log := log + P.Logged(before, pc);
      assert Moved(before, w, next);
    }
  }
}
