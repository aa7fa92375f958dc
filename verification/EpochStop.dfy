/** Stopping the pool: a request sends every worker home, whatever it is doing, and nothing else
    does. */
module EpochStop {
  import opened EpochProtocol
  import opened Machine
  import opened EpochInvariants
  import opened EpochProgress

  predicate IsUp(pc: PC) { !pc.Stopped? }

  ghost predicate AllStopped(s: State)
  {
    forall w :: 0 <= w < |s.workers| ==> s.workers[w].Stopped?
  }

  // ---- Only a request stops anyone ----

  /** The stop flag is set exactly by a request, and no worker has returned before one. */
  lemma {:induction false} StoppedOnlyOnRequest(count: nat, schedule: seq<Action>)
    ensures var s := Exec(Init(count), schedule);
      && (s.stop <==> RequestStop in schedule)
      && forall w :: 0 <= w < |s.workers| && s.workers[w].Stopped? ==> RequestStop in schedule
  {
    if schedule != [] {
      var n := |schedule| - 1;
      StoppedOnlyOnRequest(count, schedule[..n]);
      assert schedule == schedule[..n] + [schedule[n]];
      var s := Exec(Init(count), schedule[..n]);
      NextStops(s, schedule[n]);
      assert RequestStop in schedule[..n] ==> RequestStop in schedule;
    }
  }

  lemma NextStops(s: State, a: Action)
    requires forall w :: 0 <= w < |s.workers| && s.workers[w].Stopped? ==> s.stop
    ensures var t := Next(s, a);
      && (t.stop <==> s.stop || a.RequestStop?)
      && forall w :: 0 <= w < |t.workers| && t.workers[w].Stopped? ==> t.stop
  {
  }

  // ---- A request stops everyone ----

  lemma {:induction false} StaysRequested(s: State, xs: seq<Action>)
    requires s.stop
    ensures Exec(s, xs).stop
  {
    if xs != [] {
      StaysRequested(s, xs[..|xs| - 1]);
    }
  }

  /** With the flag up, an idle worker is at most two steps from the top of its loop and one more
      from its return. */
  lemma {:induction false} GoHome(s: State, w: nat) returns (xs: seq<Action>)
    requires w < |s.workers| && s.stop && !s.pending && |s.stream| <= s.head
    requires !s.workers[w].Holds()
    ensures WorkersOnly(xs) && Exec(s, xs) == s.(workers := s.workers[w := Stopped])
    decreases s.workers[w].Check?, s.workers[w].Ready?, s.workers[w].Top?
  {
    var pc := s.workers[w];
    if pc.Stopped? {
      xs := [];
    } else {
      var first := [Worker(w, true)];
      var t := WorkerStep(s, w, true);
      assert first[..0] == [];
      assert Exec(s, first) == t;
      assert t == s.(workers := s.workers[w := MovedTo(s, pc)]) by {
        assert s.log + [] == s.log;
      }
      var rest := GoHome(t, w);
      ExecConcat(s, first, rest);
      xs := first + rest;
    }
  }

  lemma {:induction false} SendHome(s: State) returns (xs: seq<Action>)
    requires s.stop && !s.pending && |s.stream| <= s.head
    requires forall w :: 0 <= w < |s.workers| ==> !s.workers[w].Holds()
    ensures WorkersOnly(xs) && AllStopped(Exec(s, xs))
    decreases Count(s.workers, IsUp)
  {
    CountBounds(s.workers, IsUp);
    if Count(s.workers, IsUp) == 0 {
      xs := [];
    } else {
      var w :| 0 <= w < |s.workers| && IsUp(s.workers[w]);
      var ys := GoHome(s, w);
      CountUpdate(s.workers, w, Stopped, IsUp);
      var zs := SendHome(Exec(s, ys));
      ExecConcat(s, ys, zs);
      xs := ys + zs;
    }
  }

  lemma IdleMeansClear(s: State)
    requires Inv(s) && !WorkLeft(s)
    ensures !s.pending && |s.stream| <= s.head
    ensures forall w :: 0 <= w < |s.workers| ==> !s.workers[w].Holds()
  {
  }

  /** From every reachable state in which a stop was requested, the workers alone can all return,
      however many items they hold and however many are left in the ring. */
  lemma StopReachesAll(count: nat, schedule: seq<Action>)
    requires count < U64 && RequestStop in schedule
    ensures exists more :: WorkersOnly(more) && AllStopped(Exec(Init(count), schedule + more))
  {
    hide Inv, WorkLeft, Exec;
    InitInv(count);
    ExecInv(Init(count), schedule);
    StoppedOnlyOnRequest(count, schedule);
    var s := Exec(Init(count), schedule);
    var xs := CanFinish(s);
    ExecInv(s, xs);
    StaysRequested(s, xs);
    var t := Exec(s, xs);
    var ys := [];
    if WorkLeft(t) {
      assert AllStopped(t);
      ExecNothing(t);
    } else {
      IdleMeansClear(t);
      ys := SendHome(t);
    }
    ExecConcat(s, xs, ys);
    ExecConcat(Init(count), schedule, xs + ys);
    assert WorkersOnly(xs + ys) && AllStopped(Exec(Init(count), schedule + (xs + ys)));
  }

  lemma ExecNothing(s: State)
    ensures Exec(s, []) == s
  {
  }

  // ---- What is still dequeued after a request ----

  /** Past the stop test of this round of its loop, and not yet at its dequeue. */
  predicate PastStopTest(pc: PC) { pc.Check? || pc.Ready? }

  lemma StepDequeues(s: State, a: Action)
    requires s.stop
    ensures var t := Next(s, a);
      t.stop && t.head + Count(t.workers, PastStopTest) <= s.head + Count(s.workers, PastStopTest)
  {
    if a.Worker? && a.w < |s.workers| {
      CountUpdate(s.workers, a.w, MovedTo(s, s.workers[a.w]), PastStopTest);
    }
  }

  /** After a request, whatever is scheduled and enqueued, no more items are dequeued than workers
      had passed their stop test: each of those takes at most one more. */
  lemma {:induction false} DequeuesAfterStop(s: State, xs: seq<Action>)
    requires s.stop
    ensures Exec(s, xs).head + Count(Exec(s, xs).workers, PastStopTest) <= s.head + Count(s.workers, PastStopTest)
    ensures Exec(s, xs).stop
  {
    if xs != [] {
      var n := |xs| - 1;
      DequeuesAfterStop(s, xs[..n]);
      StepDequeues(Exec(s, xs[..n]), xs[n]);
    }
  }

  // ---- The epoch that a worker reports ----

  /** Between enter() and the end of its round a worker carries the epoch that enter() returned. */
  ghost predicate CarriesEntered(s: State)
  {
    forall w :: 0 <= w < |s.workers| && (s.workers[w].Inside? || s.workers[w].Running? || s.workers[w].Ran?) ==>
      Enter(s.workers[w].item, s.workers[w].tag) in s.log
  }

  lemma {:induction false} EnteredTagIsCarried(count: nat, schedule: seq<Action>)
    ensures CarriesEntered(Exec(Init(count), schedule))
  {
    if schedule != [] {
      var n := |schedule| - 1;
      EnteredTagIsCarried(count, schedule[..n]);
      var s := Exec(Init(count), schedule[..n]);
      if schedule[n].Worker? && schedule[n].w < |s.workers| {
        CarriesStep(s, schedule[n].w, schedule[n].ok);
      }
    }
  }

  lemma CarriesStep(s: State, w: nat, ok: bool)
    requires CarriesEntered(s) && w < |s.workers|
    ensures CarriesEntered(WorkerStep(s, w, ok))
  {
    var t := WorkerStep(s, w, ok);
    var pc' := t.workers[w];
    if pc'.Inside? {
      assert t.log[|t.log| - 1] == Enter(pc'.item, pc'.tag);
    } else if pc'.Running? || pc'.Ran? {
      assert Enter(pc'.item, pc'.tag) in s.log;
    }
  }
}
