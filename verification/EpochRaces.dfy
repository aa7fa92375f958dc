/** Where the promise of EpochOrdering fails: exactly which reads of current_epoch are wrong,
    two runs that get one wrong, and why a barrier claimed beside another claim always leaves
    the scheduler a way to break the promise. */
module EpochRaces {
  import opened EpochProtocol
  import opened Machine
  import opened EpochInvariants
  import opened EpochOrdering

  /** In every reachable state, a record about to read its tag will read its FIFO epoch exactly
      when the barriers dequeued behind it are as many as the barriers not yet drained. */
  lemma TagExactIff(count: nat, schedule: seq<Action>, w: nat)
    requires count < U64
    requires var s := Exec(Init(count), schedule); w < |s.workers| && s.workers[w].Incremented?
    ensures var s := Exec(Init(count), schedule); TagWillBeExactIff(s, s.workers[w].item)
  {
    EverySchedule(count, schedule);
    ReadExactIff(Exec(Init(count), schedule), w);
  }

  ghost predicate TagWillBeExactIff(s: State, k: nat)
  {
    && k < s.head <= |s.stream|
    && (s.epoch == Barriers(s.stream, k) % U64 <==>
        (Barriers(s.stream, s.head) - Barriers(s.stream, k)) % U64 == Count(s.workers, IsUndrained))
  }

  lemma ReadExactIff(s: State, w: nat)
    requires CountersAgree(s) && Ownership(s) && w < |s.workers| && s.workers[w].Incremented?
    ensures TagWillBeExactIff(s, s.workers[w].item)
  {
    var k := s.workers[w].item;
    BarriersGrow(s.stream, [], k, s.head);
    CountBounds(s.workers, IsUndrained);
    CongruentIff(Barriers(s.stream, s.head), Barriers(s.stream, k), Count(s.workers, IsUndrained));
  }

  lemma CongruentIff(h: nat, b: nat, u: nat)
    requires u <= h && b <= h && u < U64
    ensures (h - u) % U64 == b % U64 <==> (h - b) % U64 == u
  {
    var q, r := (h - b) / U64, (h - b) % U64;
    if (h - u) % U64 == b % U64 {
      var d := (h - u) / U64 - b / U64;
      assert r - u == (d - q) * U64;
    } else {
      assert h - u == b + q * U64 + (r - u);
    }
  }

  // ---- Building runs ----

  lemma TakeNone(s: State)
    ensures Exec(s, []) == s
  {
  }

  /** Extends a run by one action. */
  lemma Take(s0: State, xs: seq<Action>, s: State, a: Action) returns (ys: seq<Action>, t: State)
    requires Exec(s0, xs) == s
    ensures t == Next(s, a) && Exec(s0, ys) == t
  {
    ys, t := xs + [a], Next(s, a);
    assert ys[..|ys| - 1] == xs;
  }

  /** The action lets a worker past its check of barrier_pending, the one point at which a worker
      outside the claim window can be held back. */
  predicate PassesCheck(s: State, a: Action)
  {
    a.Worker? && a.w < |s.workers| && s.workers[a.w].Check?
  }

  /** This schedule leads from s to t without letting any worker past its check. */
  ghost predicate Runs(s: State, xs: seq<Action>, t: State)
  {
    t == Exec(s, xs) && Unchecked(s, xs)
  }

  ghost predicate Unchecked(s: State, xs: seq<Action>)
  {
    xs != [] ==> Unchecked(s, xs[..|xs| - 1]) && !PassesCheck(Exec(s, xs[..|xs| - 1]), xs[|xs| - 1])
  }

  lemma RunsNone(s: State)
    ensures Runs(s, [], s)
  {
  }

  lemma RunOn(s0: State, xs: seq<Action>, s: State, a: Action) returns (ys: seq<Action>, t: State)
    requires Runs(s0, xs, s) && !PassesCheck(s, a)
    ensures t == Next(s, a) && Runs(s0, ys, t)
  {
    ys, t := xs + [a], Next(s, a);
    assert ys[..|ys| - 1] == xs;
  }

  lemma {:induction false} RunsConcat(s: State, xs: seq<Action>, t: State, ys: seq<Action>, u: State)
    requires Runs(s, xs, t) && Runs(t, ys, u)
    ensures Runs(s, xs + ys, u)
  {
    if ys == [] {
      assert xs + ys == xs;
    } else {
      var n := |ys| - 1;
      assert (xs + ys)[..|xs + ys| - 1] == xs + ys[..n];
      RunsConcat(s, xs, t, ys[..n], Exec(t, ys[..n]));
    }
  }

  lemma TakeAlong(s0: State, xs: seq<Action>, s: State, a: Action, p: State -> bool)
    returns (ys: seq<Action>, t: State)
    requires Exec(s0, xs) == s && Along(s0, xs, p) && p(Next(s, a))
    ensures t == Next(s, a) && Exec(s0, ys) == t && Along(s0, ys, p)
  {
    ys, t := xs + [a], Next(s, a);
    assert ys[..|ys| - 1] == xs;
  }

  /** Some record was tagged with an epoch that is not its FIFO epoch. */
  ghost predicate Mistagged(s: State)
  {
    exists i :: 0 <= i < |s.log| && s.log[i].Enter? && s.log[i].item < |s.stream| &&
                s.log[i].tag != Barriers(s.stream, s.log[i].item) % U64
  }

  /** A worker at the top of its loop can go on to dequeue the next item. */
  lemma ClaimNext(s: State, w: nat) returns (xs: seq<Action>, t: State)
    requires w < |s.workers| && s.workers[w].Top? && !s.stop && !s.pending && s.head < |s.stream|
    ensures t == Exec(s, xs)
    ensures t == s.(head := s.head + 1, workers := s.workers[w :=
                    if s.stream[s.head].Data? then GotData(s.head) else GotBarrier(s.head)])
  {
    hide Exec;
    TakeNone(s);
    xs, t := Take(s, [], s, Worker(w, true));
    assert t == s.(workers := s.workers[w := Check]);
    xs, t := Take(s, xs, t, Worker(w, true));
    assert t == s.(workers := s.workers[w := Ready]);
    xs, t := Take(s, xs, t, Worker(w, true));
  }

  /** A worker holding a barrier can drain at once when nothing is in flight. */
  lemma DrainNow(s: State, w: nat) returns (xs: seq<Action>, t: State)
    requires w < |s.workers| && s.workers[w].GotBarrier? && s.inFlight == 0
    ensures Runs(s, xs, t)
    ensures var k := s.workers[w].item;
      t == s.(pending := true, epoch := Inc(s.epoch), workers := s.workers[w := Clearing(k)],
              log := s.log + [Pend(k), Advance(k)])
  {
    hide Runs;
    RunsNone(s);
    var k := s.workers[w].item;
    xs, t := RunOn(s, [], s, Worker(w, true));
    xs, t := RunOn(s, xs, t, Worker(w, true));
    assert t == s.(pending := true, workers := s.workers[w := Advancing(k)], log := s.log + [Pend(k)]);
    xs, t := RunOn(s, xs, t, Worker(w, true));
    assert t.log == s.log + [Pend(k), Advance(k)];
  }

  /** Two more steps take a worker from its dequeue to its tag. */
  lemma TagNow(s: State, w: nat) returns (xs: seq<Action>, t: State)
    requires w < |s.workers| && s.workers[w].GotData? && s.workers[w].item < |s.stream|
    ensures Runs(s, xs, t)
    ensures s.epoch != Barriers(s.stream, s.workers[w].item) % U64 ==> Mistagged(t)
  {
    hide Runs;
    RunsNone(s);
    var k := s.workers[w].item;
    xs, t := RunOn(s, [], s, Worker(w, true));
    xs, t := RunOn(s, xs, t, Worker(w, true));
    assert t.log[|t.log| - 1] == Enter(k, s.epoch);
  }

  /** A drain that slips in between a record's dequeue and its tag spoils the tag. */
  lemma DrainThenTag(s: State, a: nat, b: nat) returns (xs: seq<Action>, t: State)
    requires a < |s.workers| && b < |s.workers| && s.workers[a].GotData? && s.workers[b].GotBarrier?
    requires s.workers[a].item < |s.stream| && s.inFlight == 0
    requires s.epoch == Barriers(s.stream, s.workers[a].item) % U64
    ensures Runs(s, xs, t) && Mistagged(t)
  {
    hide Runs, Barriers, Mistagged, WorkerStep;
    var ys, u := DrainNow(s, b);
    var zs;
    zs, t := TagNow(u, a);
    RunsConcat(s, ys, u, zs, t);
    xs := ys + zs;
  }

  lemma BothClaimed() returns (xs: seq<Action>, s: State)
    ensures Exec(Init(2), xs) == s
    ensures s == State([Data, Barrier], 2, 0, 0, false, false, [GotData(0), GotBarrier(1)], {}, 0, 0, 0, [])
  {
    var s0 := Init(2);
    var ws, t := Take(s0, [], s0, Enqueue(Data));
    ws, t := Take(s0, ws, t, Enqueue(Barrier));
    var ys, u := ClaimNext(t, 0);
    var zs;
    zs, s := ClaimNext(u, 1);
    ExecConcat(s0, ws, ys);
    ExecConcat(s0, ws + ys, zs);
    xs := ws + ys + zs;
  }

  /** Worker 0 dequeues a record; worker 1 dequeues the barrier behind it, finds in_flight still
      zero and advances; worker 0 then enters the wrong epoch. */
  lemma OverlappingClaimsMistag()
    ensures exists schedule :: Mistagged(Exec(Init(2), schedule))
  {
    var xs, s := BothClaimed();
    var rest, t := DrainThenTag(s, 0, 1);
    ExecConcat(Init(2), xs, rest);
    assert Mistagged(Exec(Init(2), xs + rest));
  }

  /** Past the check of barrier_pending but before the dequeue is outside this window. */
  predicate IsHolding(pc: PC) { pc.GotData? || pc.GotBarrier? }

  ghost predicate OneHolding(s: State)
  {
    forall v, w :: 0 <= v < w < |s.workers| && IsHolding(s.workers[v]) ==> !IsHolding(s.workers[w])
  }

  lemma BothQueued() returns (xs: seq<Action>, s: State)
    ensures Exec(Init(2), xs) == s && Along(Init(2), xs, OneHolding)
    ensures s == State([Barrier, Data], 0, 0, 0, false, false, [Top, Top], {}, 0, 0, 0, [])
  {
    xs, s := TakeAlong(Init(2), [], Init(2), Enqueue(Barrier), OneHolding);
    xs, s := TakeAlong(Init(2), xs, s, Enqueue(Data), OneHolding);
  }

  lemma PassedCheck() returns (xs: seq<Action>, s: State)
    ensures Exec(Init(2), xs) == s && Along(Init(2), xs, OneHolding)
    ensures s == State([Barrier, Data], 0, 0, 0, false, false, [Ready, Top], {}, 0, 0, 0, [])
  {
    hide Exec, Along;
    xs, s := BothQueued();
    xs, s := TakeAlong(Init(2), xs, s, Worker(0, true), OneHolding);
    xs, s := TakeAlong(Init(2), xs, s, Worker(0, true), OneHolding);
  }

  /** Worker 0 has passed the check; worker 1 has found in_flight zero for the barrier. */
  lemma StaleScene() returns (xs: seq<Action>, s: State)
    ensures Exec(Init(2), xs) == s && Along(Init(2), xs, OneHolding)
    ensures s == State([Barrier, Data], 1, 0, 0, true, false, [Ready, Advancing(0)], {}, 0, 0, 0, [Pend(0)])
  {
    hide Exec, Along;
    xs, s := PassedCheck();
    xs, s := TakeAlong(Init(2), xs, s, Worker(1, true), OneHolding);
    xs, s := TakeAlong(Init(2), xs, s, Worker(1, true), OneHolding);
    xs, s := TakeAlong(Init(2), xs, s, Worker(1, true), OneHolding);
    assert s == State([Barrier, Data], 1, 0, 0, false, false, [Ready, GotBarrier(0)], {}, 0, 0, 0, []);
    xs, s := TakeAlong(Init(2), xs, s, Worker(1, true), OneHolding);
    xs, s := TakeAlong(Init(2), xs, s, Worker(1, true), OneHolding);
  }

  lemma StaleIncrement() returns (xs: seq<Action>, s: State)
    ensures Exec(Init(2), xs) == s && Along(Init(2), xs, OneHolding)
    ensures s == State([Barrier, Data], 2, 0, 1, true, false, [Incremented(1), Advancing(0)], {}, 0, 0, 0,
                       [Pend(0), Increment(1)])
  {
    hide Exec, Along;
    xs, s := StaleScene();
    xs, s := TakeAlong(Init(2), xs, s, Worker(0, true), OneHolding);
    xs, s := TakeAlong(Init(2), xs, s, Worker(0, true), OneHolding);
  }

  /** Keeping only the windows from dequeue to publication apart is not enough: a worker that
      passed the check before the barrier was announced still enters a stale epoch. */
  lemma LockAroundDequeueTooNarrow()
    ensures exists schedule :: Along(Init(2), schedule, OneHolding) && Mistagged(Exec(Init(2), schedule))
  {
    var xs, s := StaleIncrement();
    xs, s := TakeAlong(Init(2), xs, s, Worker(0, true), OneHolding);
    assert s.log[2] == Enter(1, 0) && Barriers(s.stream, 1) == 1;
    assert Mistagged(s);
  }

  // ---- A barrier claimed beside another claim is always a race ----

  /** An in-flight worker can be run to the point where it has left in_flight. */
  lemma FinishOne(s: State, w: nat) returns (xs: seq<Action>, t: State)
    requires w < |s.workers| && IsInFlight(s.workers[w])
    ensures Runs(s, xs, t)
    ensures t.workers == s.workers[w := Releasing(s.workers[w].item)]
    ensures t.stream == s.stream && t.epoch == s.epoch && t.inFlight == Dec(s.inFlight)
    decreases s.workers[w].Incremented?, s.workers[w].Inside?, s.workers[w].Running?
  {
    RunsNone(s);
    xs, t := RunOn(s, [], s, Worker(w, true));
    if !s.workers[w].Ran? {
      var ys, u := FinishOne(t, w);
      RunsConcat(s, xs, t, ys, u);
      xs, t := xs + ys, u;
    }
  }

  lemma FinishSome(s: State) returns (xs: seq<Action>, t: State)
    requires 0 < s.inFlight == Count(s.workers, IsInFlight) && |s.workers| < U64
    ensures Runs(s, xs, t) && t.inFlight == Count(t.workers, IsInFlight) < s.inFlight
    ensures t.stream == s.stream && t.epoch == s.epoch && |t.workers| == |s.workers|
    ensures forall v :: 0 <= v < |s.workers| && !IsInFlight(s.workers[v]) ==> t.workers[v] == s.workers[v]
    ensures forall v :: 0 <= v < |s.workers| && !IsInFlight(s.workers[v]) ==> !IsInFlight(t.workers[v])
  {
    hide Runs, Count;
    CountBounds(s.workers, IsInFlight);
    var w :| 0 <= w < |s.workers| && IsInFlight(s.workers[w]);
    CountUpdate(s.workers, w, Releasing(s.workers[w].item), IsInFlight);
    xs, t := FinishOne(s, w);
    DecPositive(s.inFlight);
  }

  lemma DecPositive(x: nat)
    requires 0 < x < U64
    ensures Dec(x) == x - 1
  {
  }

  /** Every in-flight worker can be run out of in_flight with the others standing still. */
  lemma {:induction false} FinishAll(s: State) returns (xs: seq<Action>, t: State)
    requires |s.workers| < U64 && s.inFlight == Count(s.workers, IsInFlight)
    ensures Runs(s, xs, t) && t.inFlight == 0
    ensures t.stream == s.stream && t.epoch == s.epoch && |t.workers| == |s.workers|
    ensures forall v :: 0 <= v < |s.workers| && !IsInFlight(s.workers[v]) ==> t.workers[v] == s.workers[v]
    decreases Count(s.workers, IsInFlight)
  {
    hide Runs;
    if s.inFlight == 0 {
      RunsNone(s);
      xs, t := [], s;
    } else {
      var ys, u := FinishSome(s);
      var zs;
      zs, t := FinishAll(u);
      xs := ys + zs;
      RunsConcat(s, ys, u, zs, t);
    }
  }

  /** Tagging now and tagging after the other worker's drain give different epochs, so one of
      the two is wrong. */
  lemma SteerToMistag(s: State, a: nat, b: nat) returns (more: seq<Action>, t: State)
    requires Inv(s) && a < |s.workers| && b < |s.workers|
    requires s.workers[a].GotData? && s.workers[b].GotBarrier?
    ensures Runs(s, more, t) && Mistagged(t)
  {
    if s.epoch != Barriers(s.stream, s.workers[a].item) % U64 {
      more, t := TagNow(s, a);
    } else {
      var xs, u := FinishAll(s);
      var ys;
      ys, t := DrainThenTag(u, a, b);
      RunsConcat(s, xs, u, ys, t);
      more := xs + ys;
    }
  }

  /** From any reachable state in which one worker has dequeued a record and another a barrier,
      neither published yet, some continuation mis-tags the record. */
  lemma OverlapCanMistag(count: nat, schedule: seq<Action>, a: nat, b: nat)
    requires count < U64
    requires var s := Exec(Init(count), schedule);
      a < |s.workers| && b < |s.workers| && s.workers[a].GotData? && s.workers[b].GotBarrier?
    ensures exists more :: Mistagged(Exec(Init(count), schedule + more))
  {
    InitInv(count);
    ExecInv(Init(count), schedule);
    var more, t := SteerToMistag(Exec(Init(count), schedule), a, b);
    ExecConcat(Init(count), schedule, more);
    assert Mistagged(Exec(Init(count), schedule + more));
  }

  /** The next item is of this kind, or none has been enqueued yet. */
  ghost predicate NextCanBe(s: State, item: Item)
  {
    s.head == |s.stream| || (s.head < |s.stream| && s.stream[s.head] == item)
  }

  /** A worker past its check can dequeue what is next or what is enqueued next. */
  lemma DequeueNext(s: State, w: nat, item: Item) returns (xs: seq<Action>, t: State)
    requires Inv(s) && w < |s.workers| && s.workers[w].Ready?
    requires NextCanBe(s, item)
    ensures Runs(s, xs, t) && Inv(t)
    ensures t.workers == s.workers[w := if item.Data? then GotData(s.head) else GotBarrier(s.head)]
  {
    hide Inv, Runs;
    RunsNone(s);
    var u := s;
    xs := [];
    if s.head == |s.stream| {
      NextInv(s, Enqueue(item));
      xs, u := RunOn(s, xs, s, Enqueue(item));
    }
    NextInv(u, Worker(w, true));
    xs, t := RunOn(s, xs, u, Worker(w, true));
  }

  /** The overlaps before the dequeue: a worker past its check of barrier_pending while another
      holds an unpublished barrier, or an unpublished record. Unless the next item is of the wrong
      kind, some continuation mis-tags a record. */
  lemma ReadyOverlapCanMistag(count: nat, schedule: seq<Action>, a: nat, b: nat)
    requires count < U64
    requires var s := Exec(Init(count), schedule);
      && a < |s.workers| && b < |s.workers| && s.workers[a].Ready?
      && ((s.workers[b].GotBarrier? && NextCanBe(s, Data)) || (s.workers[b].GotData? && NextCanBe(s, Barrier)))
    ensures exists more :: Mistagged(Exec(Init(count), schedule + more))
  {
    hide Inv, Mistagged, Runs;
    InitInv(count);
    ExecInv(Init(count), schedule);
    var s := Exec(Init(count), schedule);
    var ys, t := DequeueNext(s, a, if s.workers[b].GotBarrier? then Data else Barrier);
    var zs, u;
    if s.workers[b].GotBarrier? {
      zs, u := SteerToMistag(t, a, b);
    } else {
      zs, u := SteerToMistag(t, b, a);
    }
    RunsConcat(s, ys, t, zs, u);
    RunsMeans(s, ys + zs, u);
    ExecConcat(Init(count), schedule, ys + zs);
    assert Mistagged(Exec(Init(count), schedule + (ys + zs)));
  }

  lemma RunsMeans(s: State, xs: seq<Action>, t: State)
    requires Runs(s, xs, t)
    ensures t == Exec(s, xs) && Unchecked(s, xs)
  {
  }

  /** Two workers that both hold a barrier both drain. */
  lemma DrainTogether(s: State, a: nat, b: nat) returns (more: seq<Action>, t: State)
    requires a < |s.workers| && b < |s.workers| && a != b
    requires s.workers[a].GotBarrier? && s.workers[b].GotBarrier?
    ensures Runs(s, more, t) && !OneDrain(t)
  {
    hide Runs;
    RunsNone(s);
    more, t := RunOn(s, [], s, Worker(a, true));
    more, t := RunOn(s, more, t, Worker(b, true));
    assert IsDraining(t.workers[a]) && IsDraining(t.workers[b]);
  }

  /** With the workers that are past their check already, the promise can be broken as soon as
      one of them holds a barrier beside another. */
  lemma SteerToBreak(s: State, a: nat, b: nat) returns (more: seq<Action>, t: State)
    requires Inv(s) && a < |s.workers| && b < |s.workers| && a != b
    requires IsClaiming(s.workers[a]) && s.workers[b].GotBarrier?
    ensures Runs(s, more, t) && (Mistagged(t) || !OneDrain(t))
    decreases s.workers[a].Ready?
  {
    hide Inv, Runs, Mistagged, OneDrain;
    if s.workers[a].Ready? {
      var item := if s.head < |s.stream| then s.stream[s.head] else Data;
      BoundedHead(s);
      var xs, u := DequeueNext(s, a, item);
      var ys;
      ys, t := SteerToBreak(u, a, b);
      RunsConcat(s, xs, u, ys, t);
      more := xs + ys;
    } else if s.workers[a].GotData? {
      more, t := SteerToMistag(s, a, b);
    } else {
      more, t := DrainTogether(s, a, b);
    }
  }

  /** The converse of EpochOrdering: from any reachable state in which a barrier is claimed beside
      another claim, the workers already past their check can break the promise. */
  lemma CrowdedBarrierCanBreak(count: nat, schedule: seq<Action>)
    requires count < U64 && !BarriersAlone(Exec(Init(count), schedule))
    ensures exists more :: Unchecked(Exec(Init(count), schedule), more) &&
                           !PromiseKept(Exec(Init(count), schedule + more))
  {
    hide Inv, Exec, Unchecked, Barriers;
    InitInv(count);
    ExecInv(Init(count), schedule);
    var s := Exec(Init(count), schedule);
    var b, a :| 0 <= b < |s.workers| && 0 <= a < |s.workers| && b != a && s.workers[b].GotBarrier? &&
                IsClaiming(s.workers[a]);
    var more, t := SteerToBreak(s, a, b);
    ExecConcat(Init(count), schedule, more);
    assert Unchecked(s, more) && !PromiseKept(Exec(Init(count), schedule + more));
  }
}
