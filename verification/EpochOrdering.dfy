/** The epoch ordering promise: what holds on every schedule, and the full promise when no
    barrier is claimed beside another claim. EpochRaces proves that nothing less will do. */
module EpochOrdering {
  import opened EpochProtocol
  import opened Machine
  import opened EpochInvariants

  /** What the three atomics keep on every schedule whatsoever: in_flight is the number of
      workers between increment and exit; current_epoch is the barriers dequeued less those
      undrained; a raised barrier_pending has a drain behind it; no record is lost between
      the counters; every dequeued item is freed or held once; and a tag lags the FIFO epoch
      of its record by less than the number of workers. */
  lemma EverySchedule(count: nat, schedule: seq<Action>)
    requires count < U64
    ensures var s := Exec(Init(count), schedule);
      CountersAgree(s) && Ownership(s) && TagsLag(s) && |s.workers| == count
  {
    InitInv(count);
    ExecInv(Init(count), schedule);
    ExecShape(Init(count), schedule);
  }

  /** On every schedule, a record that incremented in_flight before a drain stored
      barrier_pending has exited before that drain advances the epoch. */
  lemma FlushBeforeAdvance(count: nat, schedule: seq<Action>, i: nat, j: nat, m: nat)
    requires count < U64
    requires var log := Exec(Init(count), schedule).log;
      && i < j < m < |log| && log[i].Increment? && log[m].Advance? && log[j] == Pend(log[m].item)
    ensures var log := Exec(Init(count), schedule).log;
      ExitedWithin(log, i, m, log[i].item)
  {
    InitInv(count);
    ExecInv(Init(count), schedule);
    assert FlushedBefore(Exec(Init(count), schedule).log, j, m);
  }

  lemma {:induction false} ExecShape(s: State, schedule: seq<Action>)
    ensures |Exec(s, schedule).workers| == |s.workers|
  {
    if schedule != [] {
      ExecShape(s, schedule[..|schedule| - 1]);
    }
  }

  /** When every worker has returned, the barrier is at rest and every dequeued item is freed. */
  lemma QuiescentAfterStop(count: nat, schedule: seq<Action>)
    requires count < U64
    requires forall pc :: pc in Exec(Init(count), schedule).workers ==> pc.Stopped?
    ensures var s := Exec(Init(count), schedule);
      && s.inFlight == 0
      && !s.pending
      && s.head <= |s.stream|
      && s.epoch == Barriers(s.stream, s.head) % U64
      && (forall k :: k in s.freed <==> 0 <= k < s.head)
      && s.recordsIn == (s.dropped + s.forwarded) % U64
  {
    hide Count, Barriers, Advances, Exec, Held, TagsLag;
    EverySchedule(count, schedule);
    AtRest(Exec(Init(count), schedule));
  }

  lemma AtRest(s: State)
    requires CountersAgree(s) && Ownership(s) && forall pc :: pc in s.workers ==> pc.Stopped?
    ensures s.inFlight == 0 && !s.pending && s.epoch == Barriers(s.stream, s.head) % U64
    ensures forall k :: k in s.freed <==> 0 <= k < s.head
    ensures s.recordsIn == (s.dropped + s.forwarded) % U64
  {
    hide Count, Barriers, Advances;
    assert forall w :: 0 <= w < |s.workers| ==> s.workers[w].Stopped?;
    CountBounds(s.workers, IsInFlight);
    CountBounds(s.workers, IsUndrained);
    CountBounds(s.workers, IsRunning);
    assert forall k :: !Held(s, k);
  }

  // ---- The promise, when barriers are claimed alone ----

  /** While a worker holds a barrier that it has not announced, no other worker is between its
      check of barrier_pending and the store or increment that publishes what it dequeued.
      Workers claiming records may overlap freely. */
  ghost predicate BarriersAlone(s: State)
  {
    forall v, w | 0 <= v < |s.workers| && 0 <= w < |s.workers| && v != w && s.workers[v].GotBarrier? ::
      !IsClaiming(s.workers[w])
  }

  /** p holds of every state that the schedule passes through. */
  ghost predicate Along(s: State, schedule: seq<Action>, p: State -> bool)
  {
    && p(Exec(s, schedule))
    && (schedule != [] ==> Along(s, schedule[..|schedule| - 1], p))
  }

  ghost predicate OneDrain(s: State)
  {
    forall v, w | 0 <= v < w < |s.workers| && IsDraining(s.workers[v]) :: !IsDraining(s.workers[w])
  }

  /** One drain at a time, announced by barrier_pending, and nobody claims meanwhile. */
  ghost predicate DrainsExclude(s: State)
  {
    && (forall w :: 0 <= w < |s.workers| && IsDraining(s.workers[w]) ==> s.pending)
    && (forall v, w | 0 <= v < |s.workers| && 0 <= w < |s.workers| && IsDraining(s.workers[w]) ::
          !IsClaiming(s.workers[v]))
    && OneDrain(s)
  }

  /** Once a drain has seen in_flight == 0 it stays 0 until the advance. */
  ghost predicate AdvancesQuiet(s: State)
  {
    forall w :: 0 <= w < |s.workers| && s.workers[w].Advancing? ==> s.inFlight == 0
  }

  predicate Untagged(pc: PC) { pc.GotData? || pc.Incremented? }

  /** The epoch count is already the FIFO epoch of every record about to be tagged. */
  ghost predicate UntaggedCurrent(s: State)
  {
    forall w :: 0 <= w < |s.workers| && Untagged(s.workers[w]) ==>
      && s.workers[w].item < |s.stream|
      && Barriers(s.stream, s.workers[w].item) == Advances(s.log, |s.log|)
  }

  /** Every dequeued record of an earlier epoch has exited. */
  ghost predicate PastExited(s: State)
  {
    && s.head <= |s.stream|
    && forall k: nat | k < s.head && s.stream[k].Data? && Barriers(s.stream, k) < Advances(s.log, |s.log|) ::
         Exit(k) in s.log
  }

  /** Tags are exact and epochs do not interleave, for everything logged so far. */
  ghost predicate TagsExact(s: State)
  {
    forall i :: 0 <= i < |s.log| && s.log[i].Enter? ==>
      && s.log[i].item < |s.stream|
      && s.log[i].tag == Barriers(s.stream, s.log[i].item) % U64
      && EarlierExited(s.stream, s.log[i].item, s.log[..i])
  }

  /** Every record of an epoch before that of item k exits somewhere in this log. */
  ghost predicate EarlierExited(stream: seq<Item>, k: nat, log: seq<Event>)
    requires k < |stream|
  {
    forall j: nat | j < |stream| && stream[j].Data? && Barriers(stream, j) < Barriers(stream, k) ::
      Exit(j) in log
  }

  /** The promise: a record's tag is the number of barriers ahead of it in the FIFO; every record
      of an earlier epoch exits before any record of a later one enters; and at most one worker
      is draining. */
  ghost predicate PromiseKept(s: State)
  {
    TagsExact(s) && OneDrain(s)
  }

  ghost predicate Ordered(s: State)
  {
    && Inv(s)
    && BarriersAlone(s)
    && DrainsExclude(s)
    && AdvancesQuiet(s)
    && UntaggedCurrent(s)
    && PastExited(s)
    && TagsExact(s)
  }

  lemma DrainsExcludeStep(s: State, w: nat, ok: bool)
    requires BarriersAlone(s) && DrainsExclude(s) && w < |s.workers|
    ensures DrainsExclude(WorkerStep(s, w, ok))
  {
    var pc' := MovedTo(s, s.workers[w]);
    assert IsDraining(pc') ==> IsDraining(s.workers[w]) || s.workers[w].GotBarrier?;
    assert IsClaiming(pc') ==> IsClaiming(s.workers[w]) || (s.workers[w].Check? && !s.pending);
  }

  lemma FlightsCounted(s: State)
    requires Inv(s)
    ensures s.inFlight == Count(s.workers, IsInFlight)
  {
  }

  lemma AdvancesQuietStep(s: State, w: nat, ok: bool)
    requires Inv(s) && DrainsExclude(s) && AdvancesQuiet(s) && w < |s.workers|
    ensures AdvancesQuiet(WorkerStep(s, w, ok))
  {
    hide Inv, Count;
    FlightsCounted(s);
    if s.workers[w].GotData? {
      assert forall v :: 0 <= v < |s.workers| ==> !s.workers[v].Advancing?;
    } else if s.workers[w].Ran? {
      CountBounds(s.workers, IsInFlight);
    }
  }

  /** At the moment of an advance every data record dequeued so far has exited. */
  lemma AdvanceSeesAllExited(s: State, w: nat)
    requires Inv(s) && DrainsExclude(s) && AdvancesQuiet(s)
    requires w < |s.workers| && s.workers[w].Advancing?
    ensures forall k: nat :: k < s.head && s.stream[k].Data? ==> Exit(k) in s.log
    ensures forall v :: 0 <= v < |s.workers| ==> !Untagged(s.workers[v])
  {
    CountBounds(s.workers, IsInFlight);
    assert forall v :: 0 <= v < |s.workers| ==> !CarriesData(s.workers[v]);
    assert forall k :: !Carried(s, k);
  }

  /** At the moment of a dequeue no barrier is undrained. */
  lemma ClaimSeesAllDrained(s: State, w: nat)
    requires Inv(s) && BarriersAlone(s) && DrainsExclude(s)
    requires w < |s.workers| && s.workers[w].Ready?
    ensures Barriers(s.stream, s.head) == Advances(s.log, |s.log|)
  {
    forall v | 0 <= v < |s.workers|
      ensures !IsUndrained(s.workers[v])
    {
      assert IsClaiming(s.workers[w]);
    }
    CountBounds(s.workers, IsUndrained);
  }

  lemma UntaggedCurrentStep(s: State, w: nat, ok: bool)
    requires UntaggedCurrent(s) && s.head <= |s.stream| && w < |s.workers|
    requires s.workers[w].Advancing? ==> forall v :: 0 <= v < |s.workers| ==> !Untagged(s.workers[v])
    requires s.workers[w].Ready? ==> Barriers(s.stream, s.head) == Advances(s.log, |s.log|)
    ensures UntaggedCurrent(WorkerStep(s, w, ok))
  {
    AdvancesGrow(s.log, Logged(s, s.workers[w]), |s.log|);
    var t := WorkerStep(s, w, ok);
    assert !s.workers[w].Advancing? ==> Advances(t.log, |t.log|) == Advances(s.log, |s.log|);
    if Untagged(t.workers[w]) && !s.workers[w].Ready? {
      assert Untagged(s.workers[w]);
    }
  }

  lemma PastExitedStep(s: State, w: nat, ok: bool)
    requires PastExited(s) && w < |s.workers|
    requires s.workers[w].Advancing? ==> forall k: nat :: k < s.head && s.stream[k].Data? ==> Exit(k) in s.log
    requires s.workers[w].Ready? ==> Barriers(s.stream, s.head) == Advances(s.log, |s.log|)
    ensures PastExited(WorkerStep(s, w, ok))
  {
    hide Barriers;
    AdvancesGrow(s.log, Logged(s, s.workers[w]), |s.log|);
  }

  lemma EpochsSeparateStep(s: State, w: nat, ok: bool)
    requires Ordered(s) && w < |s.workers|
    ensures UntaggedCurrent(WorkerStep(s, w, ok)) && PastExited(WorkerStep(s, w, ok))
  {
    if s.workers[w].Advancing? {
      AdvanceSeesAllExited(s, w);
    } else if s.workers[w].Ready? {
      ClaimSeesAllDrained(s, w);
    }
    UntaggedCurrentStep(s, w, ok);
    PastExitedStep(s, w, ok);
  }

  /** enter() reads the right epoch, after every earlier record has exited. */
  lemma EnterExact(s: State, w: nat)
    requires s.head <= |s.stream| && EpochsAgree(s) && UntaggedCurrent(s) && PastExited(s)
    requires w < |s.workers| && s.workers[w].Incremented? && s.workers[w].item < s.head
    ensures s.workers[w].item < |s.stream|
    ensures s.epoch == Barriers(s.stream, s.workers[w].item) % U64
    ensures EarlierExited(s.stream, s.workers[w].item, s.log)
  {
    var k := s.workers[w].item;
    assert Untagged(s.workers[w]);
    forall j: nat | j < |s.stream| && s.stream[j].Data? && Barriers(s.stream, j) < Barriers(s.stream, k)
      ensures Exit(j) in s.log
    {
      if k <= j {
        BarriersGrow(s.stream, [], k, j);
      }
    }
  }

  lemma TagsExactStep(s: State, w: nat, ok: bool)
    requires Ordered(s) && w < |s.workers|
    ensures TagsExact(WorkerStep(s, w, ok))
  {
    var t := WorkerStep(s, w, ok);
    forall i | 0 <= i < |t.log| && t.log[i].Enter?
      ensures t.log[i].item < |t.stream|
      ensures t.log[i].tag == Barriers(t.stream, t.log[i].item) % U64
      ensures EarlierExited(t.stream, t.log[i].item, t.log[..i])
    {
      if i < |s.log| {
        assert t.log[..i] == s.log[..i];
      } else {
        EnterExact(s, w);
        assert t.log[..i] == s.log;
      }
    }
  }

  lemma EnvironmentOrdered(s: State, t: State, more: seq<Item>)
    requires Ordered(s) && t == s.(stream := s.stream + more, stop := t.stop) && BarriersAlone(t)
    ensures Ordered(t)
  {
    hide Inv, Barriers, EarlierExited;
    EnvironmentInv(s, t, more);
    BoundedHead(s);
    SameBarriers(s.stream, more);
    forall k: nat, log | k < |s.stream| && EarlierExited(s.stream, k, log)
      ensures EarlierExited(t.stream, k, log)
    {
      EnvironmentExited(s.stream, more, k, log);
    }
  }

  lemma BoundedHead(s: State)
    requires Inv(s)
    ensures s.head <= |s.stream|
  {
  }

  lemma SameBarriers(stream: seq<Item>, more: seq<Item>)
    ensures forall k: nat :: k <= |stream| ==> Barriers(stream + more, k) == Barriers(stream, k)
  {
    hide Barriers;
    forall k: nat | k <= |stream|
      ensures Barriers(stream + more, k) == Barriers(stream, k)
    {
      BarriersGrow(stream, more, k, k);
    }
  }

  /** What is enqueued later is of no earlier epoch. */
  lemma EnvironmentExited(stream: seq<Item>, more: seq<Item>, k: nat, log: seq<Event>)
    requires k < |stream| && EarlierExited(stream, k, log)
    ensures EarlierExited(stream + more, k, log)
  {
    hide Barriers;
    var all := stream + more;
    SameBarriers(stream, more);
    forall j: nat | j < |all| && all[j].Data? && Barriers(all, j) < Barriers(all, k)
      ensures Exit(j) in log
    {
      if |stream| <= j {
        BarriersGrow(all, [], k, j);
      }
    }
  }

  lemma StepOrdered(s: State, a: Action)
    requires Ordered(s) && BarriersAlone(Next(s, a))
    ensures Ordered(Next(s, a))
  {
    match a
    case Worker(w, ok) =>
      if w < |s.workers| {
        WorkerInv(s, w, ok);
        DrainsExcludeStep(s, w, ok);
        AdvancesQuietStep(s, w, ok);
        EpochsSeparateStep(s, w, ok);
        TagsExactStep(s, w, ok);
      }
    case Enqueue(item) => EnvironmentOrdered(s, Next(s, a), [item]);
    case RequestStop =>
      assert s.stream + [] == s.stream;
      EnvironmentOrdered(s, Next(s, a), []);
  }

  lemma {:induction false} ExecOrdered(count: nat, schedule: seq<Action>)
    requires count < U64 && Along(Init(count), schedule, BarriersAlone)
    ensures Ordered(Exec(Init(count), schedule))
  {
    if schedule == [] {
      InitInv(count);
    } else {
      var n := |schedule| - 1;
      ExecOrdered(count, schedule[..n]);
      StepOrdered(Exec(Init(count), schedule[..n]), schedule[n]);
    }
  }

  /** The ordering promise holds on every schedule on which barriers are claimed alone. */
  lemma EpochOrdering(count: nat, schedule: seq<Action>)
    requires count < U64 && Along(Init(count), schedule, BarriersAlone)
    ensures PromiseKept(Exec(Init(count), schedule))
  {
    ExecOrdered(count, schedule);
  }
}
