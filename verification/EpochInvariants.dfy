/** What the barrier and the worker loop keep in every interleaving, with no
    hypothesis on the schedule. */
module EpochInvariants {
  import opened EpochProtocol
  import opened Machine

  // ---- The shared counters ----

  ghost predicate CountersAgree(s: State)
  {
    && |s.workers| < U64
    && s.head <= |s.stream|
    && s.inFlight == Count(s.workers, IsInFlight)
    && EpochsAgree(s)
    && RecordsAgree(s)
    && (s.pending ==> exists w :: 0 <= w < |s.workers| && IsDraining(s.workers[w]))
  }

  /** current_epoch is the number of barriers dequeued, less those not yet drained. */
  ghost predicate EpochsAgree(s: State)
    requires s.head <= |s.stream|
  {
    && s.epoch == Advances(s.log, |s.log|) % U64
    && Advances(s.log, |s.log|) + Count(s.workers, IsUndrained) == Barriers(s.stream, s.head)
  }

  /** Every record counted in is dropped, forwarded or still in the pipeline. */
  ghost predicate RecordsAgree(s: State)
  {
    s.recordsIn == (s.dropped + s.forwarded + Count(s.workers, IsRunning)) % U64
  }

  lemma IncMod(x: nat)
    ensures Inc(x % U64) == (x + 1) % U64
  {
  }

  lemma EpochsStep(s: State, w: nat, ok: bool)
    requires s.head <= |s.stream| && EpochsAgree(s) && w < |s.workers|
    ensures EpochsAgree(WorkerStep(s, w, ok))
  {
    var pc := s.workers[w];
    CountUpdate(s.workers, w, MovedTo(s, pc), IsUndrained);
    AdvancesGrow(s.log, Logged(s, pc), |s.log|);
    IncMod(Advances(s.log, |s.log|));
  }

  lemma RecordsStep(s: State, w: nat, ok: bool)
    requires RecordsAgree(s) && w < |s.workers|
    ensures RecordsAgree(WorkerStep(s, w, ok))
  {
    var pc := s.workers[w];
    var running := Count(s.workers, IsRunning);
    CountUpdate(s.workers, w, MovedTo(s, pc), IsRunning);
    if pc.Inside? {
      IncMod(s.dropped + s.forwarded + running);
    } else if pc.Running? {
      WrappedSum(s.dropped, s.forwarded, running);
      WrappedSum(s.forwarded, s.dropped, running);
    }
  }

  /** Moving one unit from a count into a wrapping counter keeps the wrapped sum. */
  lemma WrappedSum(x: nat, y: nat, n: nat)
    requires 0 < n
    ensures (Inc(x) + y + (n - 1)) % U64 == (x + y + n) % U64
  {
    var q := (x + 1) / U64;
    assert x + y + n == Inc(x) + y + (n - 1) + q * U64;
  }

  lemma InFlightStep(s: State, w: nat, ok: bool)
    requires |s.workers| < U64 && w < |s.workers|
    requires s.inFlight == Count(s.workers, IsInFlight)
    ensures var t := WorkerStep(s, w, ok); t.inFlight == Count(t.workers, IsInFlight)
  {
    var pc' := MovedTo(s, s.workers[w]);
    CountUpdate(s.workers, w, pc', IsInFlight);
    CountBounds(s.workers, IsInFlight);
    CountBounds(s.workers[w := pc'], IsInFlight);
  }

  lemma CountersStep(s: State, w: nat, ok: bool)
    requires CountersAgree(s) && w < |s.workers|
    ensures CountersAgree(WorkerStep(s, w, ok))
  {
    EpochsStep(s, w, ok);
    RecordsStep(s, w, ok);
    InFlightStep(s, w, ok);
    PendingStep(s, w, ok);
  }

  lemma PendingStep(s: State, w: nat, ok: bool)
    requires w < |s.workers|
    requires s.pending ==> exists v :: 0 <= v < |s.workers| && IsDraining(s.workers[v])
    ensures var t := WorkerStep(s, w, ok);
            t.pending ==> exists v :: 0 <= v < |t.workers| && IsDraining(t.workers[v])
  {
    var t := WorkerStep(s, w, ok);
    if t.pending {
      if IsDraining(t.workers[w]) {
      } else {
        var v :| 0 <= v < |s.workers| && IsDraining(s.workers[v]);
        assert v != w;
        assert IsDraining(t.workers[v]);
      }
    }
  }

  // ---- Who holds what ----

  ghost predicate Held(s: State, k: nat)
  {
    exists w :: 0 <= w < |s.workers| && s.workers[w].Holds() && s.workers[w].item == k
  }

  predicate KindFits(pc: PC, stream: seq<Item>)
  {
    pc.Holds() && !pc.Releasing? ==>
      pc.item < |stream| &&
      (stream[pc.item].Barrier? <==> IsUndrained(pc) || pc.Clearing?)
  }

  /** Every dequeued item is freed or in the hands of exactly one worker, never both. */
  ghost predicate Ownership(s: State)
  {
    && s.head <= |s.stream|
    && (forall w :: 0 <= w < |s.workers| ==> KindFits(s.workers[w], s.stream))
    && (forall w :: 0 <= w < |s.workers| && s.workers[w].Holds() ==>
          s.workers[w].item < s.head && s.workers[w].item !in s.freed)
    && (forall v, w :: 0 <= v < w < |s.workers| && s.workers[v].Holds() && s.workers[w].Holds() ==>
          s.workers[v].item != s.workers[w].item)
    && (forall k :: 0 <= k < s.head && k !in s.freed ==> Held(s, k))
    && (forall k :: k in s.freed ==> k < s.head)
  }

  /** How one step moves an item: it stays put, is dequeued, or is freed. */
  ghost predicate Hands(s: State, w: nat, t: State)
    requires w < |s.workers| == |t.workers|
  {
    var pc, pc' := s.workers[w], t.workers[w];
    && t.stream == s.stream
    && t.workers == s.workers[w := pc']
    && (KindFits(pc, s.stream) ==> KindFits(pc', s.stream))
    && if pc.Holds() then
         && t.head == s.head
         && if pc'.Holds() then pc'.item == pc.item && t.freed == s.freed
            else t.freed == s.freed + {pc.item}
       else
         && t.freed == s.freed
         && if pc'.Holds() then pc'.item == s.head < |s.stream| && t.head == s.head + 1
            else t.head == s.head
  }

  lemma StepHands(s: State, w: nat, ok: bool)
    requires w < |s.workers|
    ensures Hands(s, w, WorkerStep(s, w, ok))
  {
  }

  lemma OwnershipStep(s: State, w: nat, t: State)
    requires Ownership(s) && w < |s.workers| == |t.workers| && Hands(s, w, t)
    ensures Ownership(t)
  {
    forall k: nat | k < t.head && k !in t.freed
      ensures Held(t, k)
    {
      if k == s.head {
        assert t.workers[w].Holds() && t.workers[w].item == k;
      } else {
        assert Held(s, k);
        var v :| 0 <= v < |s.workers| && s.workers[v].Holds() && s.workers[v].item == k;
        assert t.workers[v].Holds() && t.workers[v].item == k;
      }
    }
  }

  // ---- The log ----

  /** Some event between positions i and m says that item k left the pipeline. */
  ghost predicate ExitedWithin(log: seq<Event>, i: nat, m: nat, k: nat)
    requires m <= |log|
  {
    exists p :: i < p < m && log[p] == Exit(k)
  }

  ghost predicate InFlightItem(s: State, k: nat)
  {
    exists w :: 0 <= w < |s.workers| && IsInFlight(s.workers[w]) && s.workers[w].item == k
  }

  /** A record that incremented in_flight has exited or is still in flight. */
  ghost predicate IncrementsTracked(s: State)
  {
    forall i :: 0 <= i < |s.log| && s.log[i].Increment? ==>
      ExitedWithin(s.log, i, |s.log|, s.log[i].item) || InFlightItem(s, s.log[i].item)
  }

  lemma IncrementsTrackedStep(s: State, w: nat, ok: bool)
    requires IncrementsTracked(s) && w < |s.workers|
    ensures IncrementsTracked(WorkerStep(s, w, ok))
  {
    var t := WorkerStep(s, w, ok);
    forall i | 0 <= i < |t.log| && t.log[i].Increment?
      ensures ExitedWithin(t.log, i, |t.log|, t.log[i].item) || InFlightItem(t, t.log[i].item)
    {
      var k := t.log[i].item;
      if i == |s.log| {
        assert IsInFlight(t.workers[w]) && t.workers[w].item == k;
      } else if ExitedWithin(s.log, i, |s.log|, k) {
        var p :| i < p < |s.log| && s.log[p] == Exit(k);
        assert t.log[p] == Exit(k);
      } else {
        var v :| 0 <= v < |s.workers| && IsInFlight(s.workers[v]) && s.workers[v].item == k;
        if v == w && s.workers[w].Ran? {
          assert t.log[|s.log|] == Exit(k);
        } else {
          assert IsInFlight(t.workers[v]) && t.workers[v].item == k;
        }
      }
    }
  }

  predicate CarriesData(pc: PC) { pc.GotData? || IsInFlight(pc) }

  ghost predicate Carried(s: State, k: nat)
  {
    exists w :: 0 <= w < |s.workers| && CarriesData(s.workers[w]) && s.workers[w].item == k
  }

  /** A dequeued data record has exited or is on its way through some worker. */
  ghost predicate DataTracked(s: State)
  {
    && s.head <= |s.stream|
    && forall k: nat :: k < s.head && s.stream[k].Data? ==> Exit(k) in s.log || Carried(s, k)
  }

  lemma DataTrackedStep(s: State, w: nat, ok: bool)
    requires DataTracked(s) && w < |s.workers|
    ensures DataTracked(WorkerStep(s, w, ok))
  {
    var t := WorkerStep(s, w, ok);
    forall k: nat | k < t.head && t.stream[k].Data? && Exit(k) !in t.log
      ensures Carried(t, k)
    {
      if k == s.head {
        assert CarriesData(t.workers[w]) && t.workers[w].item == k;
      } else {
        assert Exit(k) !in s.log;
        var v :| 0 <= v < |s.workers| && CarriesData(s.workers[v]) && s.workers[v].item == k;
        assert v == w ==> Logged(s, s.workers[w]) != [Exit(k)];
        assert CarriesData(t.workers[v]) && t.workers[v].item == k;
      }
    }
  }

  /** Everything that incremented in_flight before position j had exited by position m. */
  ghost predicate FlushedBefore(log: seq<Event>, j: nat, m: nat)
    requires j <= m <= |log|
  {
    forall i :: 0 <= i < j && log[i].Increment? ==> ExitedWithin(log, i, m, log[i].item)
  }

  /** A drain that has seen in_flight == 0 has flushed whatever preceded its own store
      to barrier_pending, and so has every drain that advanced the epoch. */
  ghost predicate DrainsFlushed(s: State)
  {
    && (forall j, m :: 0 <= j < m < |s.log| && s.log[m].Advance? && s.log[j] == Pend(s.log[m].item) ==>
          FlushedBefore(s.log, j, m))
    && (forall j, w | 0 <= j < |s.log| && 0 <= w < |s.workers| && s.workers[w].Advancing? &&
                      s.log[j] == Pend(s.workers[w].item) ::
          FlushedBefore(s.log, j, |s.log|))
  }

  lemma FlushedGrow(log: seq<Event>, more: seq<Event>, j: nat, m: nat)
    requires j <= m <= |log| && FlushedBefore(log, j, m)
    ensures FlushedBefore(log + more, j, m) && FlushedBefore(log + more, j, |log + more|)
  {
    var all := log + more;
    forall i | 0 <= i < j && all[i].Increment?
      ensures ExitedWithin(all, i, m, all[i].item) && ExitedWithin(all, i, |all|, all[i].item)
    {
      assert ExitedWithin(log, i, m, log[i].item);
      var p :| i < p < m && log[p] == Exit(log[i].item);
      assert all[p] == log[p];
    }
  }

  lemma DrainsFlushedStep(s: State, w: nat, ok: bool)
    requires CountersAgree(s) && Ownership(s) && IncrementsTracked(s) && DrainsFlushed(s)
    requires w < |s.workers|
    ensures DrainsFlushed(WorkerStep(s, w, ok))
  {
    var t := WorkerStep(s, w, ok);
    var more := Logged(s, s.workers[w]);
    forall j, m | 0 <= j < m < |t.log| && t.log[m].Advance? && t.log[j] == Pend(t.log[m].item)
      ensures FlushedBefore(t.log, j, m)
    {
      FlushedGrow(s.log, more, j, if m < |s.log| then m else |s.log|);
    }
    forall j, v | 0 <= j < |t.log| && 0 <= v < |t.workers| && t.workers[v].Advancing? &&
                  t.log[j] == Pend(t.workers[v].item)
      ensures FlushedBefore(t.log, j, |t.log|)
    {
      if v != w || s.workers[v].Advancing? {
        assert s.workers[v].Advancing?;
        assert j < |s.log|;
        FlushedGrow(s.log, more, j, |s.log|);
      } else {
        assert s.inFlight == 0;
        CountBounds(s.workers, IsInFlight);
        assert more == [] && t.log == s.log;
      }
    }
  }

  /** A tag is the number of epoch advances seen when it was read, and that number lags
      the FIFO epoch of the item by less than the number of workers. */
  ghost predicate TagsLag(s: State)
  {
    forall i :: 0 <= i < |s.log| && s.log[i].Enter? ==>
      && s.log[i].item < |s.stream|
      && s.log[i].tag == Advances(s.log, i) % U64
      && Barriers(s.stream, s.log[i].item) < Advances(s.log, i) + |s.workers|
  }

  lemma TagsLagStep(s: State, w: nat, ok: bool)
    requires CountersAgree(s) && Ownership(s) && TagsLag(s) && w < |s.workers|
    ensures TagsLag(WorkerStep(s, w, ok))
  {
    var t := WorkerStep(s, w, ok);
    var more := Logged(s, s.workers[w]);
    forall i | 0 <= i < |t.log| && t.log[i].Enter?
      ensures t.log[i].item < |t.stream|
      ensures t.log[i].tag == Advances(t.log, i) % U64
      ensures Barriers(t.stream, t.log[i].item) < Advances(t.log, i) + |t.workers|
    {
      AdvancesGrow(s.log, more, i);
      if i == |s.log| {
        assert !IsUndrained(s.workers[w]);
        CountBounds(s.workers, IsUndrained);
        assert s.workers[w].item < s.head;
        BarriersGrow(s.stream, [], s.workers[w].item, s.head);
      }
    }
  }

  // ---- Everything, along every schedule ----

  ghost predicate Inv(s: State)
  {
    && CountersAgree(s)
    && Ownership(s)
    && IncrementsTracked(s)
    && DataTracked(s)
    && DrainsFlushed(s)
    && TagsLag(s)
  }

  lemma InitInv(count: nat)
    requires count < U64
    ensures Inv(Init(count))
  {
    var s := Init(count);
    CountBounds(s.workers, IsInFlight);
    CountBounds(s.workers, IsUndrained);
    CountBounds(s.workers, IsRunning);
  }

  /** The producer and the signal handler touch nothing that the workers own. */
  lemma EnvironmentInv(s: State, t: State, more: seq<Item>)
    requires Inv(s)
    requires t == s.(stream := s.stream + more, stop := t.stop)
    ensures Inv(t)
  {
    forall k: nat | k <= |s.stream|
      ensures Barriers(t.stream, k) == Barriers(s.stream, k)
    {
      BarriersGrow(s.stream, more, k, k);
    }
    EnvironmentHeld(s, t);
    hide Barriers, Count, Advances, Held, Carried, InFlightItem;
  }

  lemma EnvironmentHeld(s: State, t: State)
    requires s.workers == t.workers
    ensures forall k: nat :: Held(s, k) == Held(t, k)
    ensures forall k: nat :: Carried(s, k) == Carried(t, k)
    ensures forall k: nat :: InFlightItem(s, k) == InFlightItem(t, k)
  {
  }

  lemma WorkerInv(s: State, w: nat, ok: bool)
    requires Inv(s) && w < |s.workers|
    ensures Inv(WorkerStep(s, w, ok))
  {
    CountersStep(s, w, ok);
    StepHands(s, w, ok);
    OwnershipStep(s, w, WorkerStep(s, w, ok));
    IncrementsTrackedStep(s, w, ok);
    DataTrackedStep(s, w, ok);
    DrainsFlushedStep(s, w, ok);
    TagsLagStep(s, w, ok);
  }

  lemma NextInv(s: State, a: Action)
    requires Inv(s)
    ensures Inv(Next(s, a))
  {
    match a
    case Worker(w, ok) => if w < |s.workers| { WorkerInv(s, w, ok); }
    case Enqueue(item) => EnvironmentInv(s, Next(s, a), [item]);
    case RequestStop =>
      assert s.stream + [] == s.stream;
      EnvironmentInv(s, Next(s, a), []);
  }

  lemma {:induction false} ExecInv(s: State, schedule: seq<Action>)
    requires Inv(s)
    ensures Inv(Exec(s, schedule))
  {
    if schedule != [] {
      ExecInv(s, schedule[..|schedule| - 1]);
      NextInv(Exec(s, schedule[..|schedule| - 1]), schedule[|schedule| - 1]);
    }
  }
}
