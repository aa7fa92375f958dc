/** Exactly which disciplines keep the ordering promise, among those that can do no more than make
    a worker wait at its check of barrier_pending. */
module EpochDiscipline {
  import opened Machine
  import opened EpochProtocol
  import opened EpochOrdering
  import opened EpochRaces

  /** A discipline says which schedules may happen. It may keep a worker from passing its check of
      barrier_pending; it can stop no other step, neither of a worker nor of the environment. */
  ghost predicate WaitsAtCheck(count: nat, allowed: seq<Action> -> bool)
  {
    && (forall xs, a :: allowed(xs + [a]) ==> allowed(xs))
    && (forall xs, a :: allowed(xs) && !PassesCheck(Exec(Init(count), xs), a) ==> allowed(xs + [a]))
  }

  lemma AllowedNext(count: nat, allowed: seq<Action> -> bool, xs: seq<Action>, a: Action)
    requires WaitsAtCheck(count, allowed) && allowed(xs) && !PassesCheck(Exec(Init(count), xs), a)
    ensures allowed(xs + [a])
  {
    hide Exec, PassesCheck;
  }

  lemma UncheckedLast(s: State, more: seq<Action>, n: nat)
    requires Unchecked(s, more) && n + 1 == |more|
    ensures Unchecked(s, more[..n]) && !PassesCheck(Exec(s, more[..n]), more[n])
  {
    hide Exec, PassesCheck;
  }

  /** What a discipline cannot stop is allowed. */
  lemma {:induction false} Unstoppable(count: nat, allowed: seq<Action> -> bool, xs: seq<Action>, more: seq<Action>)
    requires WaitsAtCheck(count, allowed) && allowed(xs) && Unchecked(Exec(Init(count), xs), more)
    ensures allowed(xs + more)
  {
    hide *;
    if more == [] {
      assert xs + more == xs;
    } else {
      var n := |more| - 1;
      UncheckedLast(Exec(Init(count), xs), more, n);
      Unstoppable(count, allowed, xs, more[..n]);
      ExecConcat(Init(count), xs, more[..n]);
      AllowedNext(count, allowed, xs + more[..n], more[n]);
      assert xs + more == (xs + more[..n]) + [more[n]];
    }
  }

  lemma {:induction false} AlwaysAlong(count: nat, allowed: seq<Action> -> bool, xs: seq<Action>, p: State -> bool)
    requires WaitsAtCheck(count, allowed) && allowed(xs)
    requires forall ys :: allowed(ys) ==> p(Exec(Init(count), ys))
    ensures Along(Init(count), xs, p)
  {
    if xs != [] {
      var n := |xs| - 1;
      assert xs == xs[..n] + [xs[n]];
      AlwaysAlong(count, allowed, xs[..n], p);
    }
  }

  ghost predicate Always(count: nat, allowed: seq<Action> -> bool, p: State -> bool)
  {
    forall xs :: allowed(xs) ==> p(Exec(Init(count), xs))
  }

  /** The exact condition. A discipline keeps the promise on all its runs if and only if on none of
      them a barrier is claimed beside another claim. */
  lemma KeepsPromiseIff(count: nat, allowed: seq<Action> -> bool)
    requires count < U64 && WaitsAtCheck(count, allowed)
    ensures Always(count, allowed, PromiseKept) <==> Always(count, allowed, BarriersAlone)
  {
    hide PromiseKept, BarriersAlone, WaitsAtCheck, Exec;
    if Always(count, allowed, BarriersAlone) {
      forall xs | allowed(xs) ensures PromiseKept(Exec(Init(count), xs)) {
        AlwaysAlong(count, allowed, xs, BarriersAlone);
        EpochOrdering.EpochOrdering(count, xs);
      }
    } else {
      var xs :| allowed(xs) && !BarriersAlone(Exec(Init(count), xs));
      CrowdedBarrierCanBreak(count, xs);
      var more :| Unchecked(Exec(Init(count), xs), more) && !PromiseKept(Exec(Init(count), xs + more));
      Unstoppable(count, allowed, xs, more);
    }
  }

  // ---- A lock that is wide enough ----

  /** At most one worker is between its check and the publication of what it dequeued. */
  ghost predicate OneClaim(s: State)
  {
    forall v, w | 0 <= v < w < |s.workers| && IsClaiming(s.workers[v]) :: !IsClaiming(s.workers[w])
  }

  /** The schedules possible when a lock is taken before the check and released at publication. */
  ghost predicate Locked(count: nat, xs: seq<Action>)
  {
    Along(Init(count), xs, OneClaim)
  }

  lemma LockWaitsAtCheck(count: nat)
    ensures WaitsAtCheck(count, xs => Locked(count, xs))
  {
    forall xs, a | Locked(count, xs + [a])
      ensures Locked(count, xs)
    {
      assert (xs + [a])[..|xs + [a]| - 1] == xs;
    }
    forall xs, a | Locked(count, xs) && !PassesCheck(Exec(Init(count), xs), a)
      ensures Locked(count, xs + [a])
    {
      assert (xs + [a])[..|xs + [a]| - 1] == xs;
      ClaimsOnlyAtCheck(Exec(Init(count), xs), a);
    }
  }

  lemma ClaimsOnlyAtCheck(s: State, a: Action)
    requires OneClaim(s) && !PassesCheck(s, a)
    ensures OneClaim(Next(s, a))
  {
    if a.Worker? && a.w < |s.workers| {
      assert IsClaiming(MovedTo(s, s.workers[a.w])) ==> IsClaiming(s.workers[a.w]);
    }
  }

  /** The lock around dequeue and enter that epoch_barrier.h considers keeps the promise once it
      also covers the check of barrier_pending. */
  lemma WideLockKeepsPromise(count: nat)
    requires count < U64
    ensures WaitsAtCheck(count, xs => Locked(count, xs)) && Always(count, xs => Locked(count, xs), PromiseKept)
  {
    hide PromiseKept, WaitsAtCheck;
    LockWaitsAtCheck(count);
    KeepsPromiseIff(count, xs => Locked(count, xs));
  }
}
