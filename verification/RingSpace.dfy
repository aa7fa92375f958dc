/** Rings, the handles on them, and the blobs that pass through them, under any sequence of
    opens, enqueues, dequeues and teardowns by live and throwaway instances. */
module RingSpace {
  import opened Options

  /** A ring that has been freed stays in the list, dead and empty. */
  datatype Ring = Ring(name: string, alive: bool, items: seq<nat>, capacity: nat, creator: nat)

  /** What an instance keeps: its ring and whether it created it. */
  datatype Handle = Handle(ring: nat, owns: bool, live: bool)

  /** Blobs are numbered as they are allocated; freed counts every rte_free() call. */
  datatype Space = Space(rings: seq<Ring>, handles: seq<Handle>, held: multiset<nat>, freed: multiset<nat>, next: nat)

  datatype Action =
    | Open(name: string, capacity: nat, createOk: bool, lookupFirst: bool)
    | Enqueue(h: nat)
    | Dequeue(h: nat)
    | Release(blob: nat)
    | Teardown(h: nat)

  const EMPTY := Space([], [], multiset{}, multiset{}, 0)

  /** The one live ring with this name, if any. */
  function Lookup(rings: seq<Ring>, name: string): (r: Option<nat>)
    ensures r.Some? ==> r.value < |rings| && rings[r.value].alive && rings[r.value].name == name
    ensures r.None? ==> forall i :: 0 <= i < |rings| && rings[i].alive ==> rings[i].name != name
  {
    if rings == [] then None
    else
      var last := |rings| - 1;
      if rings[last].alive && rings[last].name == name then Some(last)
      else
        var r := Lookup(rings[..last], name);
        assert r.None? ==> forall i :: 0 <= i < last && rings[i].alive ==> rings[..last][i].name != name;
        r
  }

  /** A new instance attaches to the ring of this name, or creates it if there is none. createOk
      says that creation fails for nothing but an existing name: when it fails for another
      reason, an instance that tries it before looking up gets no ring at all. */
  function Opened(s: Space, name: string, capacity: nat, createOk: bool, lookupFirst: bool): Space
  {
    match Lookup(s.rings, name)
    case Some(r) => if !createOk && !lookupFirst then s else s.(handles := s.handles + [Handle(r, false, true)])
    case None =>
      if !createOk then s else
        s.(rings := s.rings + [Ring(name, true, [], capacity, |s.handles|)],
           handles := s.handles + [Handle(|s.rings|, true, true)])
  }

  /** A fresh blob goes to the end of the ring, or is freed at once when the ring is full. */
  function Enqueued(s: Space, r: nat): Space
    requires r < |s.rings|
  {
    var ring := s.rings[r];
    if |ring.items| < ring.capacity then
      s.(rings := s.rings[r := ring.(items := ring.items + [s.next])], next := s.next + 1)
    else
      s.(freed := s.freed + multiset{s.next}, next := s.next + 1)
  }

  function Dequeued(s: Space, r: nat): Space
    requires r < |s.rings|
  {
    var ring := s.rings[r];
    if ring.items == [] then s else
      s.(rings := s.rings[r := ring.(items := ring.items[1..])], held := s.held + multiset{ring.items[0]})
  }

  function Released(s: Space, blob: nat): Space
  {
    s.(held := s.held - multiset{blob}, freed := s.freed + multiset{blob})
  }

  /** Only an instance that created its ring drains and frees it. */
  function TornDown(s: Space, h: nat): Space
    requires h < |s.handles| && s.handles[h].ring < |s.rings|
  {
    var handle := s.handles[h];
    var s' := s.(handles := s.handles[h := handle.(live := false)]);
    if !handle.owns then s' else
      var ring := s.rings[handle.ring];
      s'.(rings := s.rings[handle.ring := ring.(alive := false, items := [])],
          freed := s.freed + multiset(ring.items))
  }

  /** The handle is in use and its ring has not been freed. */
  predicate Usable(s: Space, h: nat)
  {
    && h < |s.handles| && s.handles[h].live
    && s.handles[h].ring < |s.rings| && s.rings[s.handles[h].ring].alive
  }

  /** What the program's parts owe each other: no one touches a ring once it has been freed, a
      worker frees what it holds, and an instance is torn down once. */
  predicate Allowed(s: Space, a: Action)
  {
    match a
    case Open(_, _, _, _) => true
    case Enqueue(h) => Usable(s, h)
    case Dequeue(h) => Usable(s, h)
    case Release(blob) => blob in s.held
    case Teardown(h) => h < |s.handles| && s.handles[h].live && s.handles[h].ring < |s.rings|
  }

  function Step(s: Space, a: Action): Space
    requires Allowed(s, a)
  {
    match a
    case Open(name, capacity, createOk, lookupFirst) => Opened(s, name, capacity, createOk, lookupFirst)
    case Enqueue(h) => Enqueued(s, s.handles[h].ring)
    case Dequeue(h) => Dequeued(s, s.handles[h].ring)
    case Release(blob) => Released(s, blob)
    case Teardown(h) => TornDown(s, h)
  }

  /** A run of allowed actions leads from s to t. */
  ghost predicate Run(s: Space, actions: seq<Action>, t: Space)
    decreases |actions|
  {
    if actions == [] then s == t
    else Allowed(s, actions[0]) && Run(Step(s, actions[0]), actions[1..], t)
  }

  // ---- What every run keeps ----

  function InRings(rings: seq<Ring>): multiset<nat>
  {
    if rings == [] then multiset{} else InRings(rings[..|rings| - 1]) + multiset(rings[|rings| - 1].items)
  }

  function UpTo(n: nat): (m: multiset<nat>)
    ensures forall b: nat :: m[b] == if b < n then 1 else 0
  {
    if n == 0 then multiset{} else UpTo(n - 1) + multiset{n - 1}
  }

  /** Every blob ever allocated is in exactly one place: in one ring once, held once, or freed
      once. */
  ghost predicate BlobsKept(s: Space)
  {
    InRings(s.rings) + s.held + s.freed == UpTo(s.next)
  }

  ghost predicate NamesDistinct(rings: seq<Ring>)
  {
    forall i, j :: 0 <= i < j < |rings| && rings[i].alive && rings[j].alive ==> rings[i].name != rings[j].name
  }

  /** A ring has one owner, its creator, and lives exactly as long as that instance. */
  ghost predicate CreatorsOwn(s: Space)
  {
    && (forall h :: 0 <= h < |s.handles| ==> s.handles[h].ring < |s.rings|)
    && (forall h :: 0 <= h < |s.handles| ==> (s.handles[h].owns <==> s.rings[s.handles[h].ring].creator == h))
    && (forall r :: 0 <= r < |s.rings| ==> s.rings[r].creator < |s.handles|)
    && (forall r :: 0 <= r < |s.rings| ==> s.handles[s.rings[r].creator].ring == r)
    && (forall r :: 0 <= r < |s.rings| ==> (s.rings[r].alive <==> s.handles[s.rings[r].creator].live))
    && (forall r :: 0 <= r < |s.rings| && !s.rings[r].alive ==> s.rings[r].items == [])
  }

  ghost predicate Inv(s: Space)
  {
    NamesDistinct(s.rings) && CreatorsOwn(s) && BlobsKept(s)
  }

  lemma Cancel(a: multiset<nat>, b: multiset<nat>, c: multiset<nat>)
    requires a + c == b + c
    ensures a == b
  {
    assert (a + c) - c == a && (b + c) - c == b;
  }

  lemma {:induction false} InRingsUpdate(rings: seq<Ring>, r: nat, ring: Ring)
    requires r < |rings|
    ensures InRings(rings[r := ring]) + multiset(rings[r].items) == InRings(rings) + multiset(ring.items)
    decreases |rings|
  {
    var last := |rings| - 1;
    if r < last {
      InRingsUpdate(rings[..last], r, ring);
      assert rings[r := ring][..last] == rings[..last][r := ring];
      var a, a', l := InRings(rings[..last]), InRings(rings[..last][r := ring]), multiset(rings[last].items);
      assert (a' + l) + multiset(rings[r].items) == (a' + multiset(rings[r].items)) + l;
      assert (a + l) + multiset(ring.items) == (a + multiset(ring.items)) + l;
    } else {
      assert rings[r := ring][..last] == rings[..last];
    }
  }

  lemma InRingsAppend(rings: seq<Ring>, ring: Ring)
    ensures InRings(rings + [ring]) == InRings(rings) + multiset(ring.items)
  {
    assert (rings + [ring])[..|rings|] == rings;
  }

  lemma OpenedBlobs(s: Space, name: string, capacity: nat, createOk: bool, lookupFirst: bool)
    requires BlobsKept(s)
    ensures BlobsKept(Opened(s, name, capacity, createOk, lookupFirst))
  {
    hide InRings, UpTo;
    InRingsAppend(s.rings, Ring(name, true, [], capacity, |s.handles|));
  }

  lemma OpenedNames(s: Space, name: string, capacity: nat, createOk: bool, lookupFirst: bool)
    requires NamesDistinct(s.rings)
    ensures NamesDistinct(Opened(s, name, capacity, createOk, lookupFirst).rings)
  {
  }

  lemma OpenedCreators(s: Space, name: string, capacity: nat, createOk: bool, lookupFirst: bool)
    requires CreatorsOwn(s)
    ensures CreatorsOwn(Opened(s, name, capacity, createOk, lookupFirst))
  {
    hide Lookup;
  }

  lemma OpenedInv(s: Space, name: string, capacity: nat, createOk: bool, lookupFirst: bool)
    requires Inv(s)
    ensures Inv(Opened(s, name, capacity, createOk, lookupFirst))
  {
    hide InRings, UpTo, NamesDistinct, CreatorsOwn, BlobsKept, Opened;
    OpenedNames(s, name, capacity, createOk, lookupFirst);
    OpenedCreators(s, name, capacity, createOk, lookupFirst);
    OpenedBlobs(s, name, capacity, createOk, lookupFirst);
  }

  lemma UpToNext(n: nat)
    ensures UpTo(n + 1) == UpTo(n) + multiset{n}
  {
  }

  lemma EnqueuedInv(s: Space, r: nat)
    requires Inv(s) && r < |s.rings| && s.rings[r].alive
    ensures Inv(Enqueued(s, r))
  {
    hide InRings, UpTo;
    var ring := s.rings[r];
    UpToNext(s.next);
    if |ring.items| < ring.capacity {
      var ring' := ring.(items := ring.items + [s.next]);
      var a, a', o := InRings(s.rings), InRings(s.rings[r := ring']), multiset(ring.items);
      InRingsUpdate(s.rings, r, ring');
      assert multiset(ring'.items) == o + multiset{s.next};
      assert a + (o + multiset{s.next}) == (a + multiset{s.next}) + o;
      Cancel(a', a + multiset{s.next}, o);
      assert (a + multiset{s.next}) + s.held + s.freed == (a + s.held + s.freed) + multiset{s.next};
    } else {
      assert InRings(s.rings) + s.held + (s.freed + multiset{s.next})
          == (InRings(s.rings) + s.held + s.freed) + multiset{s.next};
    }
  }

  lemma DequeuedInv(s: Space, r: nat)
    requires Inv(s) && r < |s.rings| && s.rings[r].alive
    ensures Inv(Dequeued(s, r))
  {
    hide InRings, UpTo;
    var ring := s.rings[r];
    if ring.items != [] {
      var ring' := ring.(items := ring.items[1..]);
      var a, a', n, x := InRings(s.rings), InRings(s.rings[r := ring']), multiset(ring'.items), multiset{ring.items[0]};
      InRingsUpdate(s.rings, r, ring');
      assert ring.items == [ring.items[0]] + ring'.items;
      assert multiset(ring.items) == x + n;
      assert a' + (x + n) == (a' + x) + n;
      Cancel(a' + x, a, n);
      assert a' + (s.held + x) + s.freed == (a' + x) + s.held + s.freed;
    }
  }

  lemma TornDownInv(s: Space, h: nat)
    requires Inv(s) && h < |s.handles| && s.handles[h].live
    ensures Inv(TornDown(s, h))
  {
    hide InRings, UpTo;
    var r := s.handles[h].ring;
    var o := multiset(s.rings[r].items);
    var dead := s.rings[r].(alive := false, items := []);
    InRingsUpdate(s.rings, r, dead);
    assert multiset(dead.items) == multiset{};
    var a, a' := InRings(s.rings), InRings(s.rings[r := dead]);
    assert a' + o == a;
    assert a' + s.held + (s.freed + o) == (a' + o) + s.held + s.freed;
  }

  lemma StepInv(s: Space, a: Action)
    requires Inv(s) && Allowed(s, a)
    ensures Inv(Step(s, a))
  {
    hide InRings, UpTo;
    match a
    case Open(name, capacity, createOk, lookupFirst) => OpenedInv(s, name, capacity, createOk, lookupFirst);
    case Enqueue(h) => EnqueuedInv(s, s.handles[h].ring);
    case Dequeue(h) => DequeuedInv(s, s.handles[h].ring);
    case Release(blob) =>
    case Teardown(h) => TornDownInv(s, h);
  }

  lemma {:induction false} RunInv(s: Space, actions: seq<Action>, t: Space)
    requires Inv(s) && Run(s, actions, t)
    ensures Inv(t)
    decreases |actions|
  {
    if actions != [] {
      StepInv(s, actions[0]);
      RunInv(Step(s, actions[0]), actions[1..], t);
    }
  }

  // ---- Ownership and conservation over whole runs ----

  ghost predicate LiveOwner(s: Space, h: nat, r: nat)
  {
    h < |s.handles| && s.handles[h].live && s.handles[h].owns && s.handles[h].ring == r
  }

  /** At any time every ring that exists has exactly one live instance that created it, no freed
      ring has one, and a handle can be used exactly while that instance lives. */
  lemma OneLiveCreator(actions: seq<Action>, s: Space, r: nat)
    requires Run(EMPTY, actions, s) && r < |s.rings|
    ensures s.rings[r].alive <==> exists h :: LiveOwner(s, h, r)
    ensures forall h: nat, h': nat :: LiveOwner(s, h, r) && LiveOwner(s, h', r) ==> h == h'
    ensures forall h: nat :: h < |s.handles| && s.handles[h].live && s.handles[h].ring == r ==>
      (Usable(s, h) <==> LiveOwner(s, s.rings[r].creator, r))
  {
    EmptyInv();
    RunInv(EMPTY, actions, s);
    assert s.rings[r].alive ==> LiveOwner(s, s.rings[r].creator, r);
  }

  lemma EmptyInv()
    ensures Inv(EMPTY)
  {
  }

  /** Every blob is in exactly one place; and once every instance is gone and no worker holds
      one, every blob ever allocated has been freed exactly once. */
  lemma NoBlobLost(actions: seq<Action>, s: Space)
    requires Run(EMPTY, actions, s)
    ensures forall b: nat :: InRings(s.rings)[b] + s.held[b] + s.freed[b] == if b < s.next then 1 else 0
    ensures s.held == multiset{} && (forall h :: 0 <= h < |s.handles| ==> !s.handles[h].live) ==>
      s.freed == UpTo(s.next)
  {
    hide Run;
    EmptyInv();
    RunInv(EMPTY, actions, s);
    OnePlace(s);
    if s.held == multiset{} && forall h :: 0 <= h < |s.handles| ==> !s.handles[h].live {
      AllFreed(s);
    }
  }

  lemma OnePlace(s: Space)
    requires BlobsKept(s)
    ensures forall b: nat :: InRings(s.rings)[b] + s.held[b] + s.freed[b] == if b < s.next then 1 else 0
  {
    hide InRings, UpTo;
    forall b: nat ensures InRings(s.rings)[b] + s.held[b] + s.freed[b] == if b < s.next then 1 else 0 {
      assert (InRings(s.rings) + s.held + s.freed)[b] == UpTo(s.next)[b];
    }
  }

  lemma AllFreed(s: Space)
    requires Inv(s) && s.held == multiset{} && forall h :: 0 <= h < |s.handles| ==> !s.handles[h].live
    ensures s.freed == UpTo(s.next)
  {
    hide InRings, UpTo, NamesDistinct;
    DeadAreEmpty(s.rings);
    assert multiset{} + multiset{} + s.freed == s.freed;
  }

  lemma {:induction false} DeadAreEmpty(rings: seq<Ring>)
    requires forall r :: 0 <= r < |rings| ==> rings[r].items == []
    ensures InRings(rings) == multiset{}
    decreases |rings|
  {
    if rings != [] {
      DeadAreEmpty(rings[..|rings| - 1]);
    }
  }

  /** What one action may do to a ring that exists: append one blob, take the first, or be the
      creator's teardown. Nobody else's teardown, and no open, touches it. */
  lemma OnlyCreatorDrains(s: Space, a: Action, r: nat)
    requires Inv(s) && Allowed(s, a) && r < |s.rings| && s.rings[r].alive
    ensures var ring, ring' := s.rings[r], Step(s, a).rings[r];
      || ring' == ring
      || (a.Enqueue? && s.handles[a.h].ring == r && ring' == ring.(items := ring.items + [s.next]))
      || (a.Dequeue? && s.handles[a.h].ring == r && ring.items != [] && ring' == ring.(items := ring.items[1..]))
      || (a == Teardown(ring.creator) && !ring'.alive)
  {
  }

  /** A throwaway pass against a ring that exists changes no ring and no blob. */
  lemma ThrowawayIsIdentity(s: Space, name: string, capacity: nat, createOk: bool, lookupFirst: bool)
    requires Inv(s) && Lookup(s.rings, name).Some?
    ensures var during := Opened(s, name, capacity, createOk, lookupFirst);
      var h := |s.handles|;
      || during == s
      || (&& h < |during.handles| && during.handles[h].ring < |during.rings|
          && var after := TornDown(during, h);
             && after.(handles := s.handles) == s
             && after.handles[..h] == s.handles && !after.handles[h].live)
  {
    var during := Opened(s, name, capacity, createOk, lookupFirst);
    var h := |s.handles|;
    if during != s {
      assert during.handles[h := during.handles[h].(live := false)][..h] == s.handles;
    }
  }

  /** Against a name without a ring, it leaves that name, and every other, as it was. */
  lemma ThrowawayLeavesNames(s: Space, name: string, capacity: nat, lookupFirst: bool, other: string)
    requires Inv(s) && Lookup(s.rings, name).None?
    ensures var during := Opened(s, name, capacity, true, lookupFirst);
      var h := |s.handles|;
      && h < |during.handles| && during.handles[h].ring < |during.rings|
      && var after := TornDown(during, h);
         && Lookup(after.rings, other) == Lookup(s.rings, other)
         && after.held == s.held && after.freed == s.freed && after.rings[..|s.rings|] == s.rings
  {
    var during := Opened(s, name, capacity, true, lookupFirst);
    var after := TornDown(during, |s.handles|);
    assert after.rings[..|s.rings|] == s.rings;
    assert multiset(during.rings[|s.rings|].items) == multiset{};
  }

  /** A ring that has been freed stays so, and what touches it is never allowed again. */
  lemma {:induction false} FreedForGood(s: Space, actions: seq<Action>, t: Space, r: nat)
    requires Inv(s) && Run(s, actions, t) && r < |s.rings| && !s.rings[r].alive
    ensures r < |t.rings| && !t.rings[r].alive && t.rings[r].items == []
    ensures forall a :: a in actions && (a.Enqueue? || a.Dequeue?) ==>
      !(a.h < |s.handles| && s.handles[a.h].ring == r)
    decreases |actions|
  {
    if actions != [] {
      hide InRings, UpTo;
      StepInv(s, actions[0]);
      OtherHandlesStay(s, actions[0]);
      FreedForGood(Step(s, actions[0]), actions[1..], t, r);
    }
  }

  lemma OtherHandlesStay(s: Space, a: Action)
    requires Allowed(s, a)
    ensures |s.handles| <= |Step(s, a).handles| && |s.rings| <= |Step(s, a).rings|
    ensures forall h :: 0 <= h < |s.handles| ==> Step(s, a).handles[h].ring == s.handles[h].ring
    ensures forall r :: 0 <= r < |s.rings| && !s.rings[r].alive ==> !Step(s, a).rings[r].alive
  {
    hide Lookup;
  }

  /** Why producers must have stopped: after the creator's teardown, no run that is still allowed
      enqueues or dequeues through any handle on its ring, its own or an attached one. */
  lemma CreatorGoneFirst(before: seq<Action>, s: Space, h: nat, rest: seq<Action>, t: Space)
    requires Run(EMPTY, before, s) && Allowed(s, Teardown(h)) && s.handles[h].owns
    requires Run(Step(s, Teardown(h)), rest, t)
    ensures forall a :: a in rest && (a.Enqueue? || a.Dequeue?) && a.h < |s.handles| ==>
      s.handles[a.h].ring != s.handles[h].ring
    ensures s.handles[h].ring < |t.rings| && !t.rings[s.handles[h].ring].alive
  {
    hide InRings, UpTo;
    EmptyInv();
    RunInv(EMPTY, before, s);
    StepInv(s, Teardown(h));
    OtherHandlesStay(s, Teardown(h));
    FreedForGood(Step(s, Teardown(h)), rest, t, s.handles[h].ring);
  }
}
