/** What becomes of each blob: what one action does to the rings, and first in, first out over
    whole runs. */
module RingLaws {
  import opened Options
  import opened RingSpace

  /** Every ring but r, and every handle, is as it was. */
  ghost predicate OnlyRing(s: Space, t: Space, r: nat)
  {
    && |t.rings| == |s.rings| && t.handles == s.handles
    && forall i :: 0 <= i < |s.rings| && i != r ==> t.rings[i] == s.rings[i]
  }

  /** An enqueued blob is the last on its ring if the ring has room, however full it is, and freed
      if not. */
  lemma EnqueueStep(s: Space, h: nat)
    requires Allowed(s, Enqueue(h))
    ensures var t, r := Step(s, Enqueue(h)), s.handles[h].ring;
      && OnlyRing(s, t, r) && t.held == s.held && t.next == s.next + 1
      && (|s.rings[r].items| < s.rings[r].capacity ==>
            t.rings[r] == s.rings[r].(items := s.rings[r].items + [s.next]) && t.freed == s.freed)
      && (|s.rings[r].items| >= s.rings[r].capacity ==>
            t.rings[r] == s.rings[r] && t.freed == s.freed + multiset{s.next})
  {
  }

  /** A dequeue hands over the first blob of a ring that has one, and does nothing to an empty one. */
  lemma DequeueStep(s: Space, h: nat)
    requires Allowed(s, Dequeue(h))
    ensures var t, r := Step(s, Dequeue(h)), s.handles[h].ring;
      && OnlyRing(s, t, r) && t.freed == s.freed && t.next == s.next
      && (s.rings[r].items == [] ==> t == s)
      && (s.rings[r].items != [] ==>
            && s.rings[r].items == [s.rings[r].items[0]] + t.rings[r].items
            && t.rings[r] == s.rings[r].(items := t.rings[r].items)
            && t.held == s.held + multiset{s.rings[r].items[0]})
  {
  }

  /** An open ends with a live handle on the one ring of the name: a new and empty one, owned, if
      there was none; else the one there was, not owned. It ends with none only if the ring could
      not be created and was not, or not first, looked up. */
  lemma OpenStep(s: Space, name: string, capacity: nat, createOk: bool, lookupFirst: bool)
    requires forall i, j :: 0 <= i < j < |s.rings| && s.rings[i].alive && s.rings[j].alive ==>
      s.rings[i].name != s.rings[j].name
    ensures var t, h := Step(s, Open(name, capacity, createOk, lookupFirst)), |s.handles|;
      && s.rings <= t.rings && t.held == s.held && t.freed == s.freed && t.next == s.next
      && (forall r :: 0 <= r < |s.rings| && s.rings[r].alive && s.rings[r].name == name ==>
            if createOk || lookupFirst then t == s.(handles := s.handles + [Handle(r, false, true)]) else t == s)
      && ((forall r :: 0 <= r < |s.rings| && s.rings[r].alive ==> s.rings[r].name != name) ==>
            if !createOk then t == s
            else
              && t.rings == s.rings + [Ring(name, true, [], capacity, h)]
              && t.handles == s.handles + [Handle(|s.rings|, true, true)])
  {
  }

  /** A teardown ends the handle; the creator's also frees every blob left on the ring, and the
      ring. */
  lemma TeardownStep(s: Space, h: nat)
    requires Allowed(s, Teardown(h))
    ensures var t, r := Step(s, Teardown(h)), s.handles[h].ring;
      && t.handles == s.handles[h := s.handles[h].(live := false)] && |t.rings| == |s.rings|
      && t.held == s.held && t.next == s.next
      && (forall i :: 0 <= i < |s.rings| && i != r ==> t.rings[i] == s.rings[i])
      && (!s.handles[h].owns ==> t.rings[r] == s.rings[r] && t.freed == s.freed)
      && (s.handles[h].owns ==>
            !t.rings[r].alive && t.rings[r].items == [] && t.freed == s.freed + multiset(s.rings[r].items))
  {
  }

  // ---- First in, first out ----

  /** The blob that this action puts on ring r: any that is enqueued while there is room. */
  function PutBy(s: Space, a: Action, r: nat): seq<nat>
    requires Allowed(s, a) && r < |s.rings|
  {
    if a.Enqueue? && s.handles[a.h].ring == r && |s.rings[r].items| < s.rings[r].capacity then [s.next] else []
  }

  /** The blob that this action takes from ring r. */
  function TakenBy(s: Space, a: Action, r: nat): seq<nat>
    requires Allowed(s, a) && r < |s.rings|
  {
    if a.Dequeue? && s.handles[a.h].ring == r && s.rings[r].items != [] then [s.rings[r].items[0]] else []
  }

  ghost function Put(s: Space, actions: seq<Action>, t: Space, r: nat): seq<nat>
    requires Run(s, actions, t) && r < |s.rings|
    decreases |actions|
  {
    if actions == [] then [] else
      OtherHandlesStay(s, actions[0]);
      PutBy(s, actions[0], r) + Put(Step(s, actions[0]), actions[1..], t, r)
  }

  ghost function Taken(s: Space, actions: seq<Action>, t: Space, r: nat): seq<nat>
    requires Run(s, actions, t) && r < |s.rings|
    decreases |actions|
  {
    if actions == [] then [] else
      OtherHandlesStay(s, actions[0]);
      TakenBy(s, actions[0], r) + Taken(Step(s, actions[0]), actions[1..], t, r)
  }

  lemma OneFifo(s: Space, a: Action, r: nat)
    requires Allowed(s, a) && r < |s.rings| && r < |Step(s, a).rings| && Step(s, a).rings[r].alive
    requires s.rings[r].alive
    ensures s.rings[r].items + PutBy(s, a, r) == TakenBy(s, a, r) + Step(s, a).rings[r].items
    ensures a.Open? ==> Step(s, a).rings[r] == s.rings[r]
  {
  }

  lemma Splice(start: seq<nat>, put: seq<nat>, taken: seq<nat>, mid: seq<nat>, put': seq<nat>, taken': seq<nat>,
               end: seq<nat>)
    requires start + put == taken + mid && mid + put' == taken' + end
    ensures start + (put + put') == (taken + taken') + end
  {
    assert start + (put + put') == (start + put) + put' == (taken + mid) + put' == taken + (mid + put');
    assert taken + (taken' + end) == (taken + taken') + end;
  }

  /** Over any run through which a ring lives: what it held and what was put on it, in that order,
      is what was taken from it and what it holds, in that order. No blob is lost, doubled or
      overtaken. */
  lemma {:induction false} FirstInFirstOut(s: Space, actions: seq<Action>, t: Space, r: nat)
    requires Run(s, actions, t) && r < |s.rings| && r < |t.rings| && t.rings[r].alive
    ensures s.rings[r].alive
    ensures s.rings[r].items + Put(s, actions, t, r) == Taken(s, actions, t, r) + t.rings[r].items
    decreases |actions|
  {
    if actions != [] {
      OtherHandlesStay(s, actions[0]);
      var u := Step(s, actions[0]);
      FirstInFirstOut(u, actions[1..], t, r);
      OneFifo(s, actions[0], r);
      Splice(s.rings[r].items, PutBy(s, actions[0], r), TakenBy(s, actions[0], r), u.rings[r].items,
             Put(u, actions[1..], t, r), Taken(u, actions[1..], t, r), t.rings[r].items);
    }
  }
}
