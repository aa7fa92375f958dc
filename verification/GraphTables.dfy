/** The loader's node table: what the edge loop records in it, and why in-degree counts alone
    make the breadth-first queue free of repeats. */
module GraphTables {
  import opened GraphSpec
  import opened Sequences

  /** struct node_info, without the expected_in field that only the walk uses. */
  datatype NodeInfo = NodeInfo(spec: NodeSpec, inDegree: nat, portTarget: seq<int>, invalidTarget: int)

  function FreshInfo(spec: NodeSpec, maxPorts: nat): NodeInfo
  {
    NodeInfo(spec, 0, seq(maxPorts, k => -1), -1)
  }

  /** Where a slot leads, or -1 if it is not wired. */
  function Target(info: NodeInfo, slot: Slot): int
    requires slot.Port? ==> slot.k < |info.portTarget|
  {
    match slot
    case Invalid => info.invalidTarget
    case Port(k) => info.portTarget[k]
  }

  function Retarget(info: NodeInfo, slot: Slot, dst: int): NodeInfo
    requires slot.Port? ==> slot.k < |info.portTarget|
  {
    match slot
    case Invalid => info.(invalidTarget := dst)
    case Port(k) => info.(portTarget := info.portTarget[k := dst])
  }

  function InDegree(wires: seq<Wire>, i: nat): nat
  {
    if wires == [] then 0
    else InDegree(wires[..|wires| - 1], i) + if wires[|wires| - 1].dst == i then 1 else 0
  }

  ghost predicate RowsFit(table: seq<NodeInfo>, specs: seq<NodeSpec>, maxPorts: nat)
  {
    && |table| == |specs|
    && forall i :: 0 <= i < |table| ==> table[i].spec == specs[i] && |table[i].portTarget| == maxPorts
  }

  ghost predicate SlotInRange(slot: Slot, maxPorts: nat)
  {
    slot.Port? ==> slot.k < maxPorts
  }

  /** The table records exactly these wires. */
  ghost predicate Wired(table: seq<NodeInfo>, specs: seq<NodeSpec>, wires: seq<Wire>, limits: Limits)
  {
    && RowsFit(table, specs, limits.maxPorts)
    && WellFormed(Graph(specs, wires), limits)
    && SlotsDistinct(wires)
    && (forall i :: 0 <= i < |table| ==> table[i].inDegree == InDegree(wires, i))
    && (forall e :: 0 <= e < |wires| ==> Target(table[wires[e].src], wires[e].slot) == wires[e].dst)
    && SlotsRecorded(table, wires, limits.maxPorts)
  }

  /** Recording one more edge. */
  function AddWire(table: seq<NodeInfo>, w: Wire): seq<NodeInfo>
    requires w.src < |table| && w.dst < |table|
    requires w.slot.Port? ==> w.slot.k < |table[w.src].portTarget|
  {
    var routed := table[w.src := Retarget(table[w.src], w.slot, w.dst)];
    routed[w.dst := routed[w.dst].(inDegree := routed[w.dst].inDegree + 1)]
  }

  ghost predicate SlotsRecorded(table: seq<NodeInfo>, wires: seq<Wire>, maxPorts: nat)
    requires forall i :: 0 <= i < |table| ==> |table[i].portTarget| == maxPorts
  {
    forall i, slot :: 0 <= i < |table| && SlotInRange(slot, maxPorts) ==>
      Target(table[i], slot) == -1 || SlotWired(wires, i, slot)
  }

  lemma AddWireRecorded(table: seq<NodeInfo>, wires: seq<Wire>, maxPorts: nat, w: Wire)
    requires forall i :: 0 <= i < |table| ==> |table[i].portTarget| == maxPorts
    requires SlotsRecorded(table, wires, maxPorts)
    requires w.src < |table| && w.dst < |table| && SlotInRange(w.slot, maxPorts)
    ensures SlotsRecorded(AddWire(table, w), wires + [w], maxPorts)
  {
    var t, ws := AddWire(table, w), wires + [w];
    forall i, slot | 0 <= i < |t| && SlotInRange(slot, maxPorts) && Target(t[i], slot) != -1
      ensures SlotWired(ws, i, slot)
    {
      if i == w.src && slot == w.slot {
        assert ws[|wires|] == w;
      } else {
        assert Target(table[i], slot) != -1;
        assert SlotWired(wires, i, slot);
        var e :| 0 <= e < |wires| && wires[e].src == i && wires[e].slot == slot;
        assert ws[e] == wires[e];
      }
    }
  }

  lemma AddWireWired(table: seq<NodeInfo>, specs: seq<NodeSpec>, wires: seq<Wire>, limits: Limits, w: Wire)
    requires Wired(table, specs, wires, limits)
    requires w.src < |table| && w.dst < |table| && SlotInRange(w.slot, limits.maxPorts)
    requires Target(table[w.src], w.slot) == -1
    ensures Wired(AddWire(table, w), specs, wires + [w], limits)
  {
    hide SlotsRecorded, SlotsDistinct, AddWire, Target, InDegree;
    AddWireRows(table, specs, limits.maxPorts, w);
    AddWireDegrees(table, wires, w);
    AddWireSlots(table, specs, wires, limits, w);
    AddWireTargets(table, specs, wires, limits, w);
    AddWireRecorded(table, wires, limits.maxPorts, w);
  }

  lemma AddWireRows(table: seq<NodeInfo>, specs: seq<NodeSpec>, maxPorts: nat, w: Wire)
    requires RowsFit(table, specs, maxPorts)
    requires w.src < |table| && w.dst < |table| && SlotInRange(w.slot, maxPorts)
    ensures RowsFit(AddWire(table, w), specs, maxPorts)
  {
  }

  lemma AddWireDegrees(table: seq<NodeInfo>, wires: seq<Wire>, w: Wire)
    requires w.src < |table| && w.dst < |table| && (w.slot.Port? ==> w.slot.k < |table[w.src].portTarget|)
    requires forall i :: 0 <= i < |table| ==> table[i].inDegree == InDegree(wires, i)
    ensures forall i :: 0 <= i < |table| ==> AddWire(table, w)[i].inDegree == InDegree(wires + [w], i)
  {
    assert (wires + [w])[..|wires|] == wires;
  }

  /** The slot was free, so no earlier wire has it. */
  lemma AddWireSlots(table: seq<NodeInfo>, specs: seq<NodeSpec>, wires: seq<Wire>, limits: Limits, w: Wire)
    requires Wired(table, specs, wires, limits)
    requires w.src < |table| && SlotInRange(w.slot, limits.maxPorts) && Target(table[w.src], w.slot) == -1
    ensures SlotsDistinct(wires + [w])
  {
    hide SlotsRecorded, InDegree;
  }

  lemma AddWireTargets(table: seq<NodeInfo>, specs: seq<NodeSpec>, wires: seq<Wire>, limits: Limits, w: Wire)
    requires Wired(table, specs, wires, limits)
    requires w.src < |table| && w.dst < |table| && SlotInRange(w.slot, limits.maxPorts)
    requires Target(table[w.src], w.slot) == -1
    ensures var t, ws := AddWire(table, w), wires + [w];
      forall e :: 0 <= e < |ws| ==> Target(t[ws[e].src], ws[e].slot) == ws[e].dst
  {
    hide SlotsRecorded, InDegree;
  }

  lemma {:induction false} InDegreeCounts(wires: seq<Wire>, i: nat)
    ensures InDegree(wires, i) == 0 <==> !HasParent(wires, i)
    ensures InDegree(wires, i) <= 1 <==>
              forall e, f :: 0 <= e < f < |wires| ==> wires[e].dst != i || wires[f].dst != i
  {
    if wires != [] {
      var n := |wires| - 1;
      InDegreeCounts(wires[..n], i);
      assert forall e :: 0 <= e < n ==> wires[..n][e] == wires[e];
      if InDegree(wires[..n], i) > 0 {
        var e :| 0 <= e < n && wires[..n][e].dst == i;
        assert wires[e].dst == i;
      }
    }
  }

  /** In-degrees of at most one everywhere mean that no two wires share a target. */
  lemma DegreesMeanOneParent(specs: seq<NodeSpec>, wires: seq<Wire>, limits: Limits)
    requires WellFormed(Graph(specs, wires), limits)
    ensures (forall i :: 0 <= i < |specs| ==> InDegree(wires, i) <= 1) <==> OneParent(wires)
  {
    if forall i :: 0 <= i < |specs| ==> InDegree(wires, i) <= 1 {
      forall e, f | 0 <= e < f < |wires|
        ensures wires[e].dst != wires[f].dst
      {
        InDegreeCounts(wires, wires[e].dst);
      }
    } else {
      var i :| 0 <= i < |specs| && InDegree(wires, i) > 1;
      InDegreeCounts(wires, i);
    }
  }

  // ---- The queue ----

  function Below(n: nat): (r: set<nat>)
    ensures |r| == n && forall x: nat :: x in r <==> x < n
  {
    if n == 0 then {} else Below(n - 1) + {n - 1}
  }

  /** Distinct numbers below n: at most n of them, and n only if none is missing. */
  lemma Pigeonhole(q: seq<nat>, n: nat)
    requires Distinct(q) && forall i :: 0 <= i < |q| ==> q[i] < n
    ensures |q| <= n
    ensures |q| == n <==> forall x: nat :: x < n ==> x in q
  {
    var members := set i | 0 <= i < |q| :: q[i];
    DistinctSize(q);
    SubsetSize(members, Below(n));
    assert forall x :: x in q <==> x in members;
  }

  lemma {:induction false} DistinctSize(q: seq<nat>)
    requires Distinct(q)
    ensures |set i | 0 <= i < |q| :: q[i]| == |q|
  {
    var members := set i | 0 <= i < |q| :: q[i];
    if q != [] {
      var n := |q| - 1;
      DistinctSize(q[..n]);
      assert members == (set i | 0 <= i < n :: q[..n][i]) + {q[n]};
    }
  }

  lemma {:induction false} SubsetSize(a: set<nat>, b: set<nat>)
    requires a <= b
    ensures |a| <= |b|
    ensures |a| == |b| <==> a == b
    decreases a
  {
    if a != {} {
      var x :| x in a;
      SubsetSize(a - {x}, b - {x});
    }
  }

  /** The queue of a breadth-first walk that has processed the first head entries. */
  ghost predicate Frontier(g: Graph, root: nat, q: seq<nat>, head: nat)
  {
    && q != [] && q[0] == root && head <= |q|
    && Distinct(q)
    && QueueReachable(g, root, q)
    && QueueParents(g.wires, q, head)
    && QueueClosed(g.wires, q, head)
  }

  ghost predicate QueueReachable(g: Graph, root: nat, q: seq<nat>)
  {
    && (forall j :: 0 <= j < |q| ==> q[j] < |g.nodes|)
    && (forall j {:trigger Reachable(g.wires, root, q[j])} :: 0 <= j < |q| ==> Reachable(g.wires, root, q[j]))
  }

  ghost predicate QueueParents(wires: seq<Wire>, q: seq<nat>, head: nat)
    requires head <= |q|
  {
    forall j {:trigger FromProcessed(wires, q[..head], q[j])} :: 0 < j < |q| ==>
      FromProcessed(wires, q[..head], q[j])
  }

  ghost predicate QueueClosed(wires: seq<Wire>, q: seq<nat>, head: nat)
    requires head <= |q|
  {
    forall e :: 0 <= e < |wires| && wires[e].src in q[..head] ==> wires[e].dst in q
  }

  ghost predicate FromProcessed(wires: seq<Wire>, processed: seq<nat>, i: nat)
  {
    exists e :: 0 <= e < |wires| && wires[e].dst == i && wires[e].src in processed
  }

  /** The first count targets of a node, in the order in which the walk enqueues them. */
  function Kids(info: NodeInfo, count: nat): (kids: seq<int>)
    requires count <= |info.portTarget|
  {
    (if info.invalidTarget == -1 then [] else [info.invalidTarget]) + info.portTarget[..count]
  }

  function KidSlot(info: NodeInfo, j: nat): Slot
  {
    if info.invalidTarget == -1 then Port(j) else if j == 0 then Invalid else Port(j - 1)
  }

  ghost predicate PortsFull(info: NodeInfo, count: nat)
  {
    count <= |info.portTarget| && forall k :: 0 <= k < count ==> info.portTarget[k] != -1
  }

  /** Each kid is the far end of a wire out of the node. */
  lemma KidHasWire(table: seq<NodeInfo>, g: Graph, limits: Limits, i: nat, count: nat, j: nat)
    returns (e: nat)
    requires Wired(table, g.nodes, g.wires, limits) && i < |table| && PortsFull(table[i], count)
    requires j < |Kids(table[i], count)|
    ensures e < |g.wires| && g.wires[e].src == i && g.wires[e].slot == KidSlot(table[i], j)
    ensures g.wires[e].dst == Kids(table[i], count)[j]
  {
    var slot := KidSlot(table[i], j);
    assert SlotInRange(slot, limits.maxPorts);
    assert Target(table[i], slot) == Kids(table[i], count)[j] != -1;
    e :| 0 <= e < |g.wires| && g.wires[e].src == i && g.wires[e].slot == slot;
  }

  lemma KidsInRange(table: seq<NodeInfo>, g: Graph, limits: Limits, i: nat, count: nat)
    requires Wired(table, g.nodes, g.wires, limits) && i < |table| && PortsFull(table[i], count)
    ensures forall j :: 0 <= j < |Kids(table[i], count)| ==> 0 <= Kids(table[i], count)[j] < |g.nodes|
  {
    forall j | 0 <= j < |Kids(table[i], count)|
      ensures 0 <= Kids(table[i], count)[j] < |g.nodes|
    {
      var e := KidHasWire(table, g, limits, i, count, j);
    }
  }

  /** A wire out of the next queue entry leads to a node that is not in the queue yet. */
  lemma TargetIsNew(g: Graph, root: nat, q: seq<nat>, head: nat, e: nat)
    requires OneParent(g.wires) && !HasParent(g.wires, root)
    requires Frontier(g, root, q, head) && head < |q| && e < |g.wires| && g.wires[e].src == q[head]
    ensures g.wires[e].dst !in q
  {
    assert HasParent(g.wires, g.wires[e].dst);
    assert !FromProcessed(g.wires, q[..head], g.wires[e].dst);
  }

  /** No kid of the next queue entry is in the queue already, and no two kids coincide: this is
      what replaces a visited set. */
  lemma KidsAreNew(table: seq<NodeInfo>, g: Graph, limits: Limits, root: nat, q: seq<nat>, head: nat,
                   count: nat, kids: seq<nat>)
    requires Wired(table, g.nodes, g.wires, limits)
    requires OneParent(g.wires) && !HasParent(g.wires, root)
    requires Frontier(g, root, q, head) && head < |q|
    requires PortsFull(table[q[head]], count) && kids == Kids(table[q[head]], count)
    ensures Distinct(q + kids)
  {
    forall j | 0 <= j < |kids|
      ensures kids[j] !in q
    {
      var e := KidHasWire(table, g, limits, q[head], count, j);
      TargetIsNew(g, root, q, head, e);
    }
    KidsDiffer(table, g, limits, q[head], count, kids);
  }

  lemma KidsDiffer(table: seq<NodeInfo>, g: Graph, limits: Limits, i: nat, count: nat, kids: seq<nat>)
    requires Wired(table, g.nodes, g.wires, limits) && OneParent(g.wires)
    requires i < |table| && PortsFull(table[i], count) && kids == Kids(table[i], count)
    ensures Distinct(kids)
  {
    forall a, b | 0 <= a < b < |kids|
      ensures kids[a] != kids[b]
    {
      var e := KidHasWire(table, g, limits, i, count, a);
      var f := KidHasWire(table, g, limits, i, count, b);
      assert KidSlot(table[i], a) != KidSlot(table[i], b);
    }
  }

  /** Processing the next entry with all its kids enqueued keeps the frontier. */
  lemma FrontierStep(table: seq<NodeInfo>, g: Graph, limits: Limits, root: nat, q: seq<nat>, head: nat,
                     count: nat, kids: seq<nat>)
    requires Wired(table, g.nodes, g.wires, limits)
    requires OneParent(g.wires) && !HasParent(g.wires, root)
    requires Frontier(g, root, q, head) && head < |q|
    requires PortsFull(table[q[head]], count) && kids == Kids(table[q[head]], count)
    requires PortsFit(g.wires, q[head], count, limits.maxPorts)
    ensures Frontier(g, root, q + kids, head + 1)
  {
    KidsAreNew(table, g, limits, root, q, head, count, kids);
    assert Reachable(g.wires, root, q[head]);
    KidsReached(table, g, limits, root, q[..head], q[head], count, kids);
    ParentsGrow(g.wires, q, head, kids);
    ClosedGrows(table, g, limits, q, head, count, kids);
  }

  lemma KidsReached(table: seq<NodeInfo>, g: Graph, limits: Limits, root: nat, processed: seq<nat>,
                    i: nat, count: nat, kids: seq<nat>)
    requires Wired(table, g.nodes, g.wires, limits)
    requires i < |table| && Reachable(g.wires, root, i)
    requires PortsFull(table[i], count) && kids == Kids(table[i], count)
    ensures QueueReachable(g, root, kids)
    ensures forall j :: 0 <= j < |kids| ==> FromProcessed(g.wires, processed + [i], kids[j])
  {
    forall j | 0 <= j < |kids|
      ensures kids[j] < |g.nodes| && Reachable(g.wires, root, kids[j])
      ensures FromProcessed(g.wires, processed + [i], kids[j])
    {
      var e := KidHasWire(table, g, limits, i, count, j);
      ReachStep(g.wires, root, e);
      assert g.wires[e].src in processed + [i];
    }
  }

  lemma ParentsGrow(wires: seq<Wire>, q: seq<nat>, head: nat, kids: seq<nat>)
    requires head < |q| && QueueParents(wires, q, head)
    requires forall j :: 0 <= j < |kids| ==> FromProcessed(wires, q[..head] + [q[head]], kids[j])
    ensures QueueParents(wires, q + kids, head + 1)
  {
    var q' := q + kids;
    assert q'[..head + 1] == q[..head] + [q[head]];
    forall j | 0 < j < |q'|
      ensures FromProcessed(wires, q'[..head + 1], q'[j])
    {
      if j < |q| {
        assert FromProcessed(wires, q[..head], q[j]);
        var f :| 0 <= f < |wires| && wires[f].dst == q[j] && wires[f].src in q[..head];
        assert wires[f].src in q'[..head + 1];
      } else {
        assert q'[j] == kids[j - |q|];
      }
    }
  }

  lemma ClosedGrows(table: seq<NodeInfo>, g: Graph, limits: Limits, q: seq<nat>, head: nat, count: nat, kids: seq<nat>)
    requires Wired(table, g.nodes, g.wires, limits)
    requires head < |q| && q[head] < |table| && QueueClosed(g.wires, q, head)
    requires PortsFull(table[q[head]], count) && kids == Kids(table[q[head]], count)
    requires PortsFit(g.wires, q[head], count, limits.maxPorts)
    ensures QueueClosed(g.wires, q + kids, head + 1)
  {
    var q' := q + kids;
    assert q'[..head + 1] == q[..head] + [q[head]];
    forall e | 0 <= e < |g.wires| && g.wires[e].src in q'[..head + 1]
      ensures g.wires[e].dst in q'
    {
      if g.wires[e].src == q[head] {
        WireIsKid(table, g, limits, e, count);
        var j :| 0 <= j < |kids| && kids[j] == g.wires[e].dst;
        assert q'[|q| + j] == kids[j];
      } else {
        assert g.wires[e].dst in q;
      }
    }
  }

  /** With its declared ports wired and no others, a node's wires all lead to its kids. */
  lemma WireIsKid(table: seq<NodeInfo>, g: Graph, limits: Limits, e: nat, count: nat)
    requires Wired(table, g.nodes, g.wires, limits) && e < |g.wires|
    requires count <= limits.maxPorts && PortsFit(g.wires, g.wires[e].src, count, limits.maxPorts)
    ensures g.wires[e].dst as int in Kids(table[g.wires[e].src], count)
  {
    var w := g.wires[e];
    var info := table[w.src];
    assert SlotWired(g.wires, w.src, w.slot);
    match w.slot
    case Invalid => assert Kids(info, count)[0] == w.dst;
    case Port(k) => assert Kids(info, count)[(if info.invalidTarget == -1 then 0 else 1) + k] == w.dst;
  }

  /** Once the queue is exhausted it holds exactly the reachable nodes; so it has the length of
      the node table exactly when the graph is one tree that spans it. */
  lemma ExhaustedQueue(g: Graph, root: nat, q: seq<nat>)
    requires Frontier(g, root, q, |q|)
    requires OneParent(g.wires) && !HasParent(g.wires, root)
    ensures |q| == |g.nodes| <==> RootedTree(g, root)
    ensures forall i :: 0 <= i < |g.nodes| ==> (Reachable(g.wires, root, i) <==> i in q)
  {
    ExhaustedIsReachable(g, root, q);
    Pigeonhole(q, |g.nodes|);
    assert root < |g.nodes|;
  }

  lemma ExhaustedIsReachable(g: Graph, root: nat, q: seq<nat>)
    requires q != [] && q[0] == root && QueueReachable(g, root, q) && QueueClosed(g.wires, q, |q|)
    ensures forall i :: 0 <= i < |g.nodes| ==> (Reachable(g.wires, root, i) <==> i in q)
  {
    assert q[..|q|] == q;
    forall i | 0 <= i < |g.nodes| && Reachable(g.wires, root, i)
      ensures i in q
    {
      ClosedHasReachable(g.wires, root, i, set x | x in q);
    }
  }
}
