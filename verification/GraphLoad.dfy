/** graph_config_load(): tables filled in place, a breadth-first walk without a visited set,
    and stage initialisation interleaved with failure cleanup. */
module GraphLoad {
  import opened Options
  import opened JsonValues
  import opened GraphSpec
  import opened GraphTables
  import opened PipelineChain

  // ---- Nodes ----

  method FindNodeIdx(nodes: array<NodeInfo>, count: nat, id: string, ghost specs: seq<NodeSpec>)
    returns (found: bool, idx: nat)
    requires count == |specs| <= nodes.Length
    requires forall i :: 0 <= i < count ==> nodes[i].spec == specs[i]
    ensures found <==> FindNode(specs, id, 0).Some?
    ensures found ==> FindNode(specs, id, 0) == Some(idx)
  {
    idx := 0;
    for i := 0 to count
      invariant FindNode(specs, id, 0) == FindNode(specs, id, i)
    {
      if nodes[i].spec.id == id {
        return true, i;
      }
    }
    return false, 0;
  }

  method ReadNodes(json: Option<Json>, nodes: array<NodeInfo>, count: nat, limits: Limits)
    returns (ok: bool, ghost specs: seq<NodeSpec>)
    requires count == ArraySize(json) <= nodes.Length
    modifies nodes
    ensures ok <==> forall i :: 0 <= i < count ==> ReadNode(ArrayGet(json, i)).Some?
    ensures ok ==> |specs| == count && forall i :: 0 <= i < count ==> ReadNode(ArrayGet(json, i)) == Some(specs[i])
    ensures ok ==> Wired(nodes[..count], specs, [], limits)
  {
    specs := [];
    for i := 0 to count
      invariant |specs| == i
      invariant forall j :: 0 <= j < i ==> ReadNode(ArrayGet(json, j)) == Some(specs[j])
      invariant forall j :: 0 <= j < i ==> nodes[j] == FreshInfo(specs[j], limits.maxPorts)
    {
      var node := ReadNode(ArrayGet(json, i));
      if node.None? {
        return false, specs;
      }
      nodes[i] := FreshInfo(node.value, limits.maxPorts);
      specs := specs + [node.value];
    }
    return true, specs;
  }

  // ---- Edges ----

  /** Enters one edge into the table, unless it cannot be read or its slot is taken. */
  method WireEdge(edge: Option<Json>, nodes: array<NodeInfo>, count: nat, limits: Limits, ghost specs: seq<NodeSpec>)
    returns (ok: bool)
    requires count <= nodes.Length && RowsFit(nodes[..count], specs, limits.maxPorts)
    modifies nodes
    ensures var read, table := ReadEdge(specs, edge, limits.maxPorts), old(nodes[..count]);
      && (ok <==> read.Some? && Target(table[read.value.src], read.value.slot) == -1)
      && (ok ==> nodes[..count] == AddWire(table, read.value))
  {
    assert forall i :: 0 <= i < count ==> nodes[i] == nodes[..count][i];
    var source, target := AsString(Get(edge, "source"), None), AsString(Get(edge, "target"), None);
    if source.None? || target.None? {
      return false;
    }
    var srcFound, src := FindNodeIdx(nodes, count, source.value, specs);
    var dstFound, dst := FindNodeIdx(nodes, count, target.value, specs);
    if !srcFound || !dstFound {
      return false;
    }
    if AsBool(Get(edge, "invalid_target"), false) {
      if Get(edge, "source_port").Some? || nodes[src].invalidTarget != -1 {
        return false;
      }
      nodes[src] := nodes[src].(invalidTarget := dst);
    } else {
      var port := AsNumber(Get(edge, "source_port"), 0.0);
      if port < 0.0 || port >= limits.maxPorts as real {
        return false;
      }
      var k: nat := port.Floor;
      if nodes[src].portTarget[k] != -1 {
        return false;
      }
      nodes[src] := nodes[src].(portTarget := nodes[src].portTarget[k := dst]);
    }
    nodes[dst] := nodes[dst].(inDegree := nodes[dst].inDegree + 1);
    return true;
  }

  /** Fills port_target, invalid_target and in_degree from the edge list. */
  method WireEdges(json: Option<Json>, nodes: array<NodeInfo>, count: nat, limits: Limits, ghost specs: seq<NodeSpec>)
    returns (ok: bool, ghost wires: seq<Wire>)
    requires count <= nodes.Length && Wired(nodes[..count], specs, [], limits)
    modifies nodes
    ensures ok ==> EdgesSpell(json, specs, limits, wires) && Wired(nodes[..count], specs, wires, limits)
    ensures !ok ==> forall ws: seq<Wire> :: EdgesSpell(json, specs, limits, ws) ==> !SlotsDistinct(ws)
  {
    hide Wired, SlotsDistinct, RowsFit;
    wires := [];
    for e := 0 to ArraySize(json)
      invariant |wires| == e
      invariant forall f :: 0 <= f < e ==> ReadEdge(specs, ArrayGet(json, f), limits.maxPorts) == Some(wires[f])
      invariant Wired(nodes[..count], specs, wires, limits)
    {
      ghost var table := nodes[..count];
      ghost var read := ReadEdge(specs, ArrayGet(json, e), limits.maxPorts);
      WiredRows(table, specs, wires, limits);
      ok := WireEdge(ArrayGet(json, e), nodes, count, limits, specs);
      if !ok {
        if read.None? {
          UnreadableEdge(json, specs, limits, e);
        } else {
          SlotTaken(json, table, specs, wires, limits, read.value);
        }
        return;
      }
      AddWireWired(table, specs, wires, limits, read.value);
      wires := wires + [read.value];
    }
    ok := true;
  }

  lemma WiredRows(table: seq<NodeInfo>, specs: seq<NodeSpec>, wires: seq<Wire>, limits: Limits)
    requires Wired(table, specs, wires, limits)
    ensures RowsFit(table, specs, limits.maxPorts)
  {
  }

  ghost predicate EdgesSpell(json: Option<Json>, specs: seq<NodeSpec>, limits: Limits, wires: seq<Wire>)
  {
    && |wires| == ArraySize(json)
    && forall e :: 0 <= e < |wires| ==> ReadEdge(specs, ArrayGet(json, e), limits.maxPorts) == Some(wires[e])
  }

  lemma UnreadableEdge(json: Option<Json>, specs: seq<NodeSpec>, limits: Limits, e: nat)
    requires e < ArraySize(json) && ReadEdge(specs, ArrayGet(json, e), limits.maxPorts).None?
    ensures forall ws: seq<Wire> :: !EdgesSpell(json, specs, limits, ws)
  {
    forall ws: seq<Wire>
      ensures !EdgesSpell(json, specs, limits, ws)
    {
      assert e < |ws| ==> ReadEdge(specs, ArrayGet(json, e), limits.maxPorts) != Some(ws[e]);
    }
  }

  /** An occupied slot means that an earlier edge used it. */
  lemma SlotTaken(json: Option<Json>, table: seq<NodeInfo>, specs: seq<NodeSpec>, wires: seq<Wire>, limits: Limits, w: Wire)
    requires |wires| < ArraySize(json)
    requires forall f :: 0 <= f < |wires| ==> ReadEdge(specs, ArrayGet(json, f), limits.maxPorts) == Some(wires[f])
    requires ReadEdge(specs, ArrayGet(json, |wires|), limits.maxPorts) == Some(w)
    requires Wired(table, specs, wires, limits) && Target(table[w.src], w.slot) != -1
    ensures forall ws: seq<Wire> :: EdgesSpell(json, specs, limits, ws) ==> !SlotsDistinct(ws)
  {
    assert SlotInRange(w.slot, limits.maxPorts);
    assert SlotWired(wires, w.src, w.slot);
    var f :| 0 <= f < |wires| && wires[f].src == w.src && wires[f].slot == w.slot;
    forall ws: seq<Wire> | EdgesSpell(json, specs, limits, ws)
      ensures !SlotsDistinct(ws)
    {
      assert Some(ws[f]) == Some(wires[f]) && Some(ws[|wires|]) == Some(w);
      assert ws[f].src == ws[|wires|].src && ws[f].slot == ws[|wires|].slot;
    }
  }

  // ---- The root ----

  /** Rejects a second parent and a second root; otherwise finds the one node without a parent. */
  method FindRoot(nodes: array<NodeInfo>, count: nat, ghost g: Graph, limits: Limits)
    returns (ok: bool, root: nat)
    requires count <= nodes.Length && Wired(nodes[..count], g.nodes, g.wires, limits)
    ensures ok ==> root < count && OneParent(g.wires) && !HasParent(g.wires, root)
    ensures ok ==> forall i :: 0 <= i < count && i != root ==> HasParent(g.wires, i)
    ensures !ok ==> forall r :: !RootedTree(g, r)
  {
    var start := -1;
    for i := 0 to count
      invariant -1 <= start < i
      invariant forall j :: 0 <= j < i ==> InDegree(g.wires, j) <= 1
      invariant forall j :: 0 <= j < i ==> (InDegree(g.wires, j) == 0 <==> j == start)
    {
      assert nodes[..count][i].inDegree == InDegree(g.wires, i);
      if nodes[i].inDegree > 1 {
        InDegreeCounts(g.wires, i);
        return false, 0;
      }
      if nodes[i].inDegree == 0 {
        if start != -1 {
          TwoRoots(g, start, i);
          return false, 0;
        }
        start := i;
      }
    }
    DegreesMeanOneParent(g.nodes, g.wires, limits);
    forall i: nat
      ensures InDegree(g.wires, i) == 0 <==> !HasParent(g.wires, i)
    {
      InDegreeCounts(g.wires, i);
    }
    if start == -1 {
      return false, 0;
    }
    return true, start;
  }

  lemma TwoRoots(g: Graph, a: nat, b: nat)
    requires a < b < |g.nodes| && InDegree(g.wires, a) == 0 && InDegree(g.wires, b) == 0
    ensures forall r :: !RootedTree(g, r)
  {
    InDegreeCounts(g.wires, a);
    InDegreeCounts(g.wires, b);
    forall r | RootedTree(g, r)
      ensures false
    {
      ReachedHasParent(g.wires, r, if r == a then b else a);
    }
  }

  // ---- The walk ----

  function InstanceFor(info: NodeInfo, stage: StageType, state: nat, count: nat): Instance
  {
    Instance(stage, state, info.spec.id, count,
             seq(|info.portTarget|, k requires 0 <= k < |info.portTarget| =>
               if k < count then info.portTarget[k] else -1),
             info.invalidTarget, info.spec.passInvalid)
  }

  /** The queue has room for, and every table covers, the kids of a node up to any full port. */
  ghost predicate RoomFor(info: NodeInfo, count: nat, room: int, size: nat)
    requires count <= |info.portTarget|
  {
    forall k :: 0 <= k <= count && PortsFull(info, k) ==>
      |Kids(info, k)| <= room && forall j :: 0 <= j < |Kids(info, k)| ==> 0 <= Kids(info, k)[j] < size
  }

  /** What enqueuing these kids of one parent does to the queue and to expected_in. */
  ghost predicate Enqueued(q: seq<nat>, xs: seq<PortType>, q': seq<nat>, xs': seq<PortType>,
                           kids: seq<int>, outType: PortType)
  {
    && q' == q + kids
    && |xs'| == |xs|
    && forall x :: 0 <= x < |xs| ==> xs'[x] == if x in kids then outType else xs[x]
  }

  lemma EnqueuedNone(q: seq<nat>, xs: seq<PortType>, outType: PortType)
    ensures Enqueued(q, xs, q, xs, [], outType)
  {
  }

  lemma EnqueuedTwice(q: seq<nat>, xs: seq<PortType>, q': seq<nat>, xs': seq<PortType>,
                      q'': seq<nat>, xs'': seq<PortType>, kids: seq<int>, more: seq<int>, outType: PortType)
    requires Enqueued(q, xs, q', xs', kids, outType) && Enqueued(q', xs', q'', xs'', more, outType)
    ensures Enqueued(q, xs, q'', xs'', kids + more, outType)
  {
    assert q + (kids + more) == (q + kids) + more;
  }

  method EnqueueOne(target: nat, outType: PortType, queue: array<nat>, tail: nat, expectedIn: array<PortType>)
    requires tail < queue.Length && target < expectedIn.Length
    modifies queue, expectedIn
    ensures Enqueued(old(queue[..tail]), old(expectedIn[..]), queue[..tail + 1], expectedIn[..], [target], outType)
  {
    expectedIn[target] := outType;
    queue[tail] := target;
  }

  lemma RoomLess(info: NodeInfo, count: nat, room: int, size: nat)
    requires count <= |info.portTarget| && RoomFor(info, count, room, size)
    ensures forall k: nat :: k <= count ==> RoomFor(info, k, room, size)
  {
    hide Kids, PortsFull;
  }

  lemma KidsNext(info: NodeInfo, k: nat, room: int, size: nat)
    requires k < |info.portTarget| && PortsFull(info, k + 1) && RoomFor(info, k + 1, room, size)
    ensures Kids(info, k + 1) == Kids(info, k) + [info.portTarget[k]]
    ensures |Kids(info, k)| < room && 0 <= info.portTarget[k] < size
  {
    assert Kids(info, k + 1) == Kids(info, k) + [info.portTarget[k]];
    assert Kids(info, k + 1)[|Kids(info, k)|] == info.portTarget[k];
  }

  lemma KidsFirst(info: NodeInfo, room: int, size: nat)
    requires RoomFor(info, 0, room, size)
    ensures Kids(info, 0) == if info.invalidTarget == -1 then [] else [info.invalidTarget]
    ensures info.invalidTarget != -1 ==> 0 < room && 0 <= info.invalidTarget < size
  {
    assert PortsFull(info, 0);
    assert info.invalidTarget != -1 ==> Kids(info, 0)[0] == info.invalidTarget;
  }

  /** Enqueues the targets of one node, checking its wired ports against the declared count. */
  method EnqueueKids(info: NodeInfo, count: nat, outType: PortType, queue: array<nat>, tail: nat, expectedIn: array<PortType>)
    returns (ok: bool, newTail: nat)
    requires count <= |info.portTarget| && tail <= queue.Length
    requires RoomFor(info, count, queue.Length - tail, expectedIn.Length)
    modifies queue, expectedIn
    ensures ok <==> forall k :: 0 <= k < |info.portTarget| ==> (info.portTarget[k] != -1 <==> k < count)
    ensures ok ==> newTail <= queue.Length
    ensures ok ==> Enqueued(old(queue[..tail]), old(expectedIn[..]), queue[..newTail], expectedIn[..],
                            Kids(info, count), outType)
  {
    hide Enqueued, RoomFor, Kids;
    ghost var q, xs, kids := queue[..tail], expectedIn[..], [];
    newTail := tail;
    EnqueuedNone(q, xs, outType);
    RoomLess(info, count, queue.Length - tail, expectedIn.Length);
    KidsFirst(info, queue.Length - tail, expectedIn.Length);
    if info.invalidTarget != -1 {
      EnqueueOne(info.invalidTarget, outType, queue, tail, expectedIn);
      newTail, kids := newTail + 1, [info.invalidTarget];
    }
    for k := 0 to |info.portTarget|
      invariant forall i :: 0 <= i < k ==> (info.portTarget[i] != -1 <==> i < count)
      invariant kids == Kids(info, if k < count then k else count)
      invariant newTail == tail + |kids| <= queue.Length
      invariant Enqueued(q, xs, queue[..newTail], expectedIn[..], kids, outType)
    {
      var wired := info.portTarget[k] != -1;
      if k < count {
        if !wired {
          return false, newTail;
        }
        KidsNext(info, k, queue.Length - tail, expectedIn.Length);
        ghost var q', xs' := queue[..newTail], expectedIn[..];
        EnqueueOne(info.portTarget[k], outType, queue, newTail, expectedIn);
        newTail := newTail + 1;
        EnqueuedTwice(q, xs, q', xs', queue[..newTail], expectedIn[..], kids, [info.portTarget[k]], outType);
        kids := kids + [info.portTarget[k]];
      } else if wired {
        return false, newTail;
      }
    }
    return true, newTail;
  }

  method FindStageType(registry: seq<StageType>, name: string) returns (stage: Option<StageType>)
    ensures stage == FindStage(registry, name, 0)
  {
    for i := 0 to |registry|
      invariant FindStage(registry, name, 0) == FindStage(registry, name, i)
    {
      if registry[i].name == name {
        return Some(registry[i]);
      }
    }
    return None;
  }

  lemma PortsFitMeans(table: seq<NodeInfo>, g: Graph, limits: Limits, i: nat, count: nat)
    requires Wired(table, g.nodes, g.wires, limits) && i < |table|
    ensures PortsFit(g.wires, i, count, limits.maxPorts) <==>
              count <= limits.maxPorts &&
              forall k :: 0 <= k < limits.maxPorts ==> (table[i].portTarget[k] != -1 <==> k < count)
  {
    forall k: nat | k < limits.maxPorts
      ensures SlotWired(g.wires, i, Port(k)) <==> table[i].portTarget[k] != -1
    {
      assert SlotInRange(Port(k), limits.maxPorts);
      assert Target(table[i], Port(k)) == table[i].portTarget[k];
    }
  }

  lemma OwesOneMore(owed: set<nat>, before: set<nat>, stages: seq<Option<Instance>>, i: nat, inst: Instance)
    requires OwesExactly(owed, before, stages) && i < |stages| && stages[i].None? && inst.state !in owed
    ensures OwesExactly(if inst.stage.hasTeardown then owed + {inst.state} else owed, before, stages[i := Some(inst)])
  {
    var owed' := if inst.stage.hasTeardown then owed + {inst.state} else owed;
    var stages' := stages[i := Some(inst)];
    forall s | s in owed' && s !in before
      ensures exists j :: 0 <= j < |stages'| && NeedsTeardown(stages'[j]) && stages'[j].value.state == s
    {
      if s in owed {
        var j :| 0 <= j < |stages| && NeedsTeardown(stages[j]) && stages[j].value.state == s;
        assert stages'[j] == stages[j];
      } else {
        assert NeedsTeardown(stages'[i]);
      }
    }
  }

  /** The next queue entry has room for its kids: they are new nodes, and there are only so many. */
  lemma RoomForKids(table: seq<NodeInfo>, g: Graph, limits: Limits, root: nat, q: seq<nat>, head: nat, count: nat)
    requires Wired(table, g.nodes, g.wires, limits) && |g.nodes| <= limits.maxNodes
    requires OneParent(g.wires) && !HasParent(g.wires, root)
    requires Frontier(g, root, q, head) && head < |q| && count <= limits.maxPorts
    ensures |q| <= |g.nodes|
    ensures RoomFor(table[q[head]], count, limits.maxNodes - |q|, limits.maxNodes)
  {
    Pigeonhole(q, |g.nodes|);
    forall k | 0 <= k <= count && PortsFull(table[q[head]], k)
      ensures |Kids(table[q[head]], k)| <= limits.maxNodes - |q|
      ensures forall j :: 0 <= j < |Kids(table[q[head]], k)| ==> 0 <= Kids(table[q[head]], k)[j] < |g.nodes|
    {
      KidsInRange(table, g, limits, q[head], k);
      var kids: seq<nat> := Kids(table[q[head]], k);
      KidsAreNew(table, g, limits, root, q, head, k, kids);
      Pigeonhole(q + kids, |g.nodes|);
    }
  }

  ghost predicate VisitOk(g: Graph, registry: seq<StageType>, outcome: nat -> InitOutcome, limits: Limits,
                          i: nat, input: PortType)
    requires i < |g.nodes|
  {
    NodeFits(g, registry, outcome, limits, i) && input in StageOf(g, registry, i).value.inTypes
  }

  /** Finds, checks and initialises the stage of one node, records it and enqueues its targets. */
  method VisitNode(idx: nat, table: array<NodeInfo>, count: nat, registry: seq<StageType>, limits: Limits,
                   host: StageHost, chain: Chain, queue: array<nat>, tail: nat, expectedIn: array<PortType>,
                   ghost g: Graph, ghost before: set<nat>)
    returns (ok: bool, newTail: nat)
    requires count == |g.nodes| <= table.Length && idx < count <= chain.stages.Length && idx < expectedIn.Length
    requires Wired(table[..count], g.nodes, g.wires, limits)
    requires tail <= queue.Length
    requires RoomFor(table[..count][idx], limits.maxPorts, queue.Length - tail, expectedIn.Length)
    requires host.Valid() && OwesExactly(host.owed, before, chain.stages[..count]) && chain.stages[idx].None?
    modifies host, chain.stages, queue, expectedIn
    ensures host.Valid() && OwesExactly(host.owed, before, chain.stages[..count])
    ensures ok <==> VisitOk(g, registry, host.outcome, limits, idx, old(expectedIn[idx]))
    ensures ok ==> newTail <= queue.Length
    ensures ok ==>
      var stage := StageOf(g, registry, idx).value;
      var ports := PortCount(stage, host.outcome(idx));
      && chain.stages[idx].Some?
      && chain.stages[idx].value == InstanceFor(table[idx], stage, chain.stages[idx].value.state, ports)
      && Enqueued(old(queue[..tail]), old(expectedIn[..]), queue[..newTail], expectedIn[..],
                  Kids(table[idx], ports), stage.outType)
    ensures forall x :: 0 <= x < chain.stages.Length && x != idx ==> chain.stages[x] == old(chain.stages[x])
  {
    hide Enqueued;
    newTail := tail;
    var info := table[idx];
    assert info == table[..count][idx];
    var found := FindStageType(registry, info.spec.typeName);
    if found.None? {
      return false, tail;
    }
    var stage := found.value;
    if expectedIn[idx] !in stage.inTypes {
      return false, tail;
    }
    var made := host.Init(idx, stage);
    if made.None? {
      return false, tail;
    }
    var ports := if stage.countsPorts then host.outcome(idx).ports else 1;
    if ports > limits.maxPorts {
      if stage.hasTeardown {
        host.Teardown(made.value);
        assert host.owed == old(host.owed);
      }
      return false, tail;
    }
    var inst := InstanceFor(info, stage, made.value, ports);
    OwesOneMore(old(host.owed), before, chain.stages[..count], idx, inst);
    ghost var stages := chain.stages[..count];
    chain.stages[idx] := Some(inst);
    assert chain.stages[..count] == stages[idx := Some(inst)];
    PortsFitMeans(table[..count], g, limits, idx, ports);
    ok, newTail := EnqueueKids(info, ports, stage.outType, queue, tail, expectedIn);
  }

  /** What the walk has established about the nodes it has processed. */
  ghost predicate Visited(g: Graph, registry: seq<StageType>, outcome: nat -> InitOutcome, limits: Limits,
                          table: seq<NodeInfo>, done: seq<nat>, stages: seq<Option<Instance>>)
    requires |g.nodes| == |table| == |stages|
  {
    forall i :: 0 <= i < |stages| ==>
      if i in done then
        NodeFits(g, registry, outcome, limits, i) &&
        BuiltFor(g, registry, outcome, table[i], i, stages[i])
      else stages[i].None?
  }

  /** The slot holds the instance that node i calls for. */
  ghost predicate BuiltFor(g: Graph, registry: seq<StageType>, outcome: nat -> InitOutcome,
                           info: NodeInfo, i: nat, slot: Option<Instance>)
    requires i < |g.nodes| && StageOf(g, registry, i).Some? && outcome(i).Made?
  {
    var stage := StageOf(g, registry, i).value;
    slot.Some? && slot.value == InstanceFor(info, stage, slot.value.state, PortCount(stage, outcome(i)))
  }

  /** expected_in of the root and of every target of a processed node, and what was checked
      against it. */
  ghost predicate TypesTracked(g: Graph, registry: seq<StageType>, root: nat, done: seq<nat>, xs: seq<PortType>)
    requires root < |g.nodes| <= |xs|
    requires forall e :: 0 <= e < |g.wires| ==> g.wires[e].src < |g.nodes| && g.wires[e].dst < |g.nodes|
  {
    && xs[root] == RawRecord
    && (forall i :: 0 <= i < |g.nodes| && i in done ==>
          StageOf(g, registry, i).Some? && xs[i] in StageOf(g, registry, i).value.inTypes)
    && (forall e :: 0 <= e < |g.wires| && g.wires[e].src in done ==>
          StageOf(g, registry, g.wires[e].src).Some? &&
          xs[g.wires[e].dst] == StageOf(g, registry, g.wires[e].src).value.outType)
  }

  /** A node whose check fails spoils the whole graph. */
  lemma VisitFailed(g: Graph, registry: seq<StageType>, outcome: nat -> InitOutcome, limits: Limits,
                    root: nat, q: seq<nat>, head: nat, xs: seq<PortType>)
    requires WellFormed(g, limits) && OneParent(g.wires) && |xs| >= |g.nodes|
    requires Frontier(g, root, q, head) && head < |q|
    requires TypesTracked(g, registry, root, q[..head], xs)
    requires !VisitOk(g, registry, outcome, limits, q[head], xs[q[head]])
    ensures !Sound(g, root, registry, outcome, limits)
  {
    if head > 0 {
      assert FromProcessed(g.wires, q[..head], q[head]);
      var e :| 0 <= e < |g.wires| && g.wires[e].dst == q[head] && g.wires[e].src in q[..head];
      assert xs[q[head]] == StageOf(g, registry, g.wires[e].src).value.outType;
    }
  }

  lemma TypesStep(g: Graph, registry: seq<StageType>, limits: Limits, root: nat, table: seq<NodeInfo>,
                  q: seq<nat>, head: nat, xs: seq<PortType>, xs': seq<PortType>, ports: nat, kids: seq<nat>)
    requires Wired(table, g.nodes, g.wires, limits)
    requires OneParent(g.wires) && !HasParent(g.wires, root)
    requires Frontier(g, root, q, head) && head < |q| && |g.nodes| <= |xs|
    requires TypesTracked(g, registry, root, q[..head], xs)
    requires StageOf(g, registry, q[head]).Some? && xs[q[head]] in StageOf(g, registry, q[head]).value.inTypes
    requires PortsFit(g.wires, q[head], ports, limits.maxPorts)
    requires PortsFull(table[q[head]], ports) && kids == Kids(table[q[head]], ports)
    requires Enqueued(q, xs, q + kids, xs', kids, StageOf(g, registry, q[head]).value.outType)
    ensures TypesTracked(g, registry, root, q[..head] + [q[head]], xs')
  {
    var i := q[head];
    KidsAreNew(table, g, limits, root, q, head, ports, kids);
    forall x | x in q
      ensures x !in kids
    {
      var j :| 0 <= j < |q| && q[j] == x;
      assert (q + kids)[j] == x;
      assert forall h :: 0 <= h < |kids| ==> (q + kids)[|q| + h] == kids[h];
    }
    forall e | 0 <= e < |g.wires| && g.wires[e].src in q[..head] + [i]
      ensures StageOf(g, registry, g.wires[e].src).Some?
      ensures xs'[g.wires[e].dst] == StageOf(g, registry, g.wires[e].src).value.outType
    {
      if g.wires[e].src == i {
        WireIsKid(table, g, limits, e, ports);
      } else {
        assert g.wires[e].dst in q;
      }
    }
  }

  /** When the queue runs dry with every visit a success, only its length is left to check. */
  lemma WalkDone(g: Graph, registry: seq<StageType>, outcome: nat -> InitOutcome, limits: Limits, root: nat,
                 table: seq<NodeInfo>, q: seq<nat>, xs: seq<PortType>, stages: seq<Option<Instance>>)
    requires WellFormed(g, limits) && SlotsDistinct(g.wires) && |table| == |stages| == |g.nodes| <= |xs|
    requires OneParent(g.wires) && !HasParent(g.wires, root)
    requires Frontier(g, root, q, |q|)
    requires Visited(g, registry, outcome, limits, table, q, stages)
    requires TypesTracked(g, registry, root, q, xs)
    ensures |q| == |g.nodes| <==> Sound(g, root, registry, outcome, limits)
    ensures |q| == |g.nodes| ==> AllBuilt(g, registry, outcome, table, stages)
  {
    hide RootedTree, Visited, TypesTracked, Frontier, AllBuilt, TypesFit, NodeFits, SlotsDistinct;
    ExhaustedQueue(g, root, q);
    if |q| == |g.nodes| {
      AllInQueue(g, root, q);
      AllVisited(g, registry, outcome, limits, root, table, q, xs, stages);
    }
  }

  lemma AllInQueue(g: Graph, root: nat, q: seq<nat>)
    requires Frontier(g, root, q, |q|) && |q| == |g.nodes|
    ensures forall i :: 0 <= i < |g.nodes| ==> i in q
    ensures root < |g.nodes|
  {
    Pigeonhole(q, |g.nodes|);
  }

  lemma AllVisited(g: Graph, registry: seq<StageType>, outcome: nat -> InitOutcome, limits: Limits, root: nat,
                   table: seq<NodeInfo>, q: seq<nat>, xs: seq<PortType>, stages: seq<Option<Instance>>)
    requires WellFormed(g, limits) && |table| == |stages| == |g.nodes| <= |xs| && root < |g.nodes|
    requires forall i :: 0 <= i < |g.nodes| ==> i in q
    requires Visited(g, registry, outcome, limits, table, q, stages)
    requires TypesTracked(g, registry, root, q, xs)
    ensures TypesFit(g, registry, root) && AllBuilt(g, registry, outcome, table, stages)
    ensures forall i :: 0 <= i < |g.nodes| ==> NodeFits(g, registry, outcome, limits, i)
  {
    hide PortsFit;
  }

  /** Every slot holds the instance that its node calls for. */
  ghost predicate AllBuilt(g: Graph, registry: seq<StageType>, outcome: nat -> InitOutcome,
                           table: seq<NodeInfo>, stages: seq<Option<Instance>>)
    requires |table| == |stages| == |g.nodes|
  {
    forall i :: 0 <= i < |stages| ==>
      StageOf(g, registry, i).Some? && outcome(i).Made? && BuiltFor(g, registry, outcome, table[i], i, stages[i])
  }

  lemma SoleRoot(g: Graph, root: nat)
    requires forall i :: 0 <= i < |g.nodes| && i != root ==> HasParent(g.wires, i)
    ensures forall r :: RootedTree(g, r) ==> r == root
  {
  }

  lemma TableLeads(g: Graph, limits: Limits, table: seq<NodeInfo>, i: nat, slot: Slot)
    requires Wired(table, g.nodes, g.wires, limits) && i < |table| && SlotInRange(slot, limits.maxPorts)
    ensures Target(table[i], slot) == -1 || LeadsTo(g.wires, i, slot, Target(table[i], slot))
    ensures Target(table[i], slot) == -1 ==> !SlotWired(g.wires, i, slot)
  {
    if Target(table[i], slot) != -1 {
      assert SlotWired(g.wires, i, slot);
    }
  }

  lemma BuiltRealizes(g: Graph, registry: seq<StageType>, outcome: nat -> InitOutcome, limits: Limits,
                      table: seq<NodeInfo>, i: nat, slot: Option<Instance>)
    requires Wired(table, g.nodes, g.wires, limits) && i < |table|
    requires NodeFits(g, registry, outcome, limits, i) && BuiltFor(g, registry, outcome, table[i], i, slot)
    ensures Realizes(slot, g, registry, outcome, limits, i)
  {
    var ports := PortCount(StageOf(g, registry, i).value, outcome(i));
    PortsFitMeans(table, g, limits, i, ports);
    forall k | 0 <= k < ports
      ensures LeadsTo(g.wires, i, Port(k), table[i].portTarget[k])
    {
      TableLeads(g, limits, table, i, Port(k));
    }
    TableLeads(g, limits, table, i, Invalid);
  }

  lemma AllRealize(g: Graph, registry: seq<StageType>, outcome: nat -> InitOutcome, limits: Limits,
                   table: seq<NodeInfo>, stages: seq<Option<Instance>>)
    requires Wired(table, g.nodes, g.wires, limits) && |stages| == |g.nodes|
    requires forall i :: 0 <= i < |g.nodes| ==> NodeFits(g, registry, outcome, limits, i)
    requires AllBuilt(g, registry, outcome, table, stages)
    ensures ChainRealizes(stages, g, registry, outcome, limits)
  {
    forall i | 0 <= i < |stages|
      ensures Realizes(stages[i], g, registry, outcome, limits, i)
    {
      BuiltRealizes(g, registry, outcome, limits, table, i, stages[i]);
    }
  }

  /** The walk's state after head visits, as values. */
  ghost predicate Walking(g: Graph, registry: seq<StageType>, outcome: nat -> InitOutcome, limits: Limits, root: nat,
                          table: seq<NodeInfo>, q: seq<nat>, head: nat, xs: seq<PortType>, stages: seq<Option<Instance>>)
  {
    && Wired(table, g.nodes, g.wires, limits)
    && root < |g.nodes| == |stages| <= |xs| == limits.maxNodes
    && OneParent(g.wires) && !HasParent(g.wires, root)
    && Frontier(g, root, q, head)
    && Visited(g, registry, outcome, limits, table, q[..head], stages)
    && TypesTracked(g, registry, root, q[..head], xs)
  }

  /** Before a visit: the entry is a new node whose kids fit in the queue. */
  lemma BeforeVisit(g: Graph, registry: seq<StageType>, outcome: nat -> InitOutcome, limits: Limits, root: nat,
                    table: seq<NodeInfo>, q: seq<nat>, head: nat, xs: seq<PortType>, stages: seq<Option<Instance>>)
    requires Walking(g, registry, outcome, limits, root, table, q, head, xs, stages) && head < |q|
    ensures q[head] < |g.nodes| && head < |q| <= |g.nodes|
    ensures stages[q[head]].None?
    ensures RoomFor(table[q[head]], limits.maxPorts, limits.maxNodes - |q|, limits.maxNodes)
    ensures !VisitOk(g, registry, outcome, limits, q[head], xs[q[head]]) ==>
              !Sound(g, root, registry, outcome, limits)
  {
    RoomForKids(table, g, limits, root, q, head, limits.maxPorts);
    assert q[head] !in q[..head];
    if !VisitOk(g, registry, outcome, limits, q[head], xs[q[head]]) {
      VisitFailed(g, registry, outcome, limits, root, q, head, xs);
    }
  }

  lemma AfterVisitQueue(g: Graph, registry: seq<StageType>, root: nat, limits: Limits, table: seq<NodeInfo>,
                        q: seq<nat>, head: nat, xs: seq<PortType>, q': seq<nat>, xs': seq<PortType>, ports: nat)
    requires Wired(table, g.nodes, g.wires, limits)
    requires OneParent(g.wires) && !HasParent(g.wires, root)
    requires Frontier(g, root, q, head) && head < |q| && |g.nodes| <= |xs|
    requires TypesTracked(g, registry, root, q[..head], xs)
    requires StageOf(g, registry, q[head]).Some? && xs[q[head]] in StageOf(g, registry, q[head]).value.inTypes
    requires PortsFit(g.wires, q[head], ports, limits.maxPorts)
    requires Enqueued(q, xs, q', xs', Kids(table[q[head]], ports), StageOf(g, registry, q[head]).value.outType)
    ensures head + 1 <= |q'| && q'[..head + 1] == q[..head] + [q[head]]
    ensures Frontier(g, root, q', head + 1)
    ensures TypesTracked(g, registry, root, q'[..head + 1], xs')
  {
    PortsFitMeans(table, g, limits, q[head], ports);
    var kids := q'[|q|..];
    assert kids == Kids(table[q[head]], ports) && q' == q + kids;
    FrontierStep(table, g, limits, root, q, head, ports, kids);
    TypesStep(g, registry, limits, root, table, q, head, xs, xs', ports, kids);
    assert q'[..head + 1] == q[..head] + [q[head]];
  }

  /** A successful visit keeps the walk going, with the node's kids at the end of the queue. */
  lemma AfterVisit(g: Graph, registry: seq<StageType>, outcome: nat -> InitOutcome, limits: Limits, root: nat,
                   table: seq<NodeInfo>, q: seq<nat>, head: nat, xs: seq<PortType>, stages: seq<Option<Instance>>,
                   q': seq<nat>, xs': seq<PortType>, stages': seq<Option<Instance>>)
    requires Walking(g, registry, outcome, limits, root, table, q, head, xs, stages) && head < |q|
    requires VisitOk(g, registry, outcome, limits, q[head], xs[q[head]])
    requires |stages'| == |stages| && BuiltFor(g, registry, outcome, table[q[head]], q[head], stages'[q[head]])
    requires forall j :: 0 <= j < |stages| && j != q[head] ==> stages'[j] == stages[j]
    requires var stage := StageOf(g, registry, q[head]).value;
      var ports := PortCount(stage, outcome(q[head]));
      ports <= limits.maxPorts && Enqueued(q, xs, q', xs', Kids(table[q[head]], ports), stage.outType)
    ensures Walking(g, registry, outcome, limits, root, table, q', head + 1, xs', stages')
  {
    var ports := PortCount(StageOf(g, registry, q[head]).value, outcome(q[head]));
    AfterVisitQueue(g, registry, root, limits, table, q, head, xs, q', xs', ports);
    VisitedStep(g, registry, outcome, limits, table, q[..head], q[head], stages, stages');
  }

  /** Takes the next entry off the queue and visits it. */
  method WalkOn(table: array<NodeInfo>, count: nat, root: nat, registry: seq<StageType>, limits: Limits,
                host: StageHost, chain: Chain, queue: array<nat>, head: nat, tail: nat, expectedIn: array<PortType>,
                ghost g: Graph, ghost before: set<nat>)
    returns (ok: bool, newTail: nat)
    requires count == |g.nodes| <= table.Length && count <= chain.stages.Length
    requires head < tail <= queue.Length == expectedIn.Length == limits.maxNodes
    requires Walking(g, registry, host.outcome, limits, root, table[..count], queue[..tail], head,
                     expectedIn[..], chain.stages[..count])
    requires host.Valid() && OwesExactly(host.owed, before, chain.stages[..count])
    modifies host, chain.stages, queue, expectedIn
    ensures host.Valid() && OwesExactly(host.owed, before, chain.stages[..count])
    ensures head < count
    ensures !ok ==> !Sound(g, root, registry, host.outcome, limits)
    ensures ok ==> head + 1 <= newTail <= queue.Length
    ensures ok ==> Walking(g, registry, host.outcome, limits, root, table[..count], queue[..newTail], head + 1,
                           expectedIn[..], chain.stages[..count])
  {
    ghost var q, xs, stages := queue[..tail], expectedIn[..], chain.stages[..count];
    BeforeVisit(g, registry, host.outcome, limits, root, table[..count], q, head, xs, stages);
    var idx := queue[head];
    assert idx == q[head];
    ok, newTail := VisitNode(idx, table, count, registry, limits, host, chain, queue, tail, expectedIn, g, before);
    if ok {
      AfterVisit(g, registry, host.outcome, limits, root, table[..count], q, head, xs, stages,
                 queue[..newTail], expectedIn[..], chain.stages[..count]);
    }
  }

  /** The breadth-first walk from the root. It reports success exactly when the graph is sound. */
  method Walk(table: array<NodeInfo>, count: nat, root: nat, registry: seq<StageType>, limits: Limits,
              host: StageHost, chain: Chain, ghost g: Graph)
    returns (ok: bool)
    requires 0 < count == |g.nodes| <= limits.maxNodes == chain.stages.Length && count <= table.Length
    requires Wired(table[..count], g.nodes, g.wires, limits)
    requires root < count && OneParent(g.wires) && !HasParent(g.wires, root)
    requires host.Valid() && forall i :: 0 <= i < chain.stages.Length ==> chain.stages[i].None?
    modifies host, chain.stages
    ensures host.Valid() && OwesExactly(host.owed, old(host.owed), chain.stages[..count])
    ensures ok <==> Sound(g, root, registry, host.outcome, limits)
    ensures ok ==> AllBuilt(g, registry, host.outcome, table[..count], chain.stages[..count])
  {
    hide AllBuilt, Sound;
    var expectedIn := new PortType[limits.maxNodes](i => RawRecord);
    var queue := new nat[limits.maxNodes](i => 0);
    queue[0] := root;
    var head, tail := 0, 1;
    StartOfWalk(g, registry, host.outcome, limits, root, table[..count], chain.stages[..count], expectedIn[..]);
    assert queue[..tail] == [root];

    while head < tail
      invariant head <= tail <= queue.Length
      invariant Walking(g, registry, host.outcome, limits, root, table[..count], queue[..tail], head,
                        expectedIn[..], chain.stages[..count])
      invariant host.Valid() && OwesExactly(host.owed, old(host.owed), chain.stages[..count])
      decreases count - head
    {
      var newTail;
      ok, newTail := WalkOn(table, count, root, registry, limits, host, chain, queue, head, tail, expectedIn,
                            g, old(host.owed));
      if !ok {
        return false;
      }
      head, tail := head + 1, newTail;
    }
    assert queue[..tail][..head] == queue[..tail];
    WalkDone(g, registry, host.outcome, limits, root, table[..count], queue[..tail], expectedIn[..], chain.stages[..count]);
    return tail == count;
  }

  lemma StartOfWalk(g: Graph, registry: seq<StageType>, outcome: nat -> InitOutcome, limits: Limits, root: nat,
                    table: seq<NodeInfo>, stages: seq<Option<Instance>>, xs: seq<PortType>)
    requires Wired(table, g.nodes, g.wires, limits)
    requires OneParent(g.wires) && !HasParent(g.wires, root)
    requires root < |g.nodes| == |stages| <= |xs| == limits.maxNodes && xs[root] == RawRecord
    requires forall i :: 0 <= i < |stages| ==> stages[i].None?
    ensures Walking(g, registry, outcome, limits, root, table, [root], 0, xs, stages)
  {
    assert IsPath(g.wires, [root]);
  }

  lemma VisitedStep(g: Graph, registry: seq<StageType>, outcome: nat -> InitOutcome, limits: Limits,
                    table: seq<NodeInfo>, done: seq<nat>, i: nat,
                    stages: seq<Option<Instance>>, stages': seq<Option<Instance>>)
    requires |g.nodes| == |table| == |stages| == |stages'| && i < |stages|
    requires Visited(g, registry, outcome, limits, table, done, stages)
    requires NodeFits(g, registry, outcome, limits, i) && BuiltFor(g, registry, outcome, table[i], i, stages'[i])
    requires forall j :: 0 <= j < |stages| && j != i ==> stages'[j] == stages[j]
    ensures Visited(g, registry, outcome, limits, table, done + [i], stages')
  {
  }

  lemma NothingAcceptable(doc: Json, registry: seq<StageType>, outcome: nat -> InitOutcome, limits: Limits)
    requires forall h :: Spells(doc, limits, h) ==> !SlotsDistinct(h.wires)
    ensures !Acceptable(doc, registry, outcome, limits)
  {
  }

  lemma NeedsRoot(g: Graph, registry: seq<StageType>, outcome: nat -> InitOutcome, limits: Limits)
    ensures forall r :: Sound(g, r, registry, outcome, limits) ==> RootedTree(g, r)
  {
  }

  lemma SoundNodes(g: Graph, root: nat, registry: seq<StageType>, outcome: nat -> InitOutcome, limits: Limits)
    requires Sound(g, root, registry, outcome, limits)
    ensures WellFormed(g, limits) && forall i :: 0 <= i < |g.nodes| ==> NodeFits(g, registry, outcome, limits, i)
  {
  }

  /** Loads a parsed graph file into a chain. It succeeds exactly on the acceptable files; the
      chain then realizes the graph and owes one teardown per stage that has one. On failure,
      wherever it comes, every state that was made has been torn down and the chain is empty. */
  method GraphConfigLoad(doc: Json, registry: seq<StageType>, limits: Limits, host: StageHost, chain: Chain)
    returns (ok: bool, ghost g: Graph)
    requires host.Valid() && chain.stages.Length == limits.maxNodes
    modifies host, chain, chain.stages
    ensures host.Valid()
    ensures ok <==> Acceptable(doc, registry, host.outcome, limits)
    ensures ok ==>
      && Spells(doc, limits, g) && Sound(g, chain.rootIdx, registry, host.outcome, limits)
      && chain.stageCount == |g.nodes| <= chain.stages.Length
      && ChainRealizes(chain.stages[..chain.stageCount], g, registry, host.outcome, limits)
      && OwesExactly(host.owed, old(host.owed), chain.stages[..chain.stageCount])
    ensures !ok ==> host.owed == old(host.owed) && chain.Cleared()
  {
    hide Sound, Wired, ChainRealizes, AllBuilt, OneParent, HasParent, RootedTree;
    g := Graph([], []);
    chain.Clear();
    if !HeaderOk(doc) {
      return false, g;
    }
    var nodesJson := Get(Some(doc), "nodes");
    var count := ArraySize(nodesJson);
    if count == 0 || count > limits.maxNodes {
      return false, g;
    }
    var nodes := new NodeInfo[limits.maxNodes](i => FreshInfo(NodeSpec("", "", None, false), 0));
    ok, g := ReadGraph(doc, nodes, count, limits);
    if !ok {
      NothingAcceptable(doc, registry, host.outcome, limits);
      return false, g;
    }
    RejectedBySoundness(doc, registry, host.outcome, limits, g);
    var root;
    ok, root := FindRoot(nodes, count, g, limits);
    NeedsRoot(g, registry, host.outcome, limits);
    if !ok {
      return false, g;
    }
    SoleRoot(g, root);
    ok := Walk(nodes, count, root, registry, limits, host, chain, g);
    if !ok {
      TeardownAll(chain, count, host, old(host.owed));
      chain.Clear();
      return false, g;
    }
    SoundNodes(g, root, registry, host.outcome, limits);
    AllRealize(g, registry, host.outcome, limits, nodes[..count], chain.stages[..count]);
    chain.stageCount, chain.rootIdx := count, root;
    return true, g;
  }

  /** Fills the node table from the document's nodes and edges. */
  method ReadGraph(doc: Json, nodes: array<NodeInfo>, count: nat, limits: Limits)
    returns (ok: bool, ghost g: Graph)
    requires HeaderOk(doc) && 0 < count == ArraySize(Get(Some(doc), "nodes")) <= limits.maxNodes <= nodes.Length
    modifies nodes
    ensures ok ==> Spells(doc, limits, g) && Wired(nodes[..count], g.nodes, g.wires, limits)
    ensures !ok ==> forall h :: Spells(doc, limits, h) ==> !SlotsDistinct(h.wires)
  {
    var nodesJson, edgesJson := Get(Some(doc), "nodes"), Get(Some(doc), "edges");
    ghost var specs, wires;
    ok, specs := ReadNodes(nodesJson, nodes, count, limits);
    g := Graph(specs, []);
    if !ok {
      return false, g;
    }
    ok, wires := WireEdges(edgesJson, nodes, count, limits, specs);
    g := Graph(specs, wires);
    if !ok {
      RejectedByEdges(doc, limits, specs);
    }
  }

  lemma RejectedByEdges(doc: Json, limits: Limits, specs: seq<NodeSpec>)
    requires |specs| == ArraySize(Get(Some(doc), "nodes"))
    requires forall i :: 0 <= i < |specs| ==> ReadNode(ArrayGet(Get(Some(doc), "nodes"), i)) == Some(specs[i])
    requires forall ws: seq<Wire> :: EdgesSpell(Get(Some(doc), "edges"), specs, limits, ws) ==> !SlotsDistinct(ws)
    ensures forall h :: Spells(doc, limits, h) ==> !SlotsDistinct(h.wires)
  {
    forall h | Spells(doc, limits, h)
      ensures !SlotsDistinct(h.wires)
    {
      forall i | 0 <= i < |specs|
        ensures h.nodes[i] == specs[i]
      {
        assert Some(h.nodes[i]) == Some(specs[i]);
      }
      assert h.nodes == specs;
      assert EdgesSpell(Get(Some(doc), "edges"), specs, limits, h.wires);
    }
  }

  /** A document spells out one graph, so that graph alone decides. */
  lemma RejectedBySoundness(doc: Json, registry: seq<StageType>, outcome: nat -> InitOutcome, limits: Limits, g: Graph)
    requires Spells(doc, limits, g)
    ensures Acceptable(doc, registry, outcome, limits) <==> exists r :: Sound(g, r, registry, outcome, limits)
  {
    forall h | Spells(doc, limits, h)
      ensures h == g
    {
      SpellsUnique(doc, limits, g, h);
    }
  }

  /** validate_graph_file(): a throwaway load. It says whether the file is acceptable and leaves
      no state behind either way. */
  method ValidateGraphFile(doc: Json, registry: seq<StageType>, limits: Limits, host: StageHost)
    returns (ok: bool)
    requires host.Valid()
    modifies host
    ensures host.Valid() && host.owed == old(host.owed)
    ensures ok <==> Acceptable(doc, registry, host.outcome, limits)
  {
    var throwaway := new Chain(limits);
    ghost var g;
    ok, g := GraphConfigLoad(doc, registry, limits, host, throwaway);
    if ok {
      TeardownAll(throwaway, throwaway.stageCount, host, old(host.owed));
    }
  }
}
