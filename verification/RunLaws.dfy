/** What a run does, said of the graph and of what the stages answer. */
module RunLaws {
  import opened Options
  import opened GraphSpec
  import opened PipelineChain
  import opened PipelineSpec

  /** An edge of the graph leads from this slot of node i to node j. */
  ghost predicate EdgeTo(g: Graph, i: nat, slot: Slot, j: nat)
  {
    exists e :: 0 <= e < |g.wires| && g.wires[e] == Wire(i, slot, j)
  }

  ghost predicate HasEdge(g: Graph, i: nat, slot: Slot)
  {
    exists j: nat :: EdgeTo(g, i, slot, j)
  }

  ghost predicate IsLeaf(g: Graph, i: nat)
  {
    forall k: nat :: !HasEdge(g, i, Port(k))
  }

  /** What happens after one process() call: the next visit, or the end of the run, forwarded or
      dropped. */
  datatype After = Visits(v: Visit) | Forwards | Drops

  /** A record that its stage drops is dropped. One that is flagged goes down the node's invalid
      edge; without such an edge it is dropped unless the node passes flagged records on. Any other
      is forwarded by a leaf, and else goes down the edge of the port that the stage answered, or
      is dropped if the node has no such port. */
  ghost predicate Follows(g: Graph, v: Visit, reply: Reply, after: After)
    requires v.node < |g.nodes|
  {
    var i, flagged := v.node, IntegrityFailed(reply.out.flags);
    if !reply.ok then after == Drops
    else if flagged && HasEdge(g, i, Invalid) then
      forall j: nat | EdgeTo(g, i, Invalid, j) :: after == Visits(Visit(j, reply.out))
    else if flagged && !g.nodes[i].passInvalid then after == Drops
    else if IsLeaf(g, i) then after == Forwards
    else if HasEdge(g, i, Port(reply.outPort)) then
      forall j: nat | EdgeTo(g, i, Port(reply.outPort), j) :: after == Visits(Visit(j, reply.out))
    else after == Drops
  }

  function AfterVisit(visits: seq<Visit>, n: nat, ok: bool): After
    requires n < |visits|
  {
    if n + 1 < |visits| then Visits(visits[n + 1]) else if ok then Forwards else Drops
  }

  ghost predicate FollowsAt(g: Graph, b: Behaviour, call: nat, visits: seq<Visit>, n: nat, ok: bool)
    requires n < |visits|
  {
    var v := visits[n];
    v.node < |g.nodes| && Follows(g, v, b(call + n, v.node, v.input), AfterVisit(visits, n, ok))
  }

  /** The visits from the call-th process() call on are what the graph and the answers make of this
      input. */
  ghost predicate FollowsGraph(g: Graph, b: Behaviour, call: nat, first: Visit, visits: seq<Visit>, ok: bool)
  {
    && visits != [] && visits[0] == first
    && forall n :: 0 <= n < |visits| ==> FollowsAt(g, b, call, visits, n, ok)
  }

  // ---- The slots of a loaded node are the edges of the graph ----

  ghost predicate SlotsAre(g: Graph, inst: Instance, i: nat)
  {
    && i < |g.nodes| && inst.passInvalid == g.nodes[i].passInvalid
    && (forall j: nat :: EdgeTo(g, i, Invalid, j) <==> inst.invalidChild == j)
    && (inst.invalidChild == -1 <==> !HasEdge(g, i, Invalid))
    && inst.portCount <= |inst.children|
    && (forall k: nat, j: nat :: EdgeTo(g, i, Port(k), j) <==> k < inst.portCount && inst.children[k] == j)
    && (forall k: nat :: HasEdge(g, i, Port(k)) <==> k < inst.portCount)
  }

  lemma SlotHasOneEdge(g: Graph, i: nat, slot: Slot, target: int)
    requires SlotsDistinct(g.wires) && LeadsTo(g.wires, i, slot, target)
    ensures HasEdge(g, i, slot) && target >= 0
    ensures forall j: nat :: EdgeTo(g, i, slot, j) <==> target == j
  {
    var e :| 0 <= e < |g.wires| && g.wires[e].src == i && g.wires[e].slot == slot && g.wires[e].dst == target;
    assert g.wires[e] == Wire(i, slot, g.wires[e].dst);
    assert EdgeTo(g, i, slot, g.wires[e].dst);
  }

  lemma NoEdge(g: Graph, i: nat, slot: Slot)
    requires !SlotWired(g.wires, i, slot)
    ensures !HasEdge(g, i, slot) && forall j: nat :: !EdgeTo(g, i, slot, j)
  {
  }

  lemma LoadedSlots(g: Graph, root: nat, registry: seq<StageType>, outcome: nat -> InitOutcome, limits: Limits,
                    stages: seq<Option<Instance>>, i: nat)
    requires LoadedChain(g, root, registry, outcome, limits, stages) && i < |stages|
    ensures stages[i].Some? && SlotsAre(g, stages[i].value, i)
  {
    hide EdgeTo, HasEdge, RootedTree, TypesFit;
    assert Realizes(stages[i], g, registry, outcome, limits, i) && NodeFits(g, registry, outcome, limits, i);
    var inst := stages[i].value;
    if inst.invalidChild == -1 {
      NoEdge(g, i, Invalid);
    } else {
      SlotHasOneEdge(g, i, Invalid, inst.invalidChild);
    }
    forall k: nat
      ensures HasEdge(g, i, Port(k)) <==> k < inst.portCount
      ensures forall j: nat :: EdgeTo(g, i, Port(k), j) <==> k < inst.portCount && inst.children[k] == j
    {
      if k < inst.portCount {
        SlotHasOneEdge(g, i, Port(k), inst.children[k]);
      } else {
        BeyondPorts(g, registry, outcome, limits, i, k);
        NoEdge(g, i, Port(k));
      }
    }
  }

  lemma BeyondPorts(g: Graph, registry: seq<StageType>, outcome: nat -> InitOutcome, limits: Limits, i: nat, k: nat)
    requires WellFormed(g, limits) && i < |g.nodes| && NodeFits(g, registry, outcome, limits, i)
    requires PortCount(StageOf(g, registry, i).value, outcome(i)) <= k
    ensures !SlotWired(g.wires, i, Port(k))
  {
  }

  // ---- Every run follows the graph ----

  /** One process() call: the tree's route is what the graph says. */
  lemma RouteFollows(g: Graph, stages: seq<Option<Instance>>, t: Tree, v: Visit, reply: Reply)
    requires Unfolds(stages, t) && v.node == t.idx && SlotsAre(g, stages[t.idx].value, t.idx)
    ensures match RouteOf(t, reply)
      case Stop(verdict) => Follows(g, v, reply, if verdict.Forwarded? then Forwards else Drops)
      case Down(below) => Follows(g, v, reply, Visits(Visit(below.idx, reply.out)))
  {
    hide EdgeTo, HasEdge;
    var inst := stages[t.idx].value;
    assert IsLeaf(g, t.idx) <==> inst.portCount == 0 by {
      if inst.portCount > 0 {
        assert HasEdge(g, t.idx, Port(0));
      }
    }
  }

  lemma {:induction false} EvalFollows(g: Graph, root: nat, registry: seq<StageType>, outcome: nat -> InitOutcome,
                                       limits: Limits, stages: seq<Option<Instance>>, t: Tree, b: Behaviour,
                                       call: nat, input: Record)
    requires LoadedChain(g, root, registry, outcome, limits, stages) && Unfolds(stages, t)
    ensures var o := Eval(t, b, call, input);
      FollowsGraph(g, b, call, Visit(t.idx, input), o.visits, o.verdict.Forwarded?)
    decreases t
  {
    hide LoadedChain, Follows, SlotsAre;
    var first, reply, o := Visit(t.idx, input), b(call, t.idx, input), Eval(t, b, call, input);
    ChainCovers(g, root, registry, outcome, limits, stages);
    LoadedSlots(g, root, registry, outcome, limits, stages, t.idx);
    RouteFollows(g, stages, t, first, reply);
    if RouteOf(t, reply).Down? {
      var below := RouteOf(t, reply).below;
      EvalFollows(g, root, registry, outcome, limits, stages, below, b, call + 1, reply.out);
      var rest := Eval(below, b, call + 1, reply.out);
      Prepended(g, b, call, first, rest.visits, rest.verdict.Forwarded?, reply);
    }
  }

  lemma ChainCovers(g: Graph, root: nat, registry: seq<StageType>, outcome: nat -> InitOutcome, limits: Limits,
                    stages: seq<Option<Instance>>)
    requires LoadedChain(g, root, registry, outcome, limits, stages)
    ensures |stages| == |g.nodes|
  {
  }

  lemma FollowsShift(g: Graph, b: Behaviour, call: nat, first: Visit, rest: seq<Visit>, n: nat, ok: bool)
    requires n < |rest| && FollowsAt(g, b, call + 1, rest, n, ok)
    ensures FollowsAt(g, b, call, [first] + rest, n + 1, ok)
  {
    hide Follows;
    var visits := [first] + rest;
    assert visits[n + 1] == rest[n] && AfterVisit(visits, n + 1, ok) == AfterVisit(rest, n, ok);
    assert call + (n + 1) == call + 1 + n;
  }

  lemma Prepended(g: Graph, b: Behaviour, call: nat, first: Visit, rest: seq<Visit>, ok: bool, reply: Reply)
    requires rest != [] && FollowsGraph(g, b, call + 1, rest[0], rest, ok)
    requires first.node < |g.nodes| && reply == b(call, first.node, first.input)
    requires Follows(g, first, reply, Visits(rest[0]))
    ensures FollowsGraph(g, b, call, first, [first] + rest, ok)
  {
    var visits := [first] + rest;
    assert FollowsAt(g, b, call, visits, 0, ok) by {
      assert call + 0 == call;
      assert AfterVisit(visits, 0, ok) == Visits(rest[0]);
    }
    hide FollowsAt;
    forall n | 0 <= n < |visits|
      ensures FollowsAt(g, b, call, visits, n, ok)
    {
      if n > 0 {
        FollowsShift(g, b, call, first, rest, n - 1, ok);
      }
    }
  }
}
