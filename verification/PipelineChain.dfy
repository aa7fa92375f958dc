/** The routed tree of stage instances that the loader builds and the engine walks, and the
    bookkeeping of stage states that are still owed a teardown. */
module PipelineChain {
  import opened Options
  import opened GraphSpec

  datatype Instance = Instance(
    stage: StageType,
    state: nat,
    nodeId: string,
    portCount: nat,
    children: seq<int>,
    invalidChild: int,
    passInvalid: bool)

  /** struct pipeline_chain; an empty slot is one whose stage pointer is NULL. */
  class Chain {
    const stages: array<Option<Instance>>
    var stageCount: nat
    var rootIdx: nat

    constructor (limits: Limits)
      ensures stages.Length == limits.maxNodes && fresh(stages) && Cleared()
    {
      stages := new Option<Instance>[limits.maxNodes](i => None);
      stageCount, rootIdx := 0, 0;
    }

    ghost predicate Cleared()
      reads this, stages
    {
      stageCount == 0 && rootIdx == 0 && forall i :: 0 <= i < stages.Length ==> stages[i].None?
    }

    method Clear()
      modifies this, stages
      ensures Cleared()
    {
      for i := 0 to stages.Length
        invariant forall j :: 0 <= j < i ==> stages[j].None?
      {
        stages[i] := None;
      }
      stageCount, rootIdx := 0, 0;
    }
  }

  /** Every init() and teardown() call a chain makes. outcome(i) is what init() does for node
      i: any behaviour of the stages within one load is some such function. */
  class StageHost {
    const outcome: nat -> InitOutcome
    var nextState: nat
    var owed: set<nat>    // states that init() returned and teardown() must still get, once

    ghost predicate Valid()
      reads this
    {
      forall s :: s in owed ==> s < nextState
    }

    constructor (outcome: nat -> InitOutcome)
      ensures this.outcome == outcome && owed == {} && Valid()
    {
      this.outcome := outcome;
      nextState, owed := 0, {};
    }

    method Init(node: nat, stage: StageType) returns (state: Option<nat>)
      requires Valid()
      modifies this
      ensures Valid()
      ensures state.Some? <==> outcome(node).Made?
      ensures state.Some? ==> state.value == old(nextState) && state.value !in old(owed)
      ensures nextState == old(nextState) + if state.Some? then 1 else 0
      ensures owed == if state.Some? && stage.hasTeardown then old(owed) + {state.value} else old(owed)
    {
      if outcome(node).Refused? {
        return None;
      }
      state := Some(nextState);
      if stage.hasTeardown {
        owed := owed + {nextState};
      }
      nextState := nextState + 1;
    }

    /** Tearing a state down twice, or one that was never made, is not allowed. */
    method Teardown(state: nat)
      requires Valid() && state in owed
      modifies this`owed
      ensures Valid() && owed == old(owed) - {state}
    {
      owed := owed - {state};
    }
  }

  ghost predicate NeedsTeardown(slot: Option<Instance>)
  {
    slot.Some? && slot.value.stage.hasTeardown
  }

  /** owed is before plus one distinct new state for each instance that has a teardown. */
  ghost predicate OwesExactly(owed: set<nat>, before: set<nat>, stages: seq<Option<Instance>>)
  {
    && (forall i :: 0 <= i < |stages| && NeedsTeardown(stages[i]) ==>
          stages[i].value.state in owed && stages[i].value.state !in before)
    && (forall i, j :: 0 <= i < j < |stages| && NeedsTeardown(stages[i]) && NeedsTeardown(stages[j]) ==>
          stages[i].value.state != stages[j].value.state)
    && before <= owed
    && (forall s :: s in owed && s !in before ==>
          exists i :: 0 <= i < |stages| && NeedsTeardown(stages[i]) && stages[i].value.state == s)
  }

  /** The sweep over chain->stages: every state still owed on behalf of the chain is torn
      down, each once. */
  method TeardownAll(chain: Chain, count: nat, host: StageHost, ghost before: set<nat>)
    requires host.Valid() && count <= chain.stages.Length
    requires OwesExactly(host.owed, before, chain.stages[..count])
    modifies host`owed
    ensures host.Valid() && host.owed == before
  {
    ghost var stages := chain.stages[..count];
    for i := 0 to count
      invariant host.Valid()
      invariant before <= host.owed <= old(host.owed)
      invariant forall j :: i <= j < count && NeedsTeardown(stages[j]) ==> stages[j].value.state in host.owed
      invariant forall s :: s in host.owed && s !in before ==>
                  exists j :: i <= j < count && NeedsTeardown(stages[j]) && stages[j].value.state == s
    {
      assert chain.stages[i] == stages[i];
      if chain.stages[i].Some? && chain.stages[i].value.stage.hasTeardown {
        assert NeedsTeardown(stages[i]);
        host.Teardown(chain.stages[i].value.state);
      }
    }
  }

  // ---- What a loaded chain says about its graph ----

  /** Slot i holds the instance that node i of the graph calls for, wired as its edges say. */
  ghost predicate Realizes(slot: Option<Instance>, g: Graph, registry: seq<StageType>,
                           outcome: nat -> InitOutcome, limits: Limits, i: nat)
    requires i < |g.nodes|
  {
    && slot.Some?
    && StageOf(g, registry, i) == Some(slot.value.stage)
    && outcome(i).Made?
    && slot.value.nodeId == g.nodes[i].id
    && slot.value.passInvalid == g.nodes[i].passInvalid
    && slot.value.portCount == PortCount(slot.value.stage, outcome(i)) <= limits.maxPorts
    && |slot.value.children| == limits.maxPorts
    && (forall k :: 0 <= k < limits.maxPorts ==>
          if k < slot.value.portCount then LeadsTo(g.wires, i, Port(k), slot.value.children[k])
          else slot.value.children[k] == -1)
    && (slot.value.invalidChild == -1 || LeadsTo(g.wires, i, Invalid, slot.value.invalidChild))
    && (slot.value.invalidChild == -1 ==> !SlotWired(g.wires, i, Invalid))
  }

  ghost predicate LeadsTo(wires: seq<Wire>, i: nat, slot: Slot, target: int)
  {
    exists e :: 0 <= e < |wires| && wires[e].src == i && wires[e].slot == slot && wires[e].dst == target
  }

  ghost predicate ChainRealizes(stages: seq<Option<Instance>>, g: Graph, registry: seq<StageType>,
                                outcome: nat -> InitOutcome, limits: Limits)
  {
    |stages| == |g.nodes| && forall i :: 0 <= i < |stages| ==> Realizes(stages[i], g, registry, outcome, limits, i)
  }
}
