/** pipeline_run(): the engine's loop over array indices with two ping-pong buffers, and what
    the loader's checks buy it. */
module PipelineRun {
  import opened Machine
  import opened Options
  import opened GraphSpec
  import opened Sequences
  import opened PipelineChain
  import opened PipelineSpec

  // ---- What the loader's checks buy ----

  function Nodes(visits: seq<Visit>): (r: seq<nat>)
    ensures |r| == |visits|
  {
    seq(|visits|, i requires 0 <= i < |visits| => visits[i].node)
  }

  /** Whatever the stages return, the nodes visited form a path down the graph. */
  lemma {:induction false} VisitsFormPath(wires: seq<Wire>, t: Tree, b: Behaviour, call: nat, input: Record)
    requires OnWires(wires, t)
    ensures var ns := Nodes(Eval(t, b, call, input).visits); IsPath(wires, ns) && ns[0] == t.idx
    decreases t
  {
    var reply := b(call, t.idx, input);
    if RouteOf(t, reply).Down? {
      var below := RouteOf(t, reply).below;
      VisitsFormPath(wires, below, b, call + 1, reply.out);
      var rest := Eval(below, b, call + 1, reply.out).visits;
      PrependNode(wires, t.idx, Nodes(rest));
      assert Nodes([Visit(t.idx, input)] + rest) == [t.idx] + Nodes(rest);
    }
  }

  lemma PrependNode(wires: seq<Wire>, i: nat, p: seq<nat>)
    requires IsPath(wires, p) && Linked(wires, i, p[0])
    ensures IsPath(wires, [i] + p)
  {
    var q := [i] + p;
    forall a, b | 0 <= a < b < |q| && b == a + 1
      ensures Linked(wires, q[a], q[b])
    {
      if a > 0 {
        assert Linked(wires, p[a - 1], p[b - 1]);
      }
    }
  }

  /** A run on a loaded chain calls process() at most once per node, whatever the stages do. */
  lemma RunVisitsOnce(g: Graph, root: nat, registry: seq<StageType>, outcome: nat -> InitOutcome,
                      limits: Limits, stages: seq<Option<Instance>>, t: Tree, b: Behaviour, input: Record)
    requires LoadedChain(g, root, registry, outcome, limits, stages) && Unfolds(stages, t) && t.idx == root
    ensures var visits := Eval(t, b, 0, input).visits;
      Distinct(Nodes(visits)) && |visits| <= |g.nodes|
  {
    UnfoldedOnWires(g, registry, outcome, limits, stages, t);
    VisitsFormPath(g.wires, t, b, 0, input);
    PathsDistinct(g, root, Nodes(Eval(t, b, 0, input).visits));
    PathsShort(g, root, Nodes(Eval(t, b, 0, input).visits));
  }

  /** Whether anything reads the record that a stage leaves in *out: the next node's stage does,
      unless the node is a leaf that has not sent a flagged record on. */
  predicate OutIsRead(inst: Instance, reply: Reply)
  {
    inst.portCount > 0 || (inst.invalidChild != -1 && IntegrityFailed(reply.out.flags))
  }

  /** Each stage keeps its contract: given a record of a type that it accepts, it produces the
      type that it declares, wherever its output is read. */
  ghost predicate Honest(g: Graph, registry: seq<StageType>, stages: seq<Option<Instance>>, b: Behaviour)
  {
    forall call: nat, i: nat, input: Record ::
      KeepsType(g, registry, stages, i, input, b(call, i, input))
  }

  ghost predicate KeepsType(g: Graph, registry: seq<StageType>, stages: seq<Option<Instance>>, i: nat,
                            input: Record, reply: Reply)
  {
    i < |g.nodes| && i < |stages| && stages[i].Some? && StageOf(g, registry, i).Some? && reply.ok ==>
      var stage := StageOf(g, registry, i).value;
      input.portType in stage.inTypes && OutIsRead(stages[i].value, reply) ==> reply.out.portType == stage.outType
  }

  ghost predicate TypeAccepted(g: Graph, registry: seq<StageType>, v: Visit)
  {
    && v.node < |g.nodes| && StageOf(g, registry, v.node).Some?
    && v.input.portType in StageOf(g, registry, v.node).value.inTypes
  }

  ghost predicate WiresTyped(g: Graph, registry: seq<StageType>)
  {
    forall i: nat, j: nat :: Linked(g.wires, i, j) ==>
      && i < |g.nodes| && j < |g.nodes|
      && StageOf(g, registry, i).Some? && StageOf(g, registry, j).Some?
      && StageOf(g, registry, i).value.outType in StageOf(g, registry, j).value.inTypes
  }

  lemma {:induction false} TypesHold(g: Graph, registry: seq<StageType>, stages: seq<Option<Instance>>, t: Tree,
                                     b: Behaviour, call: nat, input: Record)
    requires WiresTyped(g, registry) && OnWires(g.wires, t) && Unfolds(stages, t) && Honest(g, registry, stages, b)
    requires TypeAccepted(g, registry, Visit(t.idx, input))
    ensures forall v :: v in Eval(t, b, call, input).visits ==> TypeAccepted(g, registry, v)
    decreases t
  {
    var reply := b(call, t.idx, input);
    if RouteOf(t, reply).Down? {
      var below := RouteOf(t, reply).below;
      assert Linked(g.wires, t.idx, below.idx);
      assert KeepsType(g, registry, stages, t.idx, input, reply);
      TypesHold(g, registry, stages, below, b, call + 1, reply.out);
    }
  }

  /** With honest stages, every process() call of a run on a loaded chain gets a record of a type
      that its stage declares, along normal and invalid edges alike. */
  lemma RunTypesHold(g: Graph, root: nat, registry: seq<StageType>, outcome: nat -> InitOutcome,
                     limits: Limits, stages: seq<Option<Instance>>, t: Tree, b: Behaviour, input: Record)
    requires LoadedChain(g, root, registry, outcome, limits, stages) && Unfolds(stages, t) && t.idx == root
    requires Honest(g, registry, stages, b) && input.portType == RawRecord
    ensures forall v :: v in Eval(t, b, 0, input).visits ==> TypeAccepted(g, registry, v)
  {
    UnfoldedOnWires(g, registry, outcome, limits, stages, t);
    TypesHold(g, registry, stages, t, b, 0, input);
  }

  /** A record is dropped for an out-of-range port only at a node with ports whose stage answered
      none of them. */
  lemma {:induction false} OutOfRangeIsTheStages(stages: seq<Option<Instance>>, t: Tree, b: Behaviour,
                                                 call: nat, input: Record, i: nat)
    requires Unfolds(stages, t) && Eval(t, b, call, input).verdict == Dropped(PortOutOfRange, i)
    ensures i < |stages| && stages[i].Some?
    ensures exists c: nat, r: Record :: b(c, i, r).ok && 0 < stages[i].value.portCount <= b(c, i, r).outPort
    decreases t
  {
    var reply := b(call, t.idx, input);
    if RouteOf(t, reply).Down? {
      OutOfRangeIsTheStages(stages, RouteOf(t, reply).below, b, call + 1, reply.out, i);
    } else {
      assert b(call, i, input).ok;
    }
  }

  // ---- The loop ----

  class PipelineCounters {
    var recordsIn: nat
    var dropped: nat
    var forwarded: nat

    constructor ()
      ensures recordsIn == dropped == forwarded == 0
    {
      recordsIn, dropped, forwarded := 0, 0, 0;
    }
  }

  class PipelineWorker {
    const scratch0: array<Byte>
    const scratch1: array<Byte>

    constructor ()
      ensures Valid() && fresh(scratch0) && fresh(scratch1)
    {
      scratch0 := new Byte[STAGE_SCRATCH_BYTES](i => 0);
      scratch1 := new Byte[STAGE_SCRATCH_BYTES](i => 0);
    }

    ghost predicate Valid()
    {
      scratch0 != scratch1 && scratch0.Length == scratch1.Length == STAGE_SCRATCH_BYTES
    }

    function Scratch(depth: nat): array<Byte>
    {
      if depth % 2 == 0 then scratch0 else scratch1
    }
  }

  /** struct stage_record: the bytes live in a scratch buffer. */
  datatype StageRecord = StageRecord(portType: PortType, data: array<Byte>, len: nat, tsc: nat, flags: bv32)

  ghost predicate Holds(r: StageRecord, value: Record)
    reads r.data
  {
    && r.len <= r.data.Length
    && value == Record(r.portType, r.data[..r.len], r.tsc, r.flags)
  }

  method CopyBytes(src: seq<Byte>, dst: array<Byte>)
    requires |src| <= dst.Length
    modifies dst
    ensures dst[..|src|] == src
  {
    for i := 0 to |src|
      invariant forall j :: 0 <= j < i ==> dst[j] == src[j]
    {
      dst[i] := src[i];
    }
  }

  /** One process() call: it reads the record in cur, writes only the buffer it is given for its
      output, and leaves the answer that b prescribes. */
  method Process(b: Behaviour, call: nat, node: nat, cur: StageRecord, outData: array<Byte>, ghost input: Record)
    returns (ok: bool, outPort: nat, next: StageRecord)
    requires Holds(cur, input) && outData != cur.data && outData.Length == STAGE_SCRATCH_BYTES
    modifies outData
    ensures ok == b(call, node, input).ok && outPort == b(call, node, input).outPort
    ensures next.data == outData && Holds(next, b(call, node, input).out)
    ensures Holds(cur, input)
  {
    var reply := b(call, node, Record(cur.portType, cur.data[..cur.len], cur.tsc, cur.flags));
    CopyBytes(reply.out.bytes, outData);
    ok, outPort := reply.ok, reply.outPort;
    next := StageRecord(reply.out.portType, outData, |reply.out.bytes|, reply.out.tsc, reply.out.flags);
  }

  /** A run that has made these visits and stands before t ends as the whole run does. */
  ghost predicate Continues(whole: Outcome, visits: seq<Visit>, stages: seq<Option<Instance>>, t: Tree,
                            b: Behaviour, input: Record)
  {
    && Unfolds(stages, t)
    && whole == Outcome(Eval(t, b, |visits|, input).verdict, visits + Eval(t, b, |visits|, input).visits)
  }

  /** One turn of the loop, with the next node read off the slot instead of the tree. */
  lemma Turn(whole: Outcome, visits: seq<Visit>, stages: seq<Option<Instance>>, t: Tree, b: Behaviour, input: Record)
    requires Continues(whole, visits, stages, t, b, input)
    ensures var reply, inst := b(|visits|, t.idx, input), stages[t.idx].value;
      var visits' := visits + [Visit(t.idx, input)];
      match RouteOf(t, reply)
      case Stop(verdict) => whole == Outcome(verdict, visits')
      case Down(below) =>
        && Continues(whole, visits', stages, below, b, reply.out)
        && below.idx == if IntegrityFailed(reply.out.flags) && inst.invalidChild != -1 then inst.invalidChild
                        else inst.children[reply.outPort]
  {
    var reply := b(|visits|, t.idx, input);
    if RouteOf(t, reply).Down? {
      var rest := Eval(RouteOf(t, reply).below, b, |visits| + 1, reply.out).visits;
      assert visits + ([Visit(t.idx, input)] + rest) == (visits + [Visit(t.idx, input)]) + rest;
    }
  }

  /** What the slot of a tree node holds. */
  lemma SlotOf(stages: seq<Option<Instance>>, t: Tree)
    requires Unfolds(stages, t)
    ensures t.idx < |stages| && stages[t.idx].Some?
    ensures var inst := stages[t.idx].value;
      && inst.passInvalid == t.passInvalid && inst.portCount == |t.kids| <= |inst.children|
      && (inst.invalidChild == -1 <==> t.invalid.None?)
  {
  }

  /** Runs one raw record through the chain: it agrees with the evaluator on the verdict and on
      every process() call, and counts the record once in and once out. */
  method PipelineRun(chain: Chain, worker: PipelineWorker, counters: PipelineCounters, b: Behaviour,
                     rawData: seq<Byte>, tsc: nat, ghost t: Tree)
    returns (ok: bool, ghost visits: seq<Visit>)
    requires worker.Valid() && |rawData| <= STAGE_SCRATCH_BYTES
    requires chain.stageCount <= chain.stages.Length
    requires Unfolds(chain.stages[..chain.stageCount], t) && t.idx == chain.rootIdx
    modifies counters, worker.scratch0, worker.scratch1
    ensures var outcome := Eval(t, b, 0, Record(RawRecord, rawData, tsc, 0));
      (ok <==> outcome.verdict.Forwarded?) && visits == outcome.visits
    ensures counters.recordsIn == Inc(old(counters.recordsIn))
    ensures counters.forwarded == if ok then Inc(old(counters.forwarded)) else old(counters.forwarded)
    ensures counters.dropped == if ok then old(counters.dropped) else Inc(old(counters.dropped))
  {
    hide Eval, Unfolds;
    counters.recordsIn := Inc(counters.recordsIn);
    CopyBytes(rawData, worker.scratch0);
    var cur := StageRecord(RawRecord, worker.scratch0, |rawData|, tsc, 0);
    var stages := chain.stages[..chain.stageCount];
    var idx, depth := chain.rootIdx, 0;

    ghost var input := Record(RawRecord, rawData, tsc, 0);
    ghost var whole := Eval(t, b, 0, input);
    ghost var below := t;
    visits := [];
    assert whole.visits == [] + whole.visits;
    while true
      invariant cur.data == worker.Scratch(depth) && Holds(cur, input)
      invariant |visits| == depth && below.idx == idx
      invariant Continues(whole, visits, stages, below, b, input)
      invariant counters.recordsIn == Inc(old(counters.recordsIn))
      invariant counters.forwarded == old(counters.forwarded) && counters.dropped == old(counters.dropped)
      decreases below
    {
      SlotOf(stages, below);
      var inst := stages[idx].value;
      ghost var reply := b(depth, idx, input);
      Turn(whole, visits, stages, below, b, input);
      var res, outPort, next := Process(b, depth, idx, cur, worker.Scratch(depth + 1), input);
      visits := visits + [Visit(idx, input)];
      if !res {
        counters.dropped := Inc(counters.dropped);
        return false, visits;
      }
      if IntegrityFailed(next.flags) {
        if inst.invalidChild != -1 {
          input, below := reply.out, RouteOf(below, reply).below;
          idx, cur, depth := inst.invalidChild, next, depth + 1;
          continue;
        }
        if !inst.passInvalid {
          counters.dropped := Inc(counters.dropped);
          return false, visits;
        }
      }
      if inst.portCount == 0 {
        break;
      }
      if outPort >= inst.portCount {
        counters.dropped := Inc(counters.dropped);
        return false, visits;
      }
      input, below := reply.out, RouteOf(below, reply).below;
      idx, cur, depth := inst.children[outPort], next, depth + 1;
    }
    counters.forwarded := Inc(counters.forwarded);
    return true, visits;
  }
}
