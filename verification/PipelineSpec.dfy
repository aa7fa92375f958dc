/** What running one record through the routed tree means: a recursive evaluator over an
    inductive tree and immutable records. */
module PipelineSpec {
  import opened Machine
  import opened Options
  import opened GraphSpec
  import opened GraphTables
  import opened Sequences
  import opened PipelineChain

  const STAGE_SCRATCH_BYTES: nat := 9216

  datatype Record = Record(portType: PortType, bytes: seq<Byte>, tsc: nat, flags: bv32)

  predicate IntegrityFailed(flags: bv32) { flags & 1 != 0 }

  /** What one process() call returns and leaves in *out, which fits its scratch buffer. */
  datatype Reply' = Reply(ok: bool, outPort: nat, out: Record)
  type Reply = r: Reply' | |r.out.bytes| <= STAGE_SCRATCH_BYTES
    witness Reply(false, 0, Record(RawRecord, [], 0, 0))

  /** What the stage at a node does with a record on the call-th process() call of a run; the
      call number lets a stage's answers depend on whatever state it keeps. */
  type Behaviour = (nat, nat, Record) -> Reply

  /** The part of a graph below a node. */
  datatype Tree = Tree(idx: nat, kids: seq<Tree>, invalid: Option<Tree>, passInvalid: bool)

  datatype Why = StageDropped | FlaggedInvalid | PortOutOfRange

  datatype Verdict = Forwarded | Dropped(why: Why, node: nat)

  datatype Visit = Visit(node: nat, input: Record)

  datatype Outcome = Outcome(verdict: Verdict, visits: seq<Visit>)

  function Before(v: Visit, rest: Outcome): Outcome
  {
    rest.(visits := [v] + rest.visits)
  }

  datatype Route = Stop(verdict: Verdict) | Down(below: Tree)

  /** A flagged record goes to the invalid child if there is one, else is dropped unless the
      node passes it on; only then do the leaf test and the port returned by the stage count. */
  function RouteOf(t: Tree, reply: Reply): (r: Route)
    ensures r.Down? ==> r.below < t
  {
    if !reply.ok then Stop(Dropped(StageDropped, t.idx))
    else if IntegrityFailed(reply.out.flags) && t.invalid.Some? then Down(t.invalid.value)
    else if IntegrityFailed(reply.out.flags) && !t.passInvalid then Stop(Dropped(FlaggedInvalid, t.idx))
    else if t.kids == [] then Stop(Forwarded)
    else if |t.kids| <= reply.outPort then Stop(Dropped(PortOutOfRange, t.idx))
    else Down(t.kids[reply.outPort])
  }

  function Eval(t: Tree, b: Behaviour, call: nat, input: Record): Outcome
    decreases t
  {
    var reply := b(call, t.idx, input);
    match RouteOf(t, reply)
    case Stop(verdict) => Outcome(verdict, [Visit(t.idx, input)])
    case Down(below) => Before(Visit(t.idx, input), Eval(below, b, call + 1, reply.out))
  }

  /** The chain's slots, followed from t.idx, unfold into exactly this tree. */
  ghost predicate Unfolds(stages: seq<Option<Instance>>, t: Tree)
  {
    && t.idx < |stages| && stages[t.idx].Some?
    && var inst := stages[t.idx].value;
       && inst.passInvalid == t.passInvalid
       && inst.portCount == |t.kids| <= |inst.children|
       && (forall k :: 0 <= k < |t.kids| ==> inst.children[k] == t.kids[k].idx && Unfolds(stages, t.kids[k]))
       && (inst.invalidChild == -1 <==> t.invalid.None?)
       && (t.invalid.Some? ==> inst.invalidChild == t.invalid.value.idx && Unfolds(stages, t.invalid.value))
  }

  // ---- Every loaded chain unfolds into a tree ----

  /** In a rooted tree no path from the root repeats a node, so none is longer than the graph. */
  lemma PathsDistinct(g: Graph, root: nat, p: seq<nat>)
    requires OneParent(g.wires) && !HasParent(g.wires, root)
    requires IsPath(g.wires, p) && p[0] == root
    ensures Distinct(p)
  {
    forall i, j | 0 <= i < j < |p|
      ensures p[i] != p[j]
    {
      NoRepeat(g, root, p, i, j);
    }
  }

  lemma {:induction false} NoRepeat(g: Graph, root: nat, p: seq<nat>, i: nat, j: nat)
    requires OneParent(g.wires) && !HasParent(g.wires, root)
    requires IsPath(g.wires, p) && p[0] == root && i < j < |p|
    ensures p[i] != p[j]
  {
    assert Linked(g.wires, p[j - 1], p[j]);
    if i > 0 {
      assert Linked(g.wires, p[i - 1], p[i]);
      NoRepeat(g, root, p, i - 1, j - 1);
    }
  }

  lemma PathsShort(g: Graph, root: nat, p: seq<nat>)
    requires RootedTree(g, root) && IsPath(g.wires, p) && p[0] == root
    requires forall e :: 0 <= e < |g.wires| ==> g.wires[e].dst < |g.nodes|
    ensures |p| <= |g.nodes|
  {
    forall j | 0 <= j < |p|
      ensures p[j] < |g.nodes|
    {
      if j > 0 {
        assert Linked(g.wires, p[j - 1], p[j]);
      }
    }
    PathsDistinct(g, root, p);
    Pigeonhole(p, |g.nodes|);
  }

  lemma ExtendPath(wires: seq<Wire>, p: seq<nat>, e: nat)
    requires IsPath(wires, p) && e < |wires| && wires[e].src == p[|p| - 1]
    ensures IsPath(wires, p + [wires[e].dst])
  {
    var q := p + [wires[e].dst];
    forall i, j | 0 <= i < j < |q| && j == i + 1
      ensures Linked(wires, q[i], q[j])
    {
      if j == |p| {
        assert wires[e].src == q[i] && wires[e].dst == q[j];
      } else {
        assert Linked(wires, p[i], p[j]);
      }
    }
  }

  ghost predicate LoadedChain(g: Graph, root: nat, registry: seq<StageType>, outcome: nat -> InitOutcome,
                              limits: Limits, stages: seq<Option<Instance>>)
  {
    Sound(g, root, registry, outcome, limits) && ChainRealizes(stages, g, registry, outcome, limits)
  }

  /** The far end of a child slot of a loaded node is the far end of one of its wires. */
  lemma ChildWire(g: Graph, registry: seq<StageType>, outcome: nat -> InitOutcome, limits: Limits,
                  stages: seq<Option<Instance>>, i: nat, slot: Slot, target: int)
    returns (e: nat)
    requires ChainRealizes(stages, g, registry, outcome, limits) && i < |stages|
    requires match slot
      case Invalid => target == stages[i].value.invalidChild != -1
      case Port(k) => k < stages[i].value.portCount && target == stages[i].value.children[k]
    ensures e < |g.wires| && g.wires[e].src == i && g.wires[e].dst == target
  {
    assert Realizes(stages[i], g, registry, outcome, limits, i);
    assert LeadsTo(g.wires, i, slot, target);
    e :| 0 <= e < |g.wires| && g.wires[e].src == i && g.wires[e].slot == slot && g.wires[e].dst == target;
  }

  /** The tree below the end of a path from the root. */
  lemma {:induction false} Unfold(g: Graph, root: nat, registry: seq<StageType>, outcome: nat -> InitOutcome,
                                  limits: Limits, stages: seq<Option<Instance>>, p: seq<nat>)
    returns (t: Tree)
    requires LoadedChain(g, root, registry, outcome, limits, stages)
    requires IsPath(g.wires, p) && p[0] == root && p[|p| - 1] < |g.nodes|
    ensures Unfolds(stages, t) && t.idx == p[|p| - 1]
    decreases |g.nodes| - |p|, limits.maxPorts + 1, 0
  {
    PathsShort(g, root, p);
    var i := p[|p| - 1];
    assert Realizes(stages[i], g, registry, outcome, limits, i);
    var inst := stages[i].value;
    var kids := UnfoldPorts(g, root, registry, outcome, limits, stages, p, inst.portCount);
    var invalid := None;
    if inst.invalidChild != -1 {
      var below := UnfoldChild(g, root, registry, outcome, limits, stages, p, Invalid, inst.invalidChild);
      invalid := Some(below);
    }
    t := Tree(i, kids, invalid, inst.passInvalid);
  }

  lemma {:induction false} UnfoldChild(g: Graph, root: nat, registry: seq<StageType>, outcome: nat -> InitOutcome,
                                       limits: Limits, stages: seq<Option<Instance>>, p: seq<nat>,
                                       slot: Slot, target: int)
    returns (t: Tree)
    requires LoadedChain(g, root, registry, outcome, limits, stages)
    requires IsPath(g.wires, p) && p[0] == root && p[|p| - 1] < |g.nodes| && |p| <= |g.nodes|
    requires var inst := stages[p[|p| - 1]].value;
      match slot
      case Invalid => target == inst.invalidChild != -1
      case Port(k) => k < inst.portCount && target == inst.children[k]
    ensures Unfolds(stages, t) && t.idx == target
    decreases |g.nodes| - |p|, 0, 0
  {
    var e := ChildWire(g, registry, outcome, limits, stages, p[|p| - 1], slot, target);
    ExtendPath(g.wires, p, e);
    PathsShort(g, root, p + [g.wires[e].dst]);
    t := Unfold(g, root, registry, outcome, limits, stages, p + [g.wires[e].dst]);
  }

  lemma {:induction false} UnfoldPorts(g: Graph, root: nat, registry: seq<StageType>, outcome: nat -> InitOutcome,
                                       limits: Limits, stages: seq<Option<Instance>>, p: seq<nat>, n: nat)
    returns (kids: seq<Tree>)
    requires LoadedChain(g, root, registry, outcome, limits, stages)
    requires IsPath(g.wires, p) && p[0] == root && p[|p| - 1] < |g.nodes| && |p| <= |g.nodes|
    requires n <= stages[p[|p| - 1]].value.portCount
    ensures |kids| == n
    ensures forall k :: 0 <= k < n ==>
              stages[p[|p| - 1]].value.children[k] == kids[k].idx && Unfolds(stages, kids[k])
    decreases |g.nodes| - |p|, n, 1
  {
    kids := [];
    if n > 0 {
      kids := UnfoldPorts(g, root, registry, outcome, limits, stages, p, n - 1);
      var target := stages[p[|p| - 1]].value.children[n - 1];
      var below := UnfoldChild(g, root, registry, outcome, limits, stages, p, Port(n - 1), target);
      kids := kids + [below];
    }
  }

  /** Whatever the loader accepts unfolds into a finite tree: the engine's loop terminates. */
  lemma LoadedChainUnfolds(g: Graph, root: nat, registry: seq<StageType>, outcome: nat -> InitOutcome,
                           limits: Limits, stages: seq<Option<Instance>>)
    returns (t: Tree)
    requires LoadedChain(g, root, registry, outcome, limits, stages)
    ensures Unfolds(stages, t) && t.idx == root
  {
    assert IsPath(g.wires, [root]);
    t := Unfold(g, root, registry, outcome, limits, stages, [root]);
  }

  /** Every step down the tree follows a wire of the graph. */
  ghost predicate OnWires(wires: seq<Wire>, t: Tree)
  {
    && (forall k :: 0 <= k < |t.kids| ==> Linked(wires, t.idx, t.kids[k].idx) && OnWires(wires, t.kids[k]))
    && (t.invalid.Some? ==> Linked(wires, t.idx, t.invalid.value.idx) && OnWires(wires, t.invalid.value))
  }

  lemma {:induction false} UnfoldedOnWires(g: Graph, registry: seq<StageType>, outcome: nat -> InitOutcome,
                                           limits: Limits, stages: seq<Option<Instance>>, t: Tree)
    requires ChainRealizes(stages, g, registry, outcome, limits) && Unfolds(stages, t)
    ensures OnWires(g.wires, t)
    decreases t
  {
    forall k | 0 <= k < |t.kids|
      ensures Linked(g.wires, t.idx, t.kids[k].idx) && OnWires(g.wires, t.kids[k])
    {
      var e := ChildWire(g, registry, outcome, limits, stages, t.idx, Port(k), t.kids[k].idx);
      UnfoldedOnWires(g, registry, outcome, limits, stages, t.kids[k]);
    }
    if t.invalid.Some? {
      var e := ChildWire(g, registry, outcome, limits, stages, t.idx, Invalid, t.invalid.value.idx);
      UnfoldedOnWires(g, registry, outcome, limits, stages, t.invalid.value);
    }
  }
}
