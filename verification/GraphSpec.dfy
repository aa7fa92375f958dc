/** Which graph files the loader must accept, stated without reference to how it walks them. */
module GraphSpec {
  import opened Options
  import opened JsonValues

  /** PIPELINE_MAX_STAGES and STAGE_MAX_OUT_PORTS. */
  datatype Limits = Limits(maxNodes: nat, maxPorts: nat)

  datatype PortType = RawRecord | Engineering | WireFrame

  datatype StageType = StageType(
    name: string,
    inTypes: set<PortType>,
    outType: PortType,
    countsPorts: bool,     // out_port_count != NULL
    hasTeardown: bool)     // teardown != NULL

  /** What a node's init(config) does, and what its out_port_count(state) would then say. */
  datatype InitOutcome = Refused | Made(ports: nat)

  datatype NodeSpec = NodeSpec(id: string, typeName: string, config: Option<Json>, passInvalid: bool)

  datatype Slot = Port(k: nat) | Invalid

  datatype Wire = Wire(src: nat, slot: Slot, dst: nat)

  datatype Graph = Graph(nodes: seq<NodeSpec>, wires: seq<Wire>)

  const RING_NAME_SIZE: nat := 32

  // ---- Reading the document ----

  function ReadNode(n: Option<Json>): Option<NodeSpec>
  {
    var id, typeName := AsString(Get(n, "id"), None), AsString(Get(n, "type"), None);
    var data := Get(n, "data");
    var onInvalid := AsString(Get(data, "on_invalid"), Some("drop")).value;
    if id.None? || typeName.None? || (onInvalid != "drop" && onInvalid != "pass") then None
    else Some(NodeSpec(id.value, typeName.value, Get(data, "config"), onInvalid == "pass"))
  }

  /** The first node with this id, from position i on. */
  function FindNode(nodes: seq<NodeSpec>, id: string, i: nat): Option<nat>
    requires i <= |nodes|
    ensures FindNode(nodes, id, i).Some? ==> i <= FindNode(nodes, id, i).value < |nodes|
    decreases |nodes| - i
  {
    if i == |nodes| then None
    else if nodes[i].id == id then Some(i)
    else FindNode(nodes, id, i + 1)
  }

  function ReadEdge(nodes: seq<NodeSpec>, edge: Option<Json>, maxPorts: nat): (r: Option<Wire>)
    ensures r.Some? ==> r.value.src < |nodes| && r.value.dst < |nodes|
    ensures r.Some? && r.value.slot.Port? ==> r.value.slot.k < maxPorts
  {
    var source, target := AsString(Get(edge, "source"), None), AsString(Get(edge, "target"), None);
    if source.None? || target.None? then None else
      var src, dst := FindNode(nodes, source.value, 0), FindNode(nodes, target.value, 0);
      if src.None? || dst.None? then None
      else if AsBool(Get(edge, "invalid_target"), false) then
        if Get(edge, "source_port").Some? then None else Some(Wire(src.value, Invalid, dst.value))
      else
        var port := AsNumber(Get(edge, "source_port"), 0.0);
        if port < 0.0 || port >= maxPorts as real then None
        else Some(Wire(src.value, Port(port.Floor), dst.value))
  }

  predicate HeaderOk(doc: Json)
  {
    var name := AsString(Get(Get(Some(doc), "input"), "ring_name"), None);
    name.Some? && |name.value| < RING_NAME_SIZE
  }

  /** The document spells out this graph: every node and every edge can be read. */
  ghost predicate Spells(doc: Json, limits: Limits, g: Graph)
  {
    var nodes, edges := Get(Some(doc), "nodes"), Get(Some(doc), "edges");
    && HeaderOk(doc)
    && 0 < |g.nodes| <= limits.maxNodes
    && |g.nodes| == ArraySize(nodes)
    && |g.wires| == ArraySize(edges)
    && (forall i :: 0 <= i < |g.nodes| ==> ReadNode(ArrayGet(nodes, i)) == Some(g.nodes[i]))
    && (forall e :: 0 <= e < |g.wires| ==>
          ReadEdge(g.nodes, ArrayGet(edges, e), limits.maxPorts) == Some(g.wires[e]))
  }

  // ---- The shape of the graph ----

  ghost predicate WellFormed(g: Graph, limits: Limits)
  {
    forall e :: 0 <= e < |g.wires| ==>
      && g.wires[e].src < |g.nodes|
      && g.wires[e].dst < |g.nodes|
      && (g.wires[e].slot.Port? ==> g.wires[e].slot.k < limits.maxPorts)
  }

  /** No output port, and no invalid route, is wired twice. */
  ghost predicate SlotsDistinct(wires: seq<Wire>)
  {
    forall e, f :: 0 <= e < f < |wires| ==> wires[e].src != wires[f].src || wires[e].slot != wires[f].slot
  }

  ghost predicate OneParent(wires: seq<Wire>)
  {
    forall e, f :: 0 <= e < f < |wires| ==> wires[e].dst != wires[f].dst
  }

  ghost predicate HasParent(wires: seq<Wire>, i: nat)
  {
    exists e :: 0 <= e < |wires| && wires[e].dst == i
  }

  ghost predicate Linked(wires: seq<Wire>, a: nat, b: nat)
  {
    exists e :: 0 <= e < |wires| && wires[e].src == a && wires[e].dst == b
  }

  ghost predicate IsPath(wires: seq<Wire>, p: seq<nat>)
  {
    && p != []
    && forall i, j {:trigger Linked(wires, p[i], p[j])} :: 0 <= i < j < |p| && j == i + 1 ==>
         Linked(wires, p[i], p[j])
  }

  ghost predicate Reachable(wires: seq<Wire>, root: nat, i: nat)
  {
    exists p: seq<nat> :: IsPath(wires, p) && p[0] == root && p[|p| - 1] == i
  }

  /** The parent relation is one tree, rooted at root, that spans all nodes. */
  ghost predicate RootedTree(g: Graph, root: nat)
  {
    && root < |g.nodes|
    && !HasParent(g.wires, root)
    && OneParent(g.wires)
    && forall i :: 0 <= i < |g.nodes| ==> Reachable(g.wires, root, i)
  }

  // ---- The stages behind the nodes ----

  /** The first registered stage type with this name, from position i on. */
  function FindStage(registry: seq<StageType>, name: string, i: nat): Option<StageType>
    requires i <= |registry|
    decreases |registry| - i
  {
    if i == |registry| then None
    else if registry[i].name == name then Some(registry[i])
    else FindStage(registry, name, i + 1)
  }

  function StageOf(g: Graph, registry: seq<StageType>, i: nat): Option<StageType>
    requires i < |g.nodes|
  {
    FindStage(registry, g.nodes[i].typeName, 0)
  }

  function PortCount(stage: StageType, made: InitOutcome): nat
    requires made.Made?
  {
    if stage.countsPorts then made.ports else 1
  }

  ghost predicate SlotWired(wires: seq<Wire>, i: nat, slot: Slot)
  {
    exists e :: 0 <= e < |wires| && wires[e].src == i && wires[e].slot == slot
  }

  /** Exactly the declared ports of node i are wired. */
  ghost predicate PortsFit(wires: seq<Wire>, i: nat, count: nat, maxPorts: nat)
  {
    count <= maxPorts && forall k: nat :: k < maxPorts ==> (SlotWired(wires, i, Port(k)) <==> k < count)
  }

  /** Node i's stage exists, initialises, and has its ports wired. */
  ghost predicate NodeFits(g: Graph, registry: seq<StageType>, outcome: nat -> InitOutcome, limits: Limits, i: nat)
    requires i < |g.nodes|
  {
    var stage := StageOf(g, registry, i);
    && stage.Some?
    && outcome(i).Made?
    && PortsFit(g.wires, i, PortCount(stage.value, outcome(i)), limits.maxPorts)
  }

  /** Each stage accepts what its parent produces; the root's stage accepts raw records. */
  ghost predicate TypesFit(g: Graph, registry: seq<StageType>, root: nat)
    requires root < |g.nodes|
    requires forall e :: 0 <= e < |g.wires| ==> g.wires[e].src < |g.nodes| && g.wires[e].dst < |g.nodes|
  {
    && (forall i :: 0 <= i < |g.nodes| ==> StageOf(g, registry, i).Some?)
    && RawRecord in StageOf(g, registry, root).value.inTypes
    && forall e :: 0 <= e < |g.wires| ==>
         StageOf(g, registry, g.wires[e].src).value.outType
           in StageOf(g, registry, g.wires[e].dst).value.inTypes
  }

  ghost predicate Sound(g: Graph, root: nat, registry: seq<StageType>, outcome: nat -> InitOutcome, limits: Limits)
  {
    && WellFormed(g, limits)
    && SlotsDistinct(g.wires)
    && RootedTree(g, root)
    && TypesFit(g, registry, root)
    && forall i :: 0 <= i < |g.nodes| ==> NodeFits(g, registry, outcome, limits, i)
  }

  /** The graph files that must load. */
  ghost predicate Acceptable(doc: Json, registry: seq<StageType>, outcome: nat -> InitOutcome, limits: Limits)
  {
    exists g, root :: Spells(doc, limits, g) && Sound(g, root, registry, outcome, limits)
  }

  // ---- Consequences ----

  lemma SpellsUnique(doc: Json, limits: Limits, g: Graph, h: Graph)
    requires Spells(doc, limits, g) && Spells(doc, limits, h)
    ensures g == h
  {
    forall i | 0 <= i < |g.nodes|
      ensures g.nodes[i] == h.nodes[i]
    {
      assert Some(g.nodes[i]) == Some(h.nodes[i]);
    }
    assert g.nodes == h.nodes;
    forall e | 0 <= e < |g.wires|
      ensures g.wires[e] == h.wires[e]
    {
      assert Some(g.wires[e]) == Some(h.wires[e]);
    }
  }

  /** A node other than the root can only be reached through a wire into it. */
  lemma ReachedHasParent(wires: seq<Wire>, root: nat, i: nat)
    requires Reachable(wires, root, i) && i != root
    ensures HasParent(wires, i)
  {
    var p: seq<nat> :| IsPath(wires, p) && p[0] == root && p[|p| - 1] == i;
    assert Linked(wires, p[|p| - 2], p[|p| - 1]);
  }

  lemma ReachStep(wires: seq<Wire>, root: nat, e: nat)
    requires e < |wires| && Reachable(wires, root, wires[e].src)
    ensures Reachable(wires, root, wires[e].dst)
  {
    var p: seq<nat> :| IsPath(wires, p) && p[0] == root && p[|p| - 1] == wires[e].src;
    var q := p + [wires[e].dst];
    assert Linked(wires, q[|q| - 2], q[|q| - 1]);
    assert IsPath(wires, q);
  }

  /** A set that contains the root and is closed under wires contains all that is reachable. */
  lemma ClosedHasReachable(wires: seq<Wire>, root: nat, i: nat, s: set<nat>)
    requires root in s && Reachable(wires, root, i)
    requires forall e :: 0 <= e < |wires| && wires[e].src in s ==> wires[e].dst in s
    ensures i in s
  {
    var p: seq<nat> :| IsPath(wires, p) && p[0] == root && p[|p| - 1] == i;
    for j := 0 to |p| - 1
      invariant p[j] in s
    {
      assert Linked(wires, p[j], p[j + 1]);
    }
  }

  lemma {:induction false} FindNodeFirst(nodes: seq<NodeSpec>, id: string, i: nat)
    requires i <= |nodes|
    ensures var r := FindNode(nodes, id, i);
      && (r.None? ==> forall j :: i <= j < |nodes| ==> nodes[j].id != id)
      && (r.Some? ==> nodes[r.value].id == id && forall j :: i <= j < r.value ==> nodes[j].id != id)
    decreases |nodes| - i
  {
    if i < |nodes| && nodes[i].id != id {
      FindNodeFirst(nodes, id, i + 1);
    }
  }

  /** Accepted node ids are pairwise distinct, although no check says so: a second node with
      the same id could never be reached, since edges find only the first. */
  lemma AcceptedIdsDistinct(doc: Json, limits: Limits, g: Graph, root: nat, i: nat, j: nat)
    requires Spells(doc, limits, g) && RootedTree(g, root)
    requires i < j < |g.nodes|
    ensures g.nodes[i].id != g.nodes[j].id
  {
    if g.nodes[i].id == g.nodes[j].id {
      forall e | 0 <= e < |g.wires|
        ensures g.wires[e].src != j && g.wires[e].dst != j
      {
        EdgeEndsFirst(g.nodes, ArrayGet(Get(Some(doc), "edges"), e), limits.maxPorts, i, j);
      }
      if j != root {
        ReachedHasParent(g.wires, root, j);
      } else {
        ClosedHasReachable(g.wires, root, i, {j});
      }
    }
  }

  lemma EdgeEndsFirst(nodes: seq<NodeSpec>, edge: Option<Json>, maxPorts: nat, i: nat, j: nat)
    requires ReadEdge(nodes, edge, maxPorts).Some? && i < j < |nodes| && nodes[i].id == nodes[j].id
    ensures ReadEdge(nodes, edge, maxPorts).value.src != j
    ensures ReadEdge(nodes, edge, maxPorts).value.dst != j
  {
    FindNodeFirst(nodes, AsString(Get(edge, "source"), None).value, 0);
    FindNodeFirst(nodes, AsString(Get(edge, "target"), None).value, 0);
  }
}
