/** What the loader's specification comes to, in terms of documents, names and edges: every graph
    can be written down, which graphs then load, and what no document may hold. */
module GraphLaws {
  import opened Options
  import opened JsonValues
  import opened GraphSpec
  import opened PipelineChain
  import opened PipelineSpec

  // ---- The stage of a node is the one its type names ----

  /** The first registry entry with this name. */
  ghost predicate Names(registry: seq<StageType>, name: string, j: nat)
  {
    j < |registry| && registry[j].name == name && forall k :: 0 <= k < j ==> registry[k].name != name
  }

  lemma {:induction false} FindStageNames(registry: seq<StageType>, name: string, i: nat)
    requires i <= |registry| && forall k :: 0 <= k < i ==> registry[k].name != name
    ensures var r := FindStage(registry, name, i);
      && (r.None? <==> forall k :: 0 <= k < |registry| ==> registry[k].name != name)
      && (r.Some? ==> exists j: nat :: Names(registry, name, j) && r.value == registry[j])
    decreases |registry| - i
  {
    if i < |registry| {
      if registry[i].name == name {
        assert Names(registry, name, i);
      } else {
        FindStageNames(registry, name, i + 1);
      }
    }
  }

  lemma NamesOne(registry: seq<StageType>, name: string, j: nat, k: nat)
    requires Names(registry, name, j) && Names(registry, name, k)
    ensures j == k
  {
  }

  /** Each slot of a loaded chain holds the first registered stage that has the name of its node's
      type. */
  lemma SlotHoldsNamedStage(g: Graph, root: nat, registry: seq<StageType>, outcome: nat -> InitOutcome,
                            limits: Limits, stages: seq<Option<Instance>>, i: nat)
    requires LoadedChain(g, root, registry, outcome, limits, stages) && i < |g.nodes|
    ensures i < |stages| && stages[i].Some?
    ensures exists j: nat :: Names(registry, g.nodes[i].typeName, j) && stages[i].value.stage == registry[j]
  {
    hide Sound;
    assert Realizes(stages[i], g, registry, outcome, limits, i);
    FindStageNames(registry, g.nodes[i].typeName, 0);
  }

  // ---- What no document may hold ----

  ghost predicate NodeDefect(n: Option<Json>, registry: seq<StageType>)
  {
    var name, onInvalid := AsString(Get(n, "type"), None), AsString(Get(Get(n, "data"), "on_invalid"), None);
    || AsString(Get(n, "id"), None).None?
    || name.None?
    || (forall k :: 0 <= k < |registry| ==> registry[k].name != name.value)
    || (onInvalid.Some? && onInvalid.value != "drop" && onInvalid.value != "pass")
  }

  /** No node of the document has this id. */
  ghost predicate UnknownId(doc: Json, id: Option<string>)
  {
    id.None? || forall n :: AsString(Get(ArrayGet(Get(Some(doc), "nodes"), n), "id"), None) != id
  }

  ghost predicate EdgeDefect(doc: Json, edge: Option<Json>, limits: Limits)
  {
    var port, aside := Get(edge, "source_port"), AsBool(Get(edge, "invalid_target"), false);
    || UnknownId(doc, AsString(Get(edge, "source"), None))
    || UnknownId(doc, AsString(Get(edge, "target"), None))
    || (aside && port.Some?)
    || (!aside && !(0.0 <= AsNumber(port, 0.0) < limits.maxPorts as real))
  }

  ghost predicate Defective(doc: Json, registry: seq<StageType>, limits: Limits)
  {
    var nodes, edges := Get(Some(doc), "nodes"), Get(Some(doc), "edges");
    var ring := AsString(Get(Get(Some(doc), "input"), "ring_name"), None);
    || ring.None? || |ring.value| >= RING_NAME_SIZE
    || !(0 < ArraySize(nodes) <= limits.maxNodes)
    || (exists i :: 0 <= i < ArraySize(nodes) && NodeDefect(ArrayGet(nodes, i), registry))
    || (exists e :: 0 <= e < ArraySize(edges) && EdgeDefect(doc, ArrayGet(edges, e), limits))
  }

  lemma SoundNode(g: Graph, root: nat, registry: seq<StageType>, outcome: nat -> InitOutcome, limits: Limits, i: nat)
    requires Sound(g, root, registry, outcome, limits) && i < |g.nodes|
    ensures StageOf(g, registry, i).Some?
  {
    assert NodeFits(g, registry, outcome, limits, i);
  }

  lemma DefectiveNode(g: Graph, root: nat, registry: seq<StageType>, outcome: nat -> InitOutcome, limits: Limits,
                      n: Option<Json>, i: nat)
    requires Sound(g, root, registry, outcome, limits) && i < |g.nodes| && ReadNode(n) == Some(g.nodes[i])
    ensures !NodeDefect(n, registry)
  {
    hide Sound, Get;
    SoundNode(g, root, registry, outcome, limits, i);
    FindStageNames(registry, g.nodes[i].typeName, 0);
  }

  lemma DefectiveEdge(doc: Json, limits: Limits, g: Graph, e: nat)
    requires Spells(doc, limits, g) && e < |g.wires|
    ensures !EdgeDefect(doc, ArrayGet(Get(Some(doc), "edges"), e), limits)
  {
    hide Get, ArrayGet, ReadNode;
    var edge := ArrayGet(Get(Some(doc), "edges"), e);
    assert ReadEdge(g.nodes, edge, limits.maxPorts) == Some(g.wires[e]);
    KnownId(doc, limits, g, AsString(Get(edge, "source"), None));
    KnownId(doc, limits, g, AsString(Get(edge, "target"), None));
  }

  lemma KnownId(doc: Json, limits: Limits, g: Graph, id: Option<string>)
    requires Spells(doc, limits, g) && id.Some? && FindNode(g.nodes, id.value, 0).Some?
    ensures !UnknownId(doc, id)
  {
    hide Get, ArrayGet, ReadEdge;
    FindNodeFirst(g.nodes, id.value, 0);
    var i := FindNode(g.nodes, id.value, 0).value;
    assert ReadNode(ArrayGet(Get(Some(doc), "nodes"), i)) == Some(g.nodes[i]);
  }

  /** A document with any of these defects never loads: a ring name missing or too long; no nodes,
      or too many; a node without id or type, of a type that nobody registered, or with another
      on_invalid than drop and pass; an edge from or to an id that no node has, on a port out of
      range, or on a port although it is an invalid edge. */
  lemma DefectiveNeverLoads(doc: Json, registry: seq<StageType>, outcome: nat -> InitOutcome, limits: Limits)
    requires Defective(doc, registry, limits)
    ensures !Acceptable(doc, registry, outcome, limits)
  {
    hide NodeDefect, EdgeDefect, Sound, ReadNode, ReadEdge, Get, ArrayGet;
    if Acceptable(doc, registry, outcome, limits) {
      var g, root :| Spells(doc, limits, g) && Sound(g, root, registry, outcome, limits);
      var nodes, edges := Get(Some(doc), "nodes"), Get(Some(doc), "edges");
      forall i | 0 <= i < ArraySize(nodes) ensures !NodeDefect(ArrayGet(nodes, i), registry) {
        DefectiveNode(g, root, registry, outcome, limits, ArrayGet(nodes, i), i);
      }
      forall e | 0 <= e < ArraySize(edges) ensures !EdgeDefect(doc, ArrayGet(edges, e), limits) {
        DefectiveEdge(doc, limits, g, e);
      }
    }
  }

  // ---- What a node and an edge of a document mean ----

  /** A node that reads passes flagged records on exactly if its on_invalid says so, and takes its
      name, type and configuration from the document. */
  lemma NodeMeans(n: Option<Json>)
    requires ReadNode(n).Some?
    ensures var spec := ReadNode(n).value;
      && Get(n, "id") == Some(String(spec.id)) && Get(n, "type") == Some(String(spec.typeName))
      && Get(Get(n, "data"), "config") == spec.config
      && (spec.passInvalid <==> Get(Get(n, "data"), "on_invalid") == Some(String("pass")))
  {
    hide Get;
  }

  /** An edge that reads joins the first nodes with its two ids; it is the invalid edge exactly if
      it says so, and otherwise belongs to the port of its number, cut to an integer, or to port 0
      if it has none. */
  lemma EdgeMeans(nodes: seq<NodeSpec>, edge: Option<Json>, maxPorts: nat)
    requires ReadEdge(nodes, edge, maxPorts).Some?
    ensures var w := ReadEdge(nodes, edge, maxPorts).value;
      && Get(edge, "source") == Some(String(nodes[w.src].id))
      && Get(edge, "target") == Some(String(nodes[w.dst].id))
      && (forall i :: 0 <= i < w.src ==> nodes[i].id != nodes[w.src].id)
      && (forall i :: 0 <= i < w.dst ==> nodes[i].id != nodes[w.dst].id)
      && (w.slot.Invalid? <==> Get(edge, "invalid_target") == Some(Bool(true)))
      && (w.slot.Port? && Get(edge, "source_port").None? ==> w.slot.k == 0)
      && forall x: real :: w.slot.Port? && Get(edge, "source_port") == Some(Number(x)) ==>
           w.slot.k as real <= x < (w.slot.k + 1) as real
  {
    hide Get, FindNode;
    FindNodeFirst(nodes, AsString(Get(edge, "source"), None).value, 0);
    FindNodeFirst(nodes, AsString(Get(edge, "target"), None).value, 0);
  }

  // ---- Every graph can be written down ----

  function WrittenNode(n: NodeSpec): Json
  {
    Object([("id", String(n.id)), ("type", String(n.typeName)),
            ("data", Object([("on_invalid", String(if n.passInvalid then "pass" else "drop"))] +
                            if n.config.Some? then [("config", n.config.value)] else []))])
  }

  function WrittenWire(nodes: seq<NodeSpec>, w: Wire): Json
    requires w.src < |nodes| && w.dst < |nodes|
  {
    Object([("source", String(nodes[w.src].id)), ("target", String(nodes[w.dst].id)),
            if w.slot.Invalid? then ("invalid_target", Bool(true)) else ("source_port", Number(w.slot.k as real))])
  }

  function Written(g: Graph, ringName: string): Json
    requires forall e :: 0 <= e < |g.wires| ==> g.wires[e].src < |g.nodes| && g.wires[e].dst < |g.nodes|
  {
    Object([("input", Object([("ring_name", String(ringName))])),
            ("nodes", Array(seq(|g.nodes|, i requires 0 <= i < |g.nodes| => WrittenNode(g.nodes[i])))),
            ("edges", Array(seq(|g.wires|, e requires 0 <= e < |g.wires| => WrittenWire(g.nodes, g.wires[e]))))])
  }

  ghost predicate IdsDistinct(g: Graph)
  {
    forall i, j :: 0 <= i < j < |g.nodes| ==> g.nodes[i].id != g.nodes[j].id
  }

  lemma FirstMember(members: seq<(string, Json)>, key: string, n: nat)
    requires n < |members| && members[n].0 == key && forall k :: 0 <= k < n ==> members[k].0 != key
    ensures Lookup(members, key, 0) == Some(members[n].1)
  {
    LookupFirst(members, key, 0);
  }

  lemma NoMember(members: seq<(string, Json)>, key: string)
    requires forall k :: 0 <= k < |members| ==> members[k].0 != key
    ensures Lookup(members, key, 0) == None
  {
    LookupFirst(members, key, 0);
  }

  lemma NodeReadsBack(n: NodeSpec)
    ensures ReadNode(Some(WrittenNode(n))) == Some(n)
  {
    hide Lookup;
    var members := WrittenNode(n).members;
    FirstMember(members, "id", 0);
    FirstMember(members, "type", 1);
    FirstMember(members, "data", 2);
    var data := members[2].1.members;
    FirstMember(data, "on_invalid", 0);
    if n.config.Some? {
      FirstMember(data, "config", 1);
    } else {
      NoMember(data, "config");
    }
  }

  lemma {:induction false} FindsId(g: Graph, i: nat, j: nat)
    requires IdsDistinct(g) && j <= i < |g.nodes|
    ensures FindNode(g.nodes, g.nodes[i].id, j) == Some(i)
    decreases i - j
  {
    if j < i {
      FindsId(g, i, j + 1);
    }
  }

  lemma WireReadsBack(g: Graph, limits: Limits, e: nat)
    requires IdsDistinct(g) && WellFormed(g, limits) && e < |g.wires|
    ensures ReadEdge(g.nodes, Some(WrittenWire(g.nodes, g.wires[e])), limits.maxPorts) == Some(g.wires[e])
  {
    hide Lookup, FindNode;
    var w := g.wires[e];
    var members := WrittenWire(g.nodes, w).members;
    assert "source"[0] != "target"[0];
    FirstMember(members, "source", 0);
    FirstMember(members, "target", 1);
    FindsId(g, w.src, 0);
    FindsId(g, w.dst, 0);
    if w.slot.Invalid? {
      FirstMember(members, "invalid_target", 2);
      NoMember(members, "source_port");
    } else {
      FirstMember(members, "source_port", 2);
      NoMember(members, "invalid_target");
    }
  }

  /** Written and read back: a graph whose ids are distinct is what its document spells. */
  lemma WrittenSpells(g: Graph, ringName: string, limits: Limits)
    requires IdsDistinct(g) && WellFormed(g, limits)
    requires 0 < |g.nodes| <= limits.maxNodes && |ringName| < RING_NAME_SIZE
    ensures Spells(Written(g, ringName), limits, g)
  {
    hide Lookup, ReadNode, ReadEdge, WrittenNode, WrittenWire;
    var doc := Written(g, ringName);
    assert "input"[0] != "nodes"[0] && "edges"[0] != "nodes"[0] && "input"[0] != "edges"[0];
    FirstMember(doc.members, "input", 0);
    FirstMember(doc.members, "nodes", 1);
    FirstMember(doc.members, "edges", 2);
    FirstMember(doc.members[0].1.members, "ring_name", 0);
    forall i | 0 <= i < |g.nodes| ensures ReadNode(Some(WrittenNode(g.nodes[i]))) == Some(g.nodes[i]) {
      NodeReadsBack(g.nodes[i]);
    }
    forall e | 0 <= e < |g.wires|
      ensures ReadEdge(g.nodes, Some(WrittenWire(g.nodes, g.wires[e])), limits.maxPorts) == Some(g.wires[e])
    {
      WireReadsBack(g, limits, e);
    }
  }

  // ---- Which graphs load ----

  ghost predicate EdgeFrom(g: Graph, i: nat, slot: Slot)
  {
    exists e :: 0 <= e < |g.wires| && g.wires[e].src == i && g.wires[e].slot == slot
  }

  /** Node i, with the stage that its type names, starts up and has exactly the ports it declares
      wired: those that it counts, or else one. */
  ghost predicate NodeGood(g: Graph, stage: StageType, made: InitOutcome, limits: Limits, i: nat)
  {
    && made.Made?
    && var ports := if stage.countsPorts then made.ports else 1;
       && ports <= limits.maxPorts
       && forall k: nat :: EdgeFrom(g, i, Port(k)) <==> k < ports
  }

  /** The nodes form one tree from the root; s names each node's stage; each starts up and is wired
      as it declares; the root takes raw records, and along every edge, invalid ones included, what
      the one stage produces the other accepts. */
  ghost predicate Good(g: Graph, root: nat, s: seq<nat>, registry: seq<StageType>, outcome: nat -> InitOutcome,
                       limits: Limits)
  {
    && RootedTree(g, root) && SlotsDistinct(g.wires) && |s| == |g.nodes|
    && (forall i :: 0 <= i < |g.nodes| ==> Names(registry, g.nodes[i].typeName, s[i]))
    && (forall i :: 0 <= i < |g.nodes| ==> NodeGood(g, registry[s[i]], outcome(i), limits, i))
    && RawRecord in registry[s[root]].inTypes
    && forall e :: 0 <= e < |g.wires| && g.wires[e].src < |s| && g.wires[e].dst < |s| ==>
         registry[s[g.wires[e].src]].outType in registry[s[g.wires[e].dst]].inTypes
  }

  lemma StageIsNamed(g: Graph, registry: seq<StageType>, i: nat, j: nat)
    requires i < |g.nodes| && Names(registry, g.nodes[i].typeName, j)
    ensures StageOf(g, registry, i) == Some(registry[j])
  {
    FindStageNames(registry, g.nodes[i].typeName, 0);
    var k: nat :| Names(registry, g.nodes[i].typeName, k) && StageOf(g, registry, i).value == registry[k];
    NamesOne(registry, g.nodes[i].typeName, j, k);
  }

  lemma NodeGoodFits(g: Graph, registry: seq<StageType>, outcome: nat -> InitOutcome, limits: Limits, i: nat, j: nat)
    requires WellFormed(g, limits) && i < |g.nodes| && Names(registry, g.nodes[i].typeName, j)
    ensures NodeGood(g, registry[j], outcome(i), limits, i) <==> NodeFits(g, registry, outcome, limits, i)
  {
    StageIsNamed(g, registry, i, j);
    assert forall k: nat :: EdgeFrom(g, i, Port(k)) <==> SlotWired(g.wires, i, Port(k));
    assert forall k: nat :: SlotWired(g.wires, i, Port(k)) ==> k < limits.maxPorts;
  }

  lemma NamesInRange(registry: seq<StageType>, name: string, j: nat)
    requires Names(registry, name, j)
    ensures j < |registry|
  {
  }

  lemma GoodIsSound(g: Graph, root: nat, s: seq<nat>, registry: seq<StageType>, outcome: nat -> InitOutcome,
                    limits: Limits)
    requires WellFormed(g, limits) && Good(g, root, s, registry, outcome, limits)
    ensures Sound(g, root, registry, outcome, limits)
  {
    hide RootedTree, NodeFits, NodeGood, Names, StageOf;
    forall i | 0 <= i < |g.nodes|
      ensures s[i] < |registry|
      ensures NodeFits(g, registry, outcome, limits, i) && StageOf(g, registry, i) == Some(registry[s[i]])
    {
      NamesInRange(registry, g.nodes[i].typeName, s[i]);
      NodeGoodFits(g, registry, outcome, limits, i, s[i]);
      StageIsNamed(g, registry, i, s[i]);
    }
    TreeHasRoot(g, root);
  }

  lemma TreeHasRoot(g: Graph, root: nat)
    requires RootedTree(g, root)
    ensures root < |g.nodes|
  {
  }

  ghost predicate HasStage(g: Graph, registry: seq<StageType>, i: nat)
    requires i < |g.nodes|
  {
    exists j: nat :: Names(registry, g.nodes[i].typeName, j)
  }

  lemma {:induction false} ChooseNames(g: Graph, registry: seq<StageType>, n: nat) returns (s: seq<nat>)
    requires n <= |g.nodes| && forall i :: 0 <= i < n ==> HasStage(g, registry, i)
    ensures |s| == n && forall i :: 0 <= i < n ==> Names(registry, g.nodes[i].typeName, s[i])
  {
    s := [];
    if n > 0 {
      s := ChooseNames(g, registry, n - 1);
      assert HasStage(g, registry, n - 1);
      var j: nat :| Names(registry, g.nodes[n - 1].typeName, j);
      s := s + [j];
    }
  }

  lemma SoundIsGood(g: Graph, root: nat, registry: seq<StageType>, outcome: nat -> InitOutcome, limits: Limits)
    returns (s: seq<nat>)
    requires Sound(g, root, registry, outcome, limits)
    ensures Good(g, root, s, registry, outcome, limits)
  {
    hide RootedTree, NodeFits, NodeGood, Names, StageOf;
    TreeHasRoot(g, root);
    forall i | 0 <= i < |g.nodes| ensures HasStage(g, registry, i) {
      assert StageOf(g, registry, i).Some?;
      NamedAt(g, registry, i);
    }
    s := ChooseNames(g, registry, |g.nodes|);
    forall i | 0 <= i < |g.nodes|
      ensures Names(registry, g.nodes[i].typeName, s[i]) && s[i] < |registry|
      ensures NodeGood(g, registry[s[i]], outcome(i), limits, i) && StageOf(g, registry, i) == Some(registry[s[i]])
    {
      NamesInRange(registry, g.nodes[i].typeName, s[i]);
      NodeGoodFits(g, registry, outcome, limits, i, s[i]);
      StageIsNamed(g, registry, i, s[i]);
    }
  }

  lemma NamedAt(g: Graph, registry: seq<StageType>, i: nat)
    requires i < |g.nodes| && StageOf(g, registry, i).Some?
    ensures HasStage(g, registry, i)
  {
    FindStageNames(registry, g.nodes[i].typeName, 0);
  }

  /** The document of a graph loads if and only if the graph is good for some root and choice of
      registered stages. */
  lemma WrittenLoadsIff(g: Graph, ringName: string, registry: seq<StageType>, outcome: nat -> InitOutcome,
                        limits: Limits)
    requires IdsDistinct(g) && WellFormed(g, limits)
    requires 0 < |g.nodes| <= limits.maxNodes && |ringName| < RING_NAME_SIZE
    ensures Acceptable(Written(g, ringName), registry, outcome, limits) <==>
      exists root: nat, s: seq<nat> :: Good(g, root, s, registry, outcome, limits)
  {
    hide Spells, Sound, Good, Written, IdsDistinct;
    WrittenSpells(g, ringName, limits);
    var doc := Written(g, ringName);
    if Acceptable(doc, registry, outcome, limits) {
      var h, root :| Spells(doc, limits, h) && Sound(h, root, registry, outcome, limits);
      SpellsUnique(doc, limits, g, h);
      var s := SoundIsGood(g, root, registry, outcome, limits);
    }
    if root: nat, s: seq<nat> :| Good(g, root, s, registry, outcome, limits) {
      GoodIsSound(g, root, s, registry, outcome, limits);
    }
  }
}
