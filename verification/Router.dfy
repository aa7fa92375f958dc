/** The example router: a table of byte values and ports, and the port count it declares. */
module Router {
  import opened Machine
  import opened GraphSpec
  import opened Options
  import opened PipelineChain
  import opened PipelineSpec
  import opened PipelineRun

  datatype Route = Route(value: Byte, port: nat)
  datatype Table = Table(routes: seq<Route>, fallback: nat, portCount: nat)

  /** Ports are C unsigned ints. */
  predicate PortsOk(routes: seq<Route>, fallback: nat)
  {
    fallback < U32 && forall i :: 0 <= i < |routes| ==> routes[i].port < U32
  }

  predicate Mentions(routes: seq<Route>, fallback: nat, port: nat)
  {
    port == fallback || exists i :: 0 <= i < |routes| && routes[i].port == port
  }

  /** The count is one more than the highest port mentioned, in 32 bits. */
  ghost predicate Declares(t: Table)
  {
    exists top: nat ::
      && Mentions(t.routes, t.fallback, top) && t.portCount == (top + 1) % U32
      && forall p: nat :: Mentions(t.routes, t.fallback, p) ==> p <= top
  }

  /** router_init(): one more than the highest port, in 32 bits. */
  method RouterInit(routes: seq<Route>, fallback: nat) returns (t: Table)
    requires PortsOk(routes, fallback)
    ensures t.routes == routes && t.fallback == fallback
    ensures Declares(t)
  {
    var top := 0;
    for i := 0 to |routes|
      invariant top == 0 || exists j :: 0 <= j < i && routes[j].port == top
      invariant forall j :: 0 <= j < i ==> routes[j].port <= top
    {
      if routes[i].port > top {
        top := routes[i].port;
      }
    }
    if fallback > top {
      top := fallback;
    }
    t := Table(routes, fallback, (top + 1) % U32);
    assert Mentions(routes, fallback, top);
  }

  /** router_process(): the record unchanged, for the port of the first route for its last byte. */
  method RouterProcess(t: Table, cur: StageRecord, outData: array<Byte>, ghost input: Record)
    returns (port: nat, next: StageRecord)
    requires Holds(cur, input) && cur.data != outData && cur.len <= outData.Length
    modifies outData
    ensures port == PortFor(t, input.bytes) && Holds(cur, input)
    ensures next.data == outData && Holds(next, input.(flags := 0))
  {
    port := t.fallback;
    if cur.len > 0 {
      port := FindRoute(t, cur.data[cur.len - 1]);
    }
    CopyBytes(cur.data[..cur.len], outData);
    next := StageRecord(cur.portType, outData, cur.len, cur.tsc, 0);
  }

  method FindRoute(t: Table, b: Byte) returns (port: nat)
    ensures port == FirstFrom(t, b, 0)
  {
    for i := 0 to |t.routes|
      invariant FirstFrom(t, b, 0) == FirstFrom(t, b, i)
    {
      if t.routes[i].value == b {
        return t.routes[i].port;
      }
    }
    return t.fallback;
  }

  function FirstFrom(t: Table, b: Byte, i: nat): nat
    requires i <= |t.routes|
    decreases |t.routes| - i
  {
    if i == |t.routes| then t.fallback
    else if t.routes[i].value == b then t.routes[i].port
    else FirstFrom(t, b, i + 1)
  }

  function PortFor(t: Table, bytes: seq<Byte>): nat
  {
    if bytes == [] then t.fallback else FirstFrom(t, bytes[|bytes| - 1], 0)
  }

  lemma {:induction false} FirstMentioned(t: Table, b: Byte, i: nat)
    requires i <= |t.routes|
    ensures Mentions(t.routes, t.fallback, FirstFrom(t, b, i))
    decreases |t.routes| - i
  {
    if i < |t.routes| && t.routes[i].value != b {
      FirstMentioned(t, b, i + 1);
    }
  }

  /** A record goes to the port of the first route for its last byte, and to the default port if it
      is empty or no route is for that byte. */
  lemma {:induction false} FirstFromIs(t: Table, b: Byte, i: nat, j: nat)
    requires i <= j <= |t.routes| && forall k :: i <= k < j ==> t.routes[k].value != b
    requires j < |t.routes| ==> t.routes[j].value == b
    ensures FirstFrom(t, b, i) == if j < |t.routes| then t.routes[j].port else t.fallback
    decreases j - i
  {
    if i < j {
      FirstFromIs(t, b, i + 1, j);
    }
  }

  lemma FirstRouteCounts(t: Table, bytes: seq<Byte>, last: Byte, j: nat)
    requires j <= |t.routes| && forall k :: 0 <= k < j ==> t.routes[k].value != last
    requires j < |t.routes| ==> t.routes[j].value == last
    ensures PortFor(t, bytes + [last]) == if j < |t.routes| then t.routes[j].port else t.fallback
    ensures PortFor(t, []) == t.fallback
  {
    FirstFromIs(t, last, 0, j);
  }

  /** Whatever the record, the port is below the declared count, unless some port is the highest
      unsigned int and the count has wrapped to 0. */
  lemma PortBelowCount(t: Table, bytes: seq<Byte>)
    requires PortsOk(t.routes, t.fallback) && Declares(t)
    ensures PortFor(t, bytes) < t.portCount <==> !Mentions(t.routes, t.fallback, U32 - 1)
  {
    if bytes != [] {
      FirstMentioned(t, bytes[|bytes| - 1], 0);
    }
    var top: nat :| Mentions(t.routes, t.fallback, top) && t.portCount == (top + 1) % U32 &&
                    forall p: nat :: Mentions(t.routes, t.fallback, p) ==> p <= top;
    assert Mentions(t.routes, t.fallback, PortFor(t, bytes));
    assert top < U32;
  }

  /** In no run is a record dropped for an out-of-range port at a router, even then. */
  lemma RouterNeverOutOfRange(stages: seq<Option<Instance>>, tree: Tree, b: Behaviour, call: nat, input: Record,
                              i: nat, t: Table)
    requires Unfolds(stages, tree) && i < |stages| && stages[i].Some?
    requires PortsOk(t.routes, t.fallback) && Declares(t) && stages[i].value.portCount == t.portCount
    requires forall c: nat, r: Record :: b(c, i, r).outPort == PortFor(t, r.bytes)
    ensures Eval(tree, b, call, input).verdict != Dropped(PortOutOfRange, i)
  {
    if Eval(tree, b, call, input).verdict == Dropped(PortOutOfRange, i) {
      OutOfRangeIsTheStages(stages, tree, b, call, input, i);
      var c: nat, r: Record :| b(c, i, r).ok && 0 < t.portCount <= b(c, i, r).outPort;
      PortBelowCount(t, r.bytes);
      CountWraps(t);
    }
  }

  lemma CountWraps(t: Table)
    requires PortsOk(t.routes, t.fallback) && Declares(t)
    ensures Mentions(t.routes, t.fallback, U32 - 1) ==> t.portCount == 0
  {
  }

  /** The router hands on the type it was given, which its one accepted type makes its own; */
  lemma RouterKeepsType(g: Graph, registry: seq<StageType>, stages: seq<Option<Instance>>, i: nat,
                        input: Record, reply: Reply)
    requires i < |g.nodes| && StageOf(g, registry, i).Some?
    requires var stage := StageOf(g, registry, i).value; forall x :: x in stage.inTypes ==> x == stage.outType
    requires reply.out == input.(flags := 0)
    ensures KeepsType(g, registry, stages, i, input, reply)
  {
  }

  /** and a sink keeps its contract whatever it leaves in an output that nothing reads. */
  lemma SinkKeepsType(g: Graph, registry: seq<StageType>, stages: seq<Option<Instance>>, i: nat,
                      input: Record, reply: Reply)
    requires i < |stages| && stages[i].Some? && stages[i].value.portCount == 0
    requires !IntegrityFailed(reply.out.flags)
    ensures KeepsType(g, registry, stages, i, input, reply)
  {
  }
}
