/** Chains made of the modelled stages: each keeps the contract that the engine relies on, so
    types hold on every run, and extract reads inside its record wherever the graph guards it. */
module StageKinds {
  import opened Machine
  import opened Options
  import opened GraphSpec
  import opened PipelineChain
  import opened PipelineSpec
  import opened PipelineRun
  import opened RecordFormat
  import opened Stages
  import R = Router

  /** What a node's stage is and how it is configured. A sink is any stage without ports that
      flags nothing. */
  datatype Kind =
    | ValidateKind(requireMagic: bool)
    | MatchKind(pattern: MatchConfig)
    | ExtractKind(field: ExtractConfig)
    | ConvertKind
    | RouterKind(table: R.Table)
    | SinkKind

  /** What process() answers: the contracts of Validate.Process, ByteMatch.Process, ExtractProcess,
      ConvertProcess and RouterProcess. Of a record that extract cannot read inside, only the type
      of its output is known. */
  ghost predicate Answers(kind: Kind, input: Record, reply: Reply)
  {
    match kind
    case ValidateKind(requireMagic) =>
      && (reply.ok <==> Framed(input.bytes))
      && (reply.ok ==> reply.out == Pass(input, requireMagic && input.bytes[..8] != MAGIC))
    case MatchKind(c) =>
      && MatchConfigOk(c)
      && (reply.ok <==> c.offset + |c.magic| <= |input.bytes|)
      && (reply.ok ==> reply.out == Pass(input, !Matches(c, input.bytes)))
    case ExtractKind(c) =>
      && ExtractConfigOk(c)
      && reply.ok && reply.out.portType == RawRecord
      && (HeaderFits(input.bytes) ==> reply.out == Extracted(c, input))
    case ConvertKind =>
      && (reply.ok <==> |input.bytes| == 8)
      && (reply.ok ==> reply.out.portType == Engineering && reply.out.flags == NO_FLAGS)
    case RouterKind(t) =>
      reply.ok && reply.outPort == R.PortFor(t, input.bytes) && reply.out == input.(flags := 0)
    case SinkKind => !IntegrityFailed(reply.out.flags)
  }

  /** The calls themselves: whichever modelled stage is called, what it returns and leaves in its
      output buffer is such an answer. */
  method CallStage(kind: Kind, validate: Validate, byteMatch: ByteMatch, calibrate: nat -> seq<Byte>,
                   cur: StageRecord, outData: array<Byte>, ghost input: Record)
    returns (ok: bool, ghost reply: Reply, next: StageRecord)
    requires !kind.SinkKind? && (kind.ValidateKind? ==> validate.requireMagic == kind.requireMagic)
    requires kind.MatchKind? ==> byteMatch.config == kind.pattern && MatchConfigOk(kind.pattern)
    requires kind.ExtractKind? ==> ExtractConfigOk(kind.field) && HeaderFits(input.bytes)
    requires forall n :: |calibrate(n)| == 8
    requires Holds(cur, input) && cur.data != outData && cur.len <= STAGE_SCRATCH_BYTES == outData.Length
    modifies validate, byteMatch, outData
    ensures Answers(kind, input, reply) && ok == reply.ok
    ensures ok ==> next.data == outData && Holds(next, reply.out)
  {
    hide Framed, Matches, LenField, HeaderFits, Extracted;
    var port: nat := 0;
    ok, next := true, cur;
    match kind {
      case ValidateKind(_) => ok, next := validate.Process(cur, outData, input);
      case MatchKind(_) => ok, next := byteMatch.Process(cur, outData, input);
      case ExtractKind(c) => next := ExtractProcess(c, cur, outData, input);
      case ConvertKind =>
        ghost var raw;
        ok, raw, next := ConvertProcess(calibrate, cur, outData, input);
      case RouterKind(t) => port, next := R.RouterProcess(t, cur, outData, input);
      case SinkKind =>
    }
    var silent := Record(RawRecord, [], 0, 0);
    reply := Reply(ok, port, if ok then Record(next.portType, next.data[..next.len], next.tsc, next.flags) else silent);
  }

  /** The types that the stage declares, and no ports if it is a sink. */
  predicate Plays(kind: Kind, stage: StageType, inst: Instance)
  {
    match kind
    case SinkKind => inst.portCount == 0
    case ConvertKind => stage.inTypes == {RawRecord} && stage.outType == Engineering
    case _ => stage.inTypes == {RawRecord} && stage.outType == RawRecord
  }

  lemma KindKeepsType(g: Graph, registry: seq<StageType>, stages: seq<Option<Instance>>, i: nat,
                      kind: Kind, input: Record, reply: Reply)
    requires i < |g.nodes| && i < |stages| && stages[i].Some? && StageOf(g, registry, i).Some?
    requires Plays(kind, StageOf(g, registry, i).value, stages[i].value) && Answers(kind, input, reply)
    ensures KeepsType(g, registry, stages, i, input, reply)
  {
    hide Matches, Framed, StageOf;
    match kind
    case SinkKind => R.SinkKeepsType(g, registry, stages, i, input, reply);
    case RouterKind(_) => R.RouterKeepsType(g, registry, stages, i, input, reply);
    case _ =>
  }

  /** Every node is of its kind, and its stage answers as that kind does on every call. */
  ghost predicate Played(g: Graph, registry: seq<StageType>, stages: seq<Option<Instance>>, kinds: seq<Kind>,
                         b: Behaviour)
  {
    && |kinds| == |g.nodes|
    && (forall i :: 0 <= i < |kinds| && i < |stages| && stages[i].Some? && StageOf(g, registry, i).Some? ==>
          Plays(kinds[i], StageOf(g, registry, i).value, stages[i].value))
    && AllAnswer(kinds, b)
  }

  ghost predicate AllAnswer(kinds: seq<Kind>, b: Behaviour)
  {
    forall call: nat, i: nat, input: Record :: i < |kinds| ==> Answers(kinds[i], input, b(call, i, input))
  }

  lemma PlayedIsHonest(g: Graph, registry: seq<StageType>, stages: seq<Option<Instance>>, kinds: seq<Kind>,
                       b: Behaviour)
    requires Played(g, registry, stages, kinds, b)
    ensures Honest(g, registry, stages, b)
  {
    hide Answers, KeepsType, Plays, StageOf;
    forall call: nat, i: nat, input: Record
      ensures KeepsType(g, registry, stages, i, input, b(call, i, input))
    {
      if i < |kinds| && i < |stages| && stages[i].Some? && StageOf(g, registry, i).Some? {
        assert Answers(kinds[i], input, b(call, i, input));
        KindKeepsType(g, registry, stages, i, kinds[i], input, b(call, i, input));
      } else {
        NothingToKeep(g, registry, stages, i, input, b(call, i, input));
      }
    }
  }

  lemma NothingToKeep(g: Graph, registry: seq<StageType>, stages: seq<Option<Instance>>, i: nat,
                      input: Record, reply: Reply)
    requires !(i < |g.nodes| && i < |stages| && stages[i].Some? && StageOf(g, registry, i).Some?)
    ensures KeepsType(g, registry, stages, i, input, reply)
  {
  }

  /** On any loaded chain of these stages, every process() call of every run gets a type that its
      stage accepts, with no hypothesis left about what the stages do. */
  lemma ModelledTypesHold(g: Graph, root: nat, registry: seq<StageType>, outcome: nat -> InitOutcome,
                          limits: Limits, stages: seq<Option<Instance>>, kinds: seq<Kind>, t: Tree, b: Behaviour,
                          input: Record)
    requires LoadedChain(g, root, registry, outcome, limits, stages) && Unfolds(stages, t) && t.idx == root
    requires Played(g, registry, stages, kinds, b) && input.portType == RawRecord
    ensures forall v :: v in Eval(t, b, 0, input).visits ==> TypeAccepted(g, registry, v)
  {
    hide *;
    PlayedIsHonest(g, registry, stages, kinds, b);
    RunTypesHold(g, root, registry, outcome, limits, stages, t, b, input);
  }

  // ---- Where extract reads ----

  /** Whether what a stage hands down its ports is known to be framed. */
  predicate FramedBelow(kind: Kind, framed: bool)
  {
    match kind
    case ValidateKind(_) => true
    case MatchKind(_) => framed
    case RouterKind(_) => framed
    case _ => false
  }

  /** The same for its invalid edge, along which extract hands its whole input. */
  predicate FramedAside(kind: Kind, framed: bool)
  {
    FramedBelow(kind, framed) || (kind.ExtractKind? && framed)
  }

  /** No extract below another one's ports, or below a convert, unless a validate comes between. */
  predicate Guarded(kinds: seq<Kind>, t: Tree, framed: bool)
  {
    && t.idx < |kinds|
    && (kinds[t.idx].ExtractKind? ==> framed)
    && (forall k :: 0 <= k < |t.kids| ==> Guarded(kinds, t.kids[k], FramedBelow(kinds[t.idx], framed)))
    && (t.invalid.Some? ==> Guarded(kinds, t.invalid.value, FramedAside(kinds[t.idx], framed)))
  }

  /** What a stage hands on is framed where the graph says so. */
  lemma StageKeepsFrame(kind: Kind, input: Record, reply: Reply)
    requires Framed(input.bytes) && Answers(kind, input, reply) && reply.ok
    ensures FramedBelow(kind, true) ==> Framed(reply.out.bytes)
    ensures FramedAside(kind, true) && IntegrityFailed(reply.out.flags) ==> Framed(reply.out.bytes)
  {
    hide Matches;
    FlagsMean(false);
  }

  lemma StageMakesFrame(kind: Kind, input: Record, reply: Reply)
    requires Answers(kind, input, reply) && reply.ok
    ensures FramedBelow(kind, false) ==> Framed(reply.out.bytes)
  {
    hide Matches;
  }

  /** In every run of a guarded chain on a framed record, extract gets only records that it reads
      inside of, whatever its configuration and whatever path the record takes. */
  lemma {:induction false} GuardedReadsInside(kinds: seq<Kind>, t: Tree, b: Behaviour, call: nat, input: Record,
                                              framed: bool)
    requires AllAnswer(kinds, b) && Guarded(kinds, t, framed) && (framed ==> Framed(input.bytes))
    ensures forall v :: v in Eval(t, b, call, input).visits ==>
      v.node < |kinds| && (kinds[v.node].ExtractKind? ==> HeaderFits(v.input.bytes))
    decreases t
  {
    hide Answers, Framed, Matches;
    var reply := b(call, t.idx, input);
    assert Answers(kinds[t.idx], input, reply);
    FramedFits(input.bytes);
    if RouteOf(t, reply).Down? {
      if framed {
        StageKeepsFrame(kinds[t.idx], input, reply);
      } else {
        StageMakesFrame(kinds[t.idx], input, reply);
      }
      var aside := IntegrityFailed(reply.out.flags) && t.invalid.Some?;
      GuardedReadsInside(kinds, RouteOf(t, reply).below, b, call + 1, reply.out,
                         if aside then FramedAside(kinds[t.idx], framed) else FramedBelow(kinds[t.idx], framed));
    }
  }

  lemma FramedFits(b: seq<Byte>)
    ensures Framed(b) ==> HeaderFits(b)
  {
  }

  predicate OnlyOnes(b: seq<Byte>)
  {
    forall i :: 0 <= i < |b| ==> b[i] == 255
  }

  function Ones(n: nat): (b: seq<Byte>)
    ensures |b| == n && OnlyOnes(b)
  {
    seq(n, _ => 255)
  }

  /** The guard is needed: whatever field one extract is configured for, there is a framed record
      in which it finds it and whose extract a second one, wired below it, cannot read inside. */
  lemma ExtractNeedsGuard(c: ExtractConfig)
    requires ExtractConfigOk(c) && HDR + c.offset + Size(c) <= STAGE_SCRATCH_BYTES
    ensures exists r: Record :: Framed(r.bytes) && |r.bytes| <= STAGE_SCRATCH_BYTES && InRange(c, r.bytes) &&
                                !HeaderFits(Extracted(c, r).bytes)
  {
    hide LenField, HeaderFits, OnlyOnes;
    var payload := Ones(c.offset + Size(c));
    HeaderFrames(0, 0, payload);
    var b := Header(MAGIC, 0, 0, |payload|) + payload;
    var r := Record(RawRecord, b, 0, NO_FLAGS);
    FramedFits(b);
    OnesSlice(payload, c.offset, c.offset + Size(c));
    UnreadableOut(c, Extracted(c, r).bytes);
    assert Framed(r.bytes) && InRange(c, r.bytes) && !HeaderFits(Extracted(c, r).bytes);
  }

  lemma OnesSlice(b: seq<Byte>, lo: nat, hi: nat)
    requires lo <= hi <= |b| && OnlyOnes(b)
    ensures OnlyOnes(b[lo..hi])
  {
  }

  /** Neither a number nor a run of ones has a header that fits. */
  lemma UnreadableOut(c: ExtractConfig, out: seq<Byte>)
    requires |out| <= STAGE_SCRATCH_BYTES && if c.Numeric? then |out| == 8 else OnlyOnes(out)
    ensures !HeaderFits(out)
  {
    if |out| >= HDR {
      var d := out[24..28];
      assert d[0] == out[24] && d[1] == out[25];
      assert Le(d[1..]) >= d[1..][0] == d[1];
    }
  }
}
