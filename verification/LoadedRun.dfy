/** From a graph file to a finished record: what the loader accepts, the engine runs. */
module LoadedRun {
  import opened Machine
  import opened Options
  import opened JsonValues
  import opened GraphSpec
  import opened Sequences
  import opened GraphLoad
  import opened PipelineChain
  import opened PipelineSpec
  import opened PipelineRun
  import opened RunLaws
  import P = EpochProtocol

  ghost predicate Loaded(g: Graph, registry: seq<StageType>, outcome: nat -> InitOutcome, limits: Limits, chain: Chain)
    reads chain, chain.stages
  {
    && chain.stageCount <= chain.stages.Length
    && LoadedChain(g, chain.rootIdx, registry, outcome, limits, chain.stages[..chain.stageCount])
  }

  /** What a finished run on a loaded chain is: it ended; it went from the root along the edges of
      the graph as the stages' answers say, and ended where and as they say; it visited no node
      twice, hence made at most one process() call per node; it agrees with the evaluator of the
      tree that the chain unfolds into; and with honest stages every call got a type that its stage
      accepts. */
  ghost predicate RunAsEvaluated(g: Graph, root: nat, registry: seq<StageType>, stages: seq<Option<Instance>>,
                                 b: Behaviour, input: Record, t: Tree, ok: bool, visits: seq<Visit>)
  {
    && Unfolds(stages, t) && t.idx == root
    && (ok <==> Eval(t, b, 0, input).verdict.Forwarded?) && visits == Eval(t, b, 0, input).visits
    && FollowsGraph(g, b, 0, Visit(root, input), visits, ok)
    && Distinct(Nodes(visits)) && |visits| <= |g.nodes|
    && (Honest(g, registry, stages, b) ==> forall v :: v in visits ==> TypeAccepted(g, registry, v))
  }

  /** One record through any chain that the loader may have left behind. */
  method RunLoaded(chain: Chain, worker: PipelineWorker, counters: PipelineCounters, b: Behaviour,
                   rawData: seq<Byte>, tsc: nat, ghost g: Graph, ghost registry: seq<StageType>,
                   ghost outcome: nat -> InitOutcome, ghost limits: Limits)
    returns (ok: bool, ghost visits: seq<Visit>, ghost t: Tree)
    requires worker.Valid() && |rawData| <= STAGE_SCRATCH_BYTES && Loaded(g, registry, outcome, limits, chain)
    modifies counters, worker.scratch0, worker.scratch1
    ensures RunAsEvaluated(g, chain.rootIdx, registry, chain.stages[..chain.stageCount], b,
                           Record(RawRecord, rawData, tsc, 0), t, ok, visits)
    ensures counters.recordsIn == Inc(old(counters.recordsIn))
    ensures counters.forwarded == if ok then Inc(old(counters.forwarded)) else old(counters.forwarded)
    ensures counters.dropped == if ok then old(counters.dropped) else Inc(old(counters.dropped))
  {
    ghost var stages := chain.stages[..chain.stageCount];
    ghost var input := Record(RawRecord, rawData, tsc, 0);
    t := LoadedChainUnfolds(g, chain.rootIdx, registry, outcome, limits, stages);
    EvalFollows(g, chain.rootIdx, registry, outcome, limits, stages, t, b, 0, input);
    RunVisitsOnce(g, chain.rootIdx, registry, outcome, limits, stages, t, b, input);
    if Honest(g, registry, stages, b) {
      RunTypesHold(g, chain.rootIdx, registry, outcome, limits, stages, t, b, input);
    }
    ok, visits := PipelineRun.PipelineRun(chain, worker, counters, b, rawData, tsc, t);
  }

  /** A document loaded and a record run through it: every acceptable document runs, whatever its
      stages answer. */
  method LoadAndRun(doc: Json, registry: seq<StageType>, limits: Limits, host: StageHost, chain: Chain,
                    worker: PipelineWorker, counters: PipelineCounters, b: Behaviour, rawData: seq<Byte>, tsc: nat)
    returns (loaded: bool, ok: bool, ghost g: Graph, ghost visits: seq<Visit>, ghost t: Tree)
    requires host.Valid() && chain.stages.Length == limits.maxNodes
    requires worker.Valid() && |rawData| <= STAGE_SCRATCH_BYTES
    modifies host, chain, chain.stages, counters, worker.scratch0, worker.scratch1
    ensures loaded <==> Acceptable(doc, registry, host.outcome, limits)
    ensures loaded ==>
      && chain.stageCount <= chain.stages.Length && Spells(doc, limits, g)
      && RunAsEvaluated(g, chain.rootIdx, registry, chain.stages[..chain.stageCount], b,
                        Record(RawRecord, rawData, tsc, 0), t, ok, visits)
    ensures !loaded ==> !ok && host.owed == old(host.owed) && counters.recordsIn == old(counters.recordsIn)
  {
    ok, visits, t := false, [], Tree(0, [], None, false);
    loaded, g := GraphConfigLoad(doc, registry, limits, host, chain);
    if loaded {
      ok, visits, t := RunLoaded(chain, worker, counters, b, rawData, tsc, g, registry, host.outcome, limits);
    }
  }

  ghost predicate CountersAre(counters: PipelineCounters, s: P.State)
    reads counters
  {
    counters.recordsIn == s.recordsIn && counters.dropped == s.dropped && counters.forwarded == s.forwarded
  }

  /** A worker's run is, on the shared counters, the two steps that the barrier protocol takes for
      it: so records_in is dropped plus forwarded plus the runs in progress on every schedule. */
  method WorkerRuns(chain: Chain, worker: PipelineWorker, counters: PipelineCounters, b: Behaviour,
                    rawData: seq<Byte>, tsc: nat, ghost t: Tree, ghost s: P.State, ghost w: nat)
    returns (ok: bool)
    requires worker.Valid() && |rawData| <= STAGE_SCRATCH_BYTES && chain.stageCount <= chain.stages.Length
    requires Unfolds(chain.stages[..chain.stageCount], t) && t.idx == chain.rootIdx
    requires w < |s.workers| && s.workers[w].Inside? && CountersAre(counters, s)
    modifies counters, worker.scratch0, worker.scratch1
    ensures var s' := P.WorkerStep(P.WorkerStep(s, w, ok), w, ok);
      s'.workers[w].Ran? && CountersAre(counters, s')
  {
    ghost var visits;
    ok, visits := PipelineRun.PipelineRun(chain, worker, counters, b, rawData, tsc, t);
  }
}
