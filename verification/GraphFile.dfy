/** From the bytes of a graph file to a loaded chain: the reader in place, then the loader. */
module GraphFile {
  import opened JsonValues
  import opened JsonText
  import opened JsonRoundTrip
  import opened JsonInPlace
  import opened GraphSpec
  import opened GraphLoad
  import opened PipelineChain
  import opened LoadedRun
  import G = JsonGrammar

  /** graph_config_load() from the file's contents on: the chain is loaded exactly if the text is
      JSON to this reader and the value it denotes is an acceptable document; else every state
      that the attempt made has been torn down and the chain is empty. */
  method GraphFileLoad(buf: array<char>, ghost text: string, registry: seq<StageType>, limits: Limits,
                       host: StageHost, chain: Chain)
    returns (ok: bool, ghost g: Graph)
    requires |text| < buf.Length && NUL !in text && buf[..|text|] == text && buf[|text|] == NUL
    requires Value(text, 0).Settled()
    requires host.Valid() && chain.stages.Length == limits.maxNodes
    modifies buf, host, chain, chain.stages
    ensures ok <==> Document(text).Ok? && Acceptable(Document(text).value, registry, host.outcome, limits)
    ensures ok ==> Spells(Document(text).value, limits, g) && Loaded(g, registry, host.outcome, limits, chain)
    ensures ok ==> OwesExactly(host.owed, old(host.owed), chain.stages[..chain.stageCount])
    ensures !ok ==> host.owed == old(host.owed) && chain.Cleared()
  {
    hide Document, Value, Acceptable, Spells, Sound, ChainRealizes, OwesExactly;
    chain.Clear();
    g := Graph([], []);
    var root := JsonParse(buf, text);
    if root.None? {
      return false, g;
    }
    ok, g := GraphConfigLoad(Read(buf[..], root.value), registry, limits, host, chain);
  }

  /** However a document is spelled, with any white space, escapes and number forms that the RFC
      allows and the reader keeps, the file loads exactly if the document is acceptable. */
  method SpelledGraphLoad(buf: array<char>, ghost doc: Json, ghost before: G.White, ghost v: G.Text,
                          ghost after: G.White, registry: seq<StageType>, limits: Limits, host: StageHost,
                          chain: Chain)
    returns (ok: bool, ghost g: Graph)
    requires G.Ok(v) && G.Meaning(v) == Std(doc) && G.Supported(v) && G.Exact(v)
    requires var text := before + (G.Print(v) + after);
      |text| < buf.Length && buf[..|text|] == text && buf[|text|] == NUL
    requires host.Valid() && chain.stages.Length == limits.maxNodes
    modifies buf, host, chain, chain.stages
    ensures ok <==> Acceptable(doc, registry, host.outcome, limits)
    ensures ok ==> Spells(doc, limits, g) && Loaded(g, registry, host.outcome, limits, chain)
    ensures !ok ==> host.owed == old(host.owed) && chain.Cleared()
  {
    hide *;
    PrintedIsReadable(before, v, after);
    ParseInvertsPrint(doc, before, v, after);
    ok, g := GraphFileLoad(buf, before + (G.Print(v) + after), registry, limits, host, chain);
  }
}
