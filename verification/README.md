# Loomtabulator, verified

A Dafny model of the parts of loomtabulator that are hard to get right: the
epoch barrier between workers, the graph loader, the pipeline engine, the JSON
reader and escaper, the wire format, the record stages, ring and blob
ownership, and the plugin registry. `dafny verify dfyconfig.toml` checks all of
it.

- **Epoch barrier** (`Epoch*.dfy`). The worker loop and the five barrier
  functions as interleaved atomic steps: one transition per load, store or
  fetch-and-add, any number of workers, any stream of data and barrier items,
  64-bit counters with their wrap-around. `EpochPool` is the same thing as
  classes whose methods update the atomics in place; each step of a worker is
  proved equal to the transition. The ordering promise is false of the code:
  `EpochRaces` gives two runs and the exact condition for a tag to be right. It
  is proved for all runs on which no barrier is claimed beside another claim,
  however the claims of records overlap; and from every reachable state with
  such a barrier the workers already past their check can break it. Together
  (`EpochDiscipline.KeepsPromiseIff`) they say exactly which ways of holding
  workers back at their check keep the promise. `EpochStop` proves that a stop
  request, and nothing else, sends every worker home.
- **Graph loader** (`Graph*.dfy`, `PipelineChain.dfy`). `GraphSpec` says
  declaratively which documents must load; `GraphLoad` fills the node table,
  runs the breadth-first walk and the failure sweep in place, and succeeds
  exactly on those. The two size limits are symbolic. `GraphLaws` says what that
  comes to in names, documents and edges; `GraphFile` joins the loader to the
  JSON reader.
- **Pipeline engine** (`Pipeline*.dfy`, `LoadedRun.dfy`). A recursive evaluator
  over an inductive tree of nodes and immutable records, and the `for(;;)` loop
  over array indices and two scratch buffers. `RunLaws` says of the graph and the
  stages' answers alone what a run does. `LoadedRun` joins it to the loader:
  on every chain that a load leaves, the loop ends and agrees with the
  evaluator. A stage is an arbitrary function of the record and the call number.
- **JSON** (`Json*.dfy`). `JsonText` is the reader as functions on an immutable
  text; `JsonInPlace` is the reader as it runs, rewriting the buffer that its
  strings point into. `JsonGrammar` is sections 2 to 7 of RFC 8259 as syntax
  trees with all their freedom of white space, escapes and number forms, and
  their meaning; `JsonPrint` and `JsonRoundTrip` prove what the reader makes of
  them. `JsonEscape` is the escaping writer and the error report; `JsonCycle`
  joins both writers to the reader in place. `JsonSyntax` is the reader's whole
  language, as a relation: it accepts those texts and no others. `JsonLoose` says
  what `sscanf()` and `strtod()` add to it, `JsonBounds` which texts can take the
  cursor past their end.
- **Wire** (`Checksum.dfy`, `Frames.dfy`, `FrameChecks.dfy`). Internet
  checksums with 32-bit sums, frames built in place, and the parser.
- **Record stages** (`RecordFormat.dfy`, `Stages.dfy`, `HandOff.dfy`,
  `Router.dfy`, and `StageKinds.dfy` for whole chains of them), **rings and blobs** (`RingSpace.dfy`, `RingLaws.dfy`,
  `RingStage.dfy`) and **plugins** (`PluginSpec.dfy`, `PluginLaws.dfy`,
  `PluginLoader.dfy`).

Parameters stand for what lies outside: what `init()` answers for a node, what
`process()` answers on each call, whether an allocation or a ring creation
succeeds, what `dlopen()` and `dlsym()` find.

Where the code and its documentation disagree, the code is followed:

- `record.h` says that a drain cross-checks the barrier's `seq` against the
  epoch; `epoch_barrier_drain()` ignores both arguments, and so does the model.
- `epoch_barrier.h` names a lock around dequeue and enter as a promising fix for
  the race; `EpochRaces.LockAroundDequeueTooNarrow` shows that it is not, and
  `EpochDiscipline.WideLockKeepsPromise` that it is once the lock also covers the
  check of `barrier_pending`.
- `common.h` gives no bound on the frame length; the two 16-bit length fields
  are right exactly up to the bounds in `FrameChecks.PacketRoundTrip` and
  `FrameChecks.IpLengthRight`, and the UDP checksum verifies exactly as
  `FrameChecks.UdpChecksumVerifies` says.
- `stage.h` asks of every successful `process()` that it set `out->type` to its
  `out_type`; sinks such as forward_udp leave it alone. `PipelineRun.Honest`
  therefore asks it only where the output is read and the input was accepted.
- `json.c` moves four characters on after every \u that `sscanf()` accepts, be
  they there or not; `JsonBounds` shows the shortest text on which the cursor
  leaves its buffer, and the texts on which it cannot.
- extract trusts the length in a record's header. The header is right on every
  run of a chain in which no extract lies below another extract or a convert
  without a validate between them (`StageKinds.GuardedReadsInside`); the loader
  does not ask for that, and `StageKinds.ExtractNeedsGuard` shows what happens
  otherwise.
- `stage.h` has a returned port always below the declared count; the example
  router keeps that exactly when no port is the largest unsigned int
  (`Router.PortBelowCount`), and its records are never dropped for it even then.

## Model

| member | source | states |
|---|---|---|
| EpochOrdering.EpochOrdering | src/epoch_barrier.c:18-52 | on every schedule on which no worker holds an unannounced barrier while another is past its check and has not published, each tag is the number of barriers ahead of the record, every record of an earlier epoch exits before any of a later one enters, and at most one worker drains |
| EpochOrdering.EverySchedule | src/epoch_barrier.c:25-52 | on every schedule: in_flight counts the workers between increment and exit, the epoch is barriers dequeued less those undrained, every dequeued item is freed or held once, and a tag lags by less than the number of workers |
| EpochOrdering.FlushBeforeAdvance | src/epoch_barrier.c:44-48 | on every schedule, a record that incremented before a drain's pending store has exited before that drain's advance |
| EpochOrdering.QuiescentAfterStop | src/pipeline_worker.c:14-48 | once all workers have returned, in_flight is 0, nothing is pending, the epoch is the barriers dequeued, every dequeued item is freed, and the record counters balance |
| EpochInvariants.NextInv | src/epoch_barrier.c:18-52 | every atomic step of any worker, and every enqueue or stop request, keeps the whole invariant |
| EpochInvariants.ExecInv | src/pipeline_worker.c:14-46 | so does every schedule |
| EpochRaces.TagExactIff | src/epoch_barrier.c:28-29 | in every reachable state a record about to read its tag reads its FIFO epoch if and only if as many barriers were dequeued behind it as are undrained |
| EpochRaces.OverlappingClaimsMistag | src/epoch_barrier.h:37-47 | a run of two workers in which a record is tagged with the wrong epoch |
| EpochRaces.LockAroundDequeueTooNarrow | src/epoch_barrier.h:70-75 | a wrong tag even when no two workers are ever between dequeue and publication |
| EpochRaces.OverlapCanMistag | src/epoch_barrier.h:60-75 | from every reachable state with a record and a barrier claimed at once, some continuation mis-tags |
| EpochRaces.ReadyOverlapCanMistag | src/epoch_barrier.h:37-47 | so it does from one with a worker past its check while another holds an unpublished barrier or record, unless the next item is of the wrong kind |
| EpochRaces.CrowdedBarrierCanBreak | src/epoch_barrier.h:37-47 | the converse: from every reachable state with an unannounced barrier beside another claim, some continuation that lets nobody else past the check mis-tags a record or has two workers drain |
| EpochDiscipline.KeepsPromiseIff | src/epoch_barrier.h:60-75 | any discipline that can only make workers wait at the check keeps the promise on all its runs if and only if no run has a barrier claimed beside another claim |
| EpochDiscipline.WideLockKeepsPromise | src/epoch_barrier.h:70-75 | a lock from the check to the publication is such a discipline, and keeps the promise |
| EpochProgress.NoDeadlock | src/epoch_barrier.h:77-82 | while work is left and a worker has not returned, some worker can take a step that is not a spin |
| EpochProgress.StepSpends | src/pipeline_worker.c:14-46 | no worker step raises the budget, every productive one lowers it |
| EpochProgress.ProductiveStepsBounded | src/pipeline_worker.c:14-46 | whatever the scheduler does, productive steps between enqueues are bounded by the budget |
| EpochProgress.CanFinish | src/epoch_barrier.h:77-82 | from every reachable state the workers alone can finish all work or all return |
| EpochStop.StopReachesAll | src/pipeline_worker.c:14-46 | from every reachable state after a stop request the workers alone can all return, whatever they hold and whatever is left in the ring |
| EpochStop.DequeuesAfterStop | src/pipeline_worker.c:14-21 | after a request, whatever is scheduled and enqueued, no more items are dequeued than workers were past their stop test |
| EpochStop.StoppedOnlyOnRequest | src/pipeline_worker.c:14 | no worker returns unless a stop was requested |
| EpochStop.EnteredTagIsCarried | src/pipeline_worker.c:31-36 | the epoch that a worker carries to the end of its round is the one that enter() returned for its record |
| EpochPool.WorkerPool.Step | src/pipeline_worker.c:14-46 | one atomic step of a worker on the shared fields is exactly the transition of the protocol |
| EpochPool.WorkerPool.RecordStep | src/epoch_barrier.c:25-36 | the steps of enter, the run and exit, in place |
| EpochPool.WorkerPool.DrainStep | src/epoch_barrier.c:38-52 | the four steps of drain, in place |
| GraphLoad.GraphConfigLoad | src/graph_config.c:109-391 | a document loads if and only if it is acceptable; the chain then realizes the graph and owes exactly its states; on any failure every state made is torn down and the chain cleared |
| GraphFile.GraphFileLoad | src/graph_config.c:109-391 | the text of a file loads if and only if it parses and what it denotes is acceptable; else nothing is left behind |
| GraphFile.SpelledGraphLoad | src/graph_config.c:109-391 | whatever white space, escapes and number forms a document is spelled with, of those that the reader keeps, its file loads if and only if it is acceptable |
| GraphLoad.FindNodeIdx | src/graph_config.c:76-86 | the first node with the id, if any |
| GraphLoad.ReadNodes | src/graph_config.c:146-178 | the node table is filled exactly when every node reads |
| GraphLoad.WireEdge | src/graph_config.c:180-238 | one edge is entered exactly when it resolves, its port is in range and its slot is free |
| GraphLoad.WireEdges | src/graph_config.c:180-238 | after the edges the table records exactly the wires; failure means that no graph with distinct slots is spelled |
| GraphLoad.FindRoot | src/graph_config.c:245-268 | finds the one node without a parent when no node has two; it fails only if no node can root a tree |
| GraphLoad.VisitNode | src/graph_config.c:286-372 | a node is accepted exactly when its stage, input type, state and ports fit; ownership of its state is accounted for on every path |
| GraphLoad.Walk | src/graph_config.c:281-379 | the walk terminates within the node count and succeeds exactly on sound graphs |
| GraphLoad.ValidateGraphFile | src/web_status.c:632-643 | a throwaway load says whether the file is acceptable and leaves no live state either way |
| GraphSpec.AcceptedIdsDistinct | src/graph_config.c:76-86 | accepted node ids are pairwise distinct although nothing checks it |
| GraphSpec.SpellsUnique | src/graph_config.c:146-238 | a document spells at most one graph |
| GraphLaws.SlotHoldsNamedStage | src/graph_config.c:289-292 | each slot of a loaded chain holds the first registered stage with the name of its node's type |
| GraphLaws.DefectiveNeverLoads | src/graph_config.c:124-238 | no document loads that has a node without id or type, of an unregistered type or with another on_invalid, an edge with an unknown end, on a port out of range or on a port beside invalid_target, no nodes or too many, or no short ring name |
| GraphLaws.NodeMeans | src/graph_config.c:148-177 | a node takes name, type and configuration from the document and passes flagged records on exactly if its on_invalid is "pass" |
| GraphLaws.EdgeMeans | src/graph_config.c:180-238 | an edge joins the first nodes with its ids, as the invalid edge exactly if it says so, else from the port of its number, or port 0 |
| GraphLaws.WrittenSpells | src/graph_config.c:146-238 | every graph with distinct ids can be written as a document that spells it |
| GraphLaws.WrittenLoadsIff | src/graph_config.c:240-379 | such a document loads if and only if the graph is one tree, every type is registered and starts up, exactly the declared ports are wired, and types fit along every edge |
| GraphTables.InDegreeCounts | src/graph_config.c:213-237 | the counter is 0 without a wire in, and at most 1 when no two wires share the target |
| GraphTables.DegreesMeanOneParent | src/graph_config.c:245-264 | counters of at most one everywhere, if and only if every node has at most one parent |
| GraphTables.KidsAreNew | src/graph_config.c:270-280 | no target of the next queue entry is in the queue: no visited set is needed |
| GraphTables.FrontierStep | src/graph_config.c:286-372 | processing an entry keeps the queue distinct, reachable and closed behind its head |
| GraphTables.ExhaustedQueue | src/graph_config.c:374-379 | the exhausted queue holds exactly the reachable nodes, and has the node count if and only if the graph is one spanning tree |
| PipelineChain.StageHost.Init | src/graph_config.c:303-308 | a successful init returns a state not seen before, which is owed a teardown if the stage has one |
| PipelineChain.StageHost.Teardown | src/graph_config.c:387-388 | only an owed state may be torn down, and it is owed no longer |
| PipelineChain.TeardownAll | src/graph_config.c:385-390 | the sweep tears down each state of the chain exactly once and no other |
| PipelineRun.PipelineRun | src/pipeline.c:13-110 | on every chain that unfolds into a tree the loop ends, agrees with the recursive evaluator on the verdict and on every process() call, and counts the record once in and once out |
| LoadedRun.RunLoaded | src/pipeline.c:13-110 | the same on any chain that the loader left: the run ends, goes from the root along the edges of the graph as the stages answer, visits no node twice, makes at most node-count calls, equals the evaluator, and with honest stages every call gets an accepted type |
| LoadedRun.LoadAndRun | src/graph_config.c:109-391 | exactly the acceptable documents load, and every record then runs so, whatever the stages answer |
| LoadedRun.WorkerRuns | src/pipeline_worker.c:32-33 | a worker's run is, on the shared counters, the two steps that the protocol takes for it |
| RunLaws.EvalFollows | src/pipeline.c:28-108 | after each call of a run on a loaded chain: a dropped record is dropped; a flagged one goes down the node's invalid edge, without one is dropped unless the node says "pass"; any other is forwarded by a leaf or goes down the edge of the answered port, or is dropped if there is none |
| PipelineRun.Process | src/pipeline.c:41-45 | one call reads its input unharmed and writes only the other buffer |
| PipelineRun.RunVisitsOnce | src/pipeline.c:28-106 | a run visits no node twice and makes at most node-count calls, whatever the stages return |
| PipelineRun.RunTypesHold | src/graph_config.c:281-372 | if each stage, given a type it accepts, produces its out_type wherever its output is read, every call of every run gets a type in its in_types, along normal and invalid edges |
| Router.RouterKeepsType | plugin-sdk/example_router_stage.c:113-119 | the router keeps that contract |
| Router.SinkKeepsType | src/stages/forward_udp_stage.c:107-124 | so does a sink that leaves its output alone |
| StageKinds.ModelledTypesHold | src/graph_config.c:281-372 | on every loaded chain of validate, byte_match, extract, convert, router and sinks, every call of every run gets a type in its in_types, with no hypothesis about the stages |
| StageKinds.CallStage | src/pipeline.c:41-45 | what a call of any of these stages returns and writes is an answer as that theorem takes it |
| StageKinds.GuardedReadsInside | src/stages/extract_stage.c:107-150 | on every run on a framed record, whatever path it takes, extract gets only records whose header declares no more than there is, if no extract lies below another or a convert without a validate between |
| StageKinds.ExtractNeedsGuard | src/stages/extract_stage.c:107-150 | whatever field an extract is configured for, some framed record makes it hand down one that a second extract cannot read inside |
| PipelineRun.OutOfRangeIsTheStages | src/pipeline.c:88-101 | a drop for an out-of-range port happens only at a node with ports whose stage answered none of them |
| PipelineSpec.LoadedChainUnfolds | src/pipeline.h:10-40 | every chain that the loader accepts unfolds into a finite tree from its root |
| PipelineSpec.PathsDistinct | src/graph_config.c:240-268 | no path from the root of an accepted graph repeats a node |
| EpochInvariants.RecordsStep | src/pipeline.c:18-109 | under any interleaving of workers, records_in is dropped plus forwarded plus runs in progress, in 64 bits |
| JsonInPlace.JsonParse | src/json.c:301-320 | on every text that keeps the cursor inside and that the source alone decides, malformed \u escapes and hexadecimal numbers included, the in-place parser fails exactly when the pure one does, and otherwise its tree, read through the rewritten buffer, is the pure one's value |
| JsonInPlace.Parser.ParseStringBody | src/json.c:62-106 | the unescaped string lies before the cursor, is terminated there, and nothing unread or earlier is touched |
| JsonInPlace.Parser.CloseString | src/json.c:103-105 | the terminator falls on the closing quote at the latest |
| JsonInPlace.Parser.ParseValue | src/json.c:284-299 | a value is read as the text says, nothing before it or after it written; recursion ends on the text left |
| JsonInPlace.Parser.ParseItems | src/json.c:185-214 | the array loop yields the items in order |
| JsonInPlace.Parser.ParseMembers | src/json.c:234-281 | the object loop yields keys and values in order |
| JsonInPlace.TreeKept | src/json.c:68-104 | writes outside the stretch that holds its strings do not change what a tree denotes |
| JsonSyntax.DocumentIff | src/json.c:301-320 | for every text and value: the text is accepted as that value if and only if it is the value, in the reader's grammar of literals, strings, numbers, arrays and objects, with white space around it and nothing else |
| JsonSyntax.RefusedIff | src/json.c:301-320 | a text is refused if and only if it is no such thing |
| JsonSyntax.EscapeIff | src/json.c:75-101 | the escapes are seven characters and \u with four more |
| JsonCycle.ParseExactly | src/json.c:301-320 | the parser in place accepts exactly the texts of that grammar, and its tree denotes their value |
| JsonPrint.TrailingRefused | src/json.c:313-318 | every RFC value followed by anything but white space is refused, whatever the value |
| JsonCycle.RefuseTrailing | src/json.c:313-318 | and the parser in place returns nothing for it |
| JsonLoose.ScanReads | src/json.c:84 | `sscanf("%4x")` takes white space, a sign, 0x and up to four characters, with the value of the digits or its 32-bit complement |
| JsonLoose.HexIntegerReads | src/json.c:127-132 | hexadecimal integers of any length are numbers of their value |
| JsonLoose.LoneMinusRefused | src/json.c:127-132 | a minus sign without a number is refused |
| JsonBounds.EscapeOverrunsIff | src/json.c:82-93 | an escape takes the cursor out if and only if it is \u, `sscanf()` matches, and fewer than four characters follow |
| JsonBounds.StaysInside | src/json.c:62-106 | on no text without such an escape does the cursor leave the text, however the text is nested |
| JsonBounds.WholeEscapesStayInside | src/json.c:82-93 | four characters after every \u are enough |
| JsonBounds.CutStringOverruns | src/json.c:82-93 | a string that ends in such an escape, whatever precedes it, does take the cursor out |
| JsonValues.ObjectGet | src/json.c:350-359 | the value of the first member with the key |
| JsonValues.LookupFirst | src/json.c:350-359 | lookup finds a member if and only if there is one, and it is the first |
| JsonPrint.DocumentReads | src/json.c:301-320 | every RFC 8259 text with white space around it is read to its end, or refused if and only if it uses \b or \f |
| JsonPrint.ValueReads | src/json.c:108-299 | the same of a value inside a text, for every kind of value |
| JsonPrint.BodyReads | src/json.c:68-104 | a string body is read piece by piece, or refused exactly for an unknown escape |
| JsonPrint.NumberReads | src/json.c:124-141 | every RFC number, and every one with leading zeros, is consumed whole and has its exact value |
| JsonPrint.StrtodIsExact | src/json.c:127-128 | whole part plus fraction, scaled last, is all digits as one integer scaled once |
| JsonPrint.DigitsJoin | src/json.c:127-128 | appending digits shifts those before them |
| JsonRoundTrip.ParseInvertsPrint | src/json.c:38-43 | a value printed in any way the RFC allows comes back if and only if the print uses neither \b nor \f and \u only for characters 1 to 7f |
| JsonRoundTrip.ExactIff | src/json.c:82-93 | what is read is what the RFC means if and only if every \u escape names a character 1 to 7f |
| JsonRoundTrip.StringExactIff | src/json.c:82-93 | the same of one string |
| JsonRoundTrip.PrintedIsReadable | src/json.c:301-320 | RFC texts are C strings on which the result of the in-place parser is fully determined |
| JsonRoundTrip.SpellValue | src/json.c:108-299 | every value with NUL-free strings and integer numbers, of any depth, has a print that comes back |
| JsonRoundTrip.Decimal | src/json.c:127-128 | decimal digits without leading zeros, whose value is the number |
| JsonCycle.ParsePrinted | src/json.c:301-320 | a printed value parsed in place is refused exactly for \b or \f, and its tree, read through the rewritten buffer, is the value exactly if every \u names a character 1 to 7f |
| JsonCycle.PrintThenParse | src/json.c:301-320 | every value with NUL-free strings and integer numbers survives print and parse |
| JsonCycle.ReportThenParse | src/web_status.c:675-692 | the body of a validation error, parsed in its buffer, gives the failure and what was written of the message, all of it up to 255 characters, or nothing exactly if its end did not fit |
| JsonEscape.JsonEscapeAppend | src/web_status.c:334-343 | writes exactly the escaped text that fits, never half a pair, terminates it, and touches nothing else |
| JsonEscape.Fit | src/web_status.c:337-341 | how much fits: all, or up to less than a pair and a terminator of room |
| JsonEscape.FitsWhole | src/web_status.c:337-341 | all of it when twice its length fits |
| JsonEscape.Unescapes | src/web_status.c:337-341 | the reader recovers exactly the escaped text |
| JsonEscape.EscapesOnlySpecials | src/web_status.c:337-341 | quotes and backslashes get a backslash and nothing else does |
| JsonEscape.ClosesIffFits | src/web_status.c:687-690 | a report is closed if and only if its end and terminator fit |
| JsonEscape.ValidationErrorBody | src/web_status.c:683-692 | the buffer holds the report, whole or cut |
| JsonEscape.ReportParses | src/web_status.c:683-692 | a report parses if and only if its end still fits, and then gives ok false and as much of the message as was written |
| JsonEscape.ReportsWholeMessage | src/web_status.c:675-692 | every message of at most 255 characters is reported whole and parses back |
| Checksum.AddWords | src/common.c:53-57 | the loop adds the 16-bit words of its bytes, odd tail padded, in 32 bits |
| Checksum.FoldCarries | src/common.c:58-59 | the fold ends with the one's-complement sum of section 1 of RFC 1071 |
| Checksum.OnesComplementUnique | src/common.c:58-59 | that sum is unique |
| Checksum.IpChecksum | src/common.c:50-61 | the complement of the header's sum |
| Checksum.UdpChecksum | src/common.c:70-93 | the complement over pseudo-header and segment, 0xFFFF in place of 0 |
| Checksum.ComplementVerifies | src/common.c:58-92 | a sum plus its complement, or plus 0xFFFF in place of 0, is all ones |
| FrameChecks.WordsAreTheNumber | src/common.c:53-57 | the sum of the words is, modulo 0xFFFF, the padded bytes as one big-endian number |
| FrameChecks.PseudoHeaderIs | src/common.c:76-81 | the pseudo-header sum is that of addresses, 0, 17 and the length as bytes |
| Frames.AppBuildPacket | src/common.c:95-169 | -1 exactly when the content, summed in 32 bits, does not fit the frame or the frame the buffer, with nothing written; otherwise exactly the frame, and no byte after it |
| FrameChecks.FrameFields | src/common.h:20-45 | every field of a built frame lies where the documented layout puts it |
| FrameChecks.ParsesExactly | src/common.c:171-208 | a buffer is accepted if and only if it consists of addresses, the IPv4 type, an IPv4 header of the length it declares, a UDP segment of the length it declares, and a rest |
| FrameChecks.ParsedParts | src/common.c:171-208 | and then the segment's port, sequence number and payload are reported |
| FrameChecks.PacketRoundTrip | src/common.c:95-208 | whatever follows it, a built frame parses to its port, sequence number and payload with exactly the zero padding, if and only if the UDP length fits 16 bits |
| FrameChecks.IpLengthRight | src/common.c:130-133 | the IPv4 length field is right if and only if the length fits 16 bits |
| FrameChecks.IpChecksumVerifies | src/common.c:127-142 | the header of every software-checksummed frame sums to 0xFFFF; with hardware checksums the field is 0 |
| FrameChecks.UdpChecksumVerifies | src/common.c:144-166 | for every frame length: pseudo-header plus segment sum to 0xFFFF with the true length exactly when the 32-bit sum did not wrap, with the declared length exactly when sum and length wrap alike, always when the length fits its field; the checksum is never 0 |
| RecordFormat.HeaderFrames | src/record.h:49-55 | a header made for a payload declares exactly that payload, with every field at its place |
| RecordFormat.LeInverse | src/record.h:49-55 | little-endian fields read back |
| RecordFormat.BeInverse | src/stages/extract_stage.c:64-70 | big-endian bytes read back |
| RecordFormat.BeFirst | src/stages/extract_stage.c:54-61 | the first byte of a big-endian field counts most |
| RecordFormat.LeLast | src/record.h:49-55 | the last byte of a little-endian field counts most |
| Stages.Validate.Process | src/stages/validate_stage.c:62-91 | passes exactly the framed records, unchanged, flags those with a wrong magic, and counts each |
| Stages.HexDecode | src/stages/byte_match_stage.c:71-88 | decodes exactly the even-length hex strings that fit |
| Stages.HexInverse | src/stages/byte_match_stage.c:71-88 | every byte string has a spelling that decodes to it, taken if there are any bytes and they fit |
| Stages.HexIsBigEndian | src/stages/byte_match_stage.c:71-88 | the bytes decoded are the digits read as one big-endian number |
| Stages.ByteMatchInit | src/stages/byte_match_stage.c:90-127 | accepts exactly a decodable magic with no mask or one of its length |
| Stages.ByteMatch.Process | src/stages/byte_match_stage.c:130-164 | passes records that can hold the magic, unchanged, flagged unless the masked bytes match, each counted once |
| Stages.FullMaskIsEquality | src/stages/byte_match_stage.c:119-121 | without a mask, matching is equality |
| Stages.MatchesBitwise | src/stages/byte_match_stage.c:144-147 | a record matches if and only if it agrees with the magic in every bit that the mask sets |
| Stages.GetBe | src/stages/extract_stage.c:54-61 | the big-endian value of the field, without wrap |
| Stages.PutBe64 | src/stages/extract_stage.c:63-70 | the eight big-endian bytes of the value |
| Stages.ExtractInit | src/stages/extract_stage.c:72-105 | a configuration is made if and only if the mode is known and its size allowed |
| Stages.ExtractProcess | src/stages/extract_stage.c:107-150 | the field's value, the slice, or the flagged original, on every record whose header does not overstate its payload |
| Stages.ReadsInsideIff | src/stages/extract_stage.c:114-143 | extract reads inside a record whatever its configuration if and only if the header does not overstate the payload |
| Stages.ConvertProcess | src/stages/convert_stage.c:44-68 | takes exactly eight-byte inputs and decodes their big-endian value |
| HandOff.RingRecordIsValid | src/stages/ring_output_stage.c:135-155 | a re-framed record is framed with the input as payload and its header fields readable, validate never flags it, and byte_match keeps it so |
| HandOff.ExtractOnFramed | src/stages/extract_stage.c:114-138 | on framed records, flagged exactly when the field is missing, and then whole |
| HandOff.NumericReachesConvert | src/stages/convert_stage.c:49-52 | convert receives the field's big-endian value below 256 to its width, and never a record that extract flagged |
| HandOff.BytesReachConvert | src/stages/convert_stage.c:49-50 | of slices, convert takes exactly those of eight bytes |
| HandOff.RingRoundTrip | src/stages/ring_output_stage.c:135-155 | bytes mode over a ring hop returns any slice of the original record, and all of it |
| Router.RouterInit | plugin-sdk/example_router_stage.c:50-89 | the declared count is one more than the highest port mentioned, in 32 bits |
| Router.RouterProcess | plugin-sdk/example_router_stage.c:98-119 | the record unchanged, for the first matching route of its last byte |
| Router.FirstRouteCounts | plugin-sdk/example_router_stage.c:98-112 | a record goes to the port of the first route for its last byte, else to the default |
| Router.PortBelowCount | plugin-sdk/example_router_stage.c:91-119 | the port is below the declared count if and only if no port is the largest unsigned int |
| Router.RouterNeverOutOfRange | src/pipeline.c:82-101 | no run drops a record for an out-of-range port at a router |
| RingSpace.StepInv | src/stages/ring_output_stage.c:108-203 | every open, enqueue, dequeue, release and teardown keeps ownership and conservation |
| RingSpace.OneLiveCreator | src/stages/ring_output_stage.c:108-120 | in every run each existing ring has exactly one live creator and a freed one none |
| RingSpace.NoBlobLost | src/stages/ring_output_stage.c:129-203 | in every run each blob is in one ring, held, or freed, exactly once; after the last teardown all are freed exactly once |
| RingSpace.OnlyCreatorDrains | src/stages/ring_output_stage.c:174-200 | one action appends one blob, takes the first, or is the creator's teardown; nothing else touches an existing ring |
| RingLaws.EnqueueStep | src/stages/ring_output_stage.c:157-165 | an enqueued blob is the last on its ring whenever there is room, and freed if not |
| RingLaws.DequeueStep | src/pipeline_worker.c:17-21 | a dequeue hands over the first blob |
| RingLaws.OpenStep | src/stages/ring_output_stage.c:108-120 | an open attaches to the one ring of the name or creates an empty one it owns |
| RingLaws.TeardownStep | src/stages/ring_output_stage.c:168-203 | the creator's teardown frees every blob left and the ring, any other's nothing |
| RingLaws.FirstInFirstOut | src/stages/ring_output_stage.c:157-165 | over any run that a ring lives through, what was put on it in order is what was taken in order and what it holds |
| RingSpace.ThrowawayIsIdentity | src/stages/ring_output_stage.c:86-107 | init and teardown against an existing ring change no ring and no blob |
| RingSpace.ThrowawayLeavesNames | src/stages/ring_output_stage.c:174-200 | against a free name they leave every name as it was |
| RingSpace.FreedForGood | src/stages/ring_output_stage.c:194-200 | in every run a freed ring stays freed and empty, and nothing that would touch it is allowed again |
| RingSpace.CreatorGoneFirst | src/main.c:509-526 | after the creator's teardown no allowed run enqueues or dequeues through any handle on its ring: why producers must stop first |
| RingStage.RingOutput.Init | src/stages/ring_output_stage.c:75-127 | creates before it looks up, attaches on EEXIST only |
| RingStage.RingOutput.Process | src/stages/ring_output_stage.c:129-166 | the re-framed record, under its own sequence number, is the last on its ring and nothing is freed, or it is freed at once and no ring changes; every counter |
| RingStage.RingOutput.Teardown | src/stages/ring_output_stage.c:168-203 | drains and frees the ring exactly when it created it |
| RingStage.RingHost.RingInputCreate | src/ring_input.c:5-41 | looks up before it creates |
| RingStage.RingHost.Drain | src/main.c:533-535 | the loop empties the ring and frees every blob in it once |
| PluginLoader.Loader.StageRegistryFind | src/plugin_loader.c:24-31 | the first slot with the name |
| PluginLoader.Loader.RegisterStage | src/plugin_loader.c:107-137 | skips an invalid descriptor, refuses a taken name or a full registry, else appends |
| PluginLoader.Loader.LoadOnePlugin | src/plugin_loader.c:146-219 | every path of a single-stage plugin, a loomlet and a bad file, with its closes |
| PluginLoader.Loader.Load | src/plugin_loader.c:221-246 | in order, up to the first fatal plugin |
| PluginLoader.Loader.Shutdown | src/plugin_loader.c:248-274 | the nested reverse walk closes what the specification lists, in that order |
| PluginSpec.LoadSound | src/plugin_loader.c:107-246 | for any plugins names stay distinct, and after a successful load every registered handle is open once |
| PluginLaws.LoadsExactlyOffered | src/plugin_loader.c:107-246 | loading succeeds if and only if every valid stage offered has a new name and a free slot, and then registers exactly these, in order, each for its library; on failure, those before the first misfit |
| PluginLaws.LoadKeepsOpen | src/plugin_loader.c:146-219 | after a successful load exactly the usable libraries stay open and all others have been closed, in order |
| PluginSpec.FindUnique | src/plugin_loader.c:24-31 | a registered name has one slot, and lookup returns it |
| PluginSpec.ClosesEachOnce | src/plugin_loader.c:248-274 | each distinct registered handle is closed exactly once, newest first, and no other |
| PluginSpec.LoadThenShutdown | src/plugin_loader.c:221-274 | after any successful load, shutdown closes every registered handle while it is open and leaves it closed |

## Left out

- JsonInPlace.JsonParse: outside the contract are texts on which the cursor leaves the buffer, where what the source reads is not the text's (`JsonBounds` says which they can be); \u followed by 0x and no hex digit, which C libraries match differently; and -inf or -nan, which `strtod()` takes but which are no numbers.
- JsonInPlace.Parser.ParseStringBody: the same two kinds of \u escape.
- JsonInPlace.Parser.ParseValue: the same three kinds of text.
- JsonInPlace.Parser.ParseItems: the same three kinds of text.
- JsonInPlace.Parser.ParseMembers: the same three kinds of text.
- GraphFile.GraphFileLoad: the same three kinds of text.
- JsonBounds.StaysInside: one way only; a cut escape outside a string, or behind a syntax error, does no harm.
- StageKinds.GuardedReadsInside: the guard is sufficient; a chain without it may still be safe because of what its routers and patterns let through.
- Rounding in `strtod()`: numbers are exact reals.
- Allocation failures inside the JSON reader, the graph loader and the stages' `init()`, beyond `init()` itself answering NULL.
- Memory that `json_parse()` abandons on a syntax error, and `json_free()`.
- Reading files, `errbuf` texts, logging, and the length limit on `ring_name` as a buffer size (it is part of the header check).
- `raw_len` above the scratch size: `PipelineRun.PipelineRun` requires that the record fits, as the source assumes.
- Frames.AppBuildPacket: a payload so long that header plus payload wraps 32 bits into the accepted range, on which the source would write past its buffer, is the caller's to rule out; one that wraps out of range is refused, as in the source.
- Looking up the stages' settings in their JSON configuration, and the conversion of doubles to unsigned values: the values read are parameters of each `init()`.
- Floating-point calibration in convert: an arbitrary function of the decoded value.
- Stages' own state across runs beyond the counters named above: a behaviour may depend on the call number, which covers it within a run.
- A ring's `EEXIST` followed by the owner freeing it before the lookup: opening is one step.
- Rings of DPDK: a FIFO with a capacity (how many items it holds, not the size asked for), with atomic append and pop; memory of other processes, EAL, sockets, the HTTP server and the web user interface.
- forward_udp, dump_binary, dump_text, null_sink, config schemas and get_status: input and output, or one-branch code that would add only easy members.
- Loomlets whose `loom_stage_entry_at` never returns NULL.
- `app_parse_ipv4()`: one `sscanf()` call.
