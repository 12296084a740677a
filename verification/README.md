# Verification of gput

gput answers network traffic twice over: a simple CPU form and an optimised GPU form of the same
service.  This project models both forms of both of its stacks in Dafny and proves that they mean
the same.  `dafny verify dfyconfig.toml` checks everything.

**Packets.**  The CPU engine is a TCP state machine over a map of flows.  The shader runs the same
machine in parallel threads over an open-addressed slot table with released slots, compare-exchange
claims and a probe limit; the host cuts every batch into waves with at most one packet per flow.
Proved: every interleaving of every sequence of dispatches, whatever the packets, keeps the table
well formed, every search of it deciding membership, and is equivalent to the threads running alone,
so that each flow is what its own packets make of it; the scheduler's waves place every packet
exactly once and keep each flow's order exactly when the word budget allows it; and the GPU engine as
a whole, from raw packets to raw packets, under any fair schedule of its threads and over any number
of batches, delivers at every source index the bytes the CPU engine sends, both checksums included,
and keeps the same flow table, outside two kinds of packet on which the engines differ: a batch
draws the same replies exactly when it holds none of them.  What both engines compute is also told
from the bytes alone: which packets parse and to what, which response a payload selects, what a valid
checksum says of the number the bytes denote, and that every reply goes back to where its packet came
from.

**HTTP.**  A router declaration is compiled into a hash-ordered route table, interned strings and
body bytecode; a shader parses requests, looks routes up and interprets the bytecode through a
writer that buffers one pending word.  Proved: compiling and interpreting preserve the meaning of
every declaration, for every request; the two request parsers agree under an exact condition; no
request makes the writer overflow its slot; and every answer of either backend, in its bytes, has the
declared header and announces the length of the body that follows it, for a request told apart by its
own bytes.

**Connections and batching.**  Framing of requests depends on the bytes and the limit, not on how
the stream is cut into reads; the batcher, in every interleaving, loses nothing and answers
everything once.

## How the model is built

- Machine integers are bounded mathematical integers (`Bits`), with wrap-around written out.  `&`,
  `|` and `^` are defined bit by bit; lemmas say when they coincide with arithmetic.  Words are
  little-endian, as on the GPU and on a little-endian host.
- Code that updates state in place is imperative: classes `CpuPacketEngine`, `GpuPacketEngine`,
  `FlowSet`, `StringTable`, `Writer` and `Connection`, arrays for the slot table and the output buffers, loops where the
  source loops.  Each method is proved against a specification function or predicate, and the
  theorems are about those.
- A dispatch is a set of threads, each a program counter over the shared slot table.  One atomic
  action is a state load with the key comparison it guards, a compare-exchange, an atomic store, or
  the writes to a slot its thread owns.  A schedule names the thread that acts next; theorems hold
  for every schedule.  A thread's reply is written in the turn that settles it: no other thread
  reads or writes those words, so the moment does not matter.
- The scheduler does not look at the results of a dispatch, so `GpuPacketEngine` computes the waves
  of a batch before it dispatches the first.
- The batcher is a transition system; a run is any sequence of enabled actions.
- Byte strings stand for the program's strings; response texts of the packet engines are arbitrary
  texts that fit a packet, since only their lengths and contents as bytes matter.

## Hypotheses

The theorems name these conditions where they need them.  Where a condition is the exact one, the
equivalence is proved.

- Wave order: the word budget covers a full wave of the largest packets (`Scheduler.Unclamped`);
  exact, by `WaveBudget.OrderKeptExactly`.
- Engines: the packet is not a SYN that resets, nor a SYN with a new number on a half-open flow
  (`Shader.Differs`); exact for one step, by `Shader.StepsAgreeExactly`, and for the replies of a
  batch, by `ReplyAgreement.RepliesMatchExactly`.  The table over any sequence of dispatches
  (`TableHistory`) needs none of this.  The flows and the batch's
  flows fit the CPU engine's capacity; on the GPU either the dispatches complete without dropping a
  SYN, or no more flows than the probe limit compete for the probe path of any flow of the batch
  (`FairBatches.RoomForBatch`), as when there are no more flows than that.
- Claims: a compare-exchange fails only when the value differs, and a state load is atomic with the
  key comparison it guards.
- HTTP responses: the body of the selected response does not use the reserved header tail; exact,
  by `HttpGpu.ResponsesAgreeExactly` and `HttpGpu.AnswersAgreeExactly`.
- HTTP requests: `HttpParse.ParsesAlike`; exact, by `HttpParse.OutcomesAgreeExactly`.
- Routers: acceptable, and everything fits its machine size; exact, by `RouterCompiler.Compile`.
- Backend names: the host's statements about the bytes of an answer are for a name without CR, which
  would end a header line; the source's names are words.
- Sizes: the largest response, rounded up to words, fits u32 (exact, by
  `HttpGpu.CapacityFitsExactly`); requests are shorter than 2^32 - 16 bytes, so that the shader's
  look-ahead past the target does not wrap; byte indexes into the string arena and word indexes
  into the packed input and the output buffers stay below 2^32 (`HttpGpu.Serving`,
  `HttpGpu.IndexesFit`, `PacketMain.FitsLayout`, `PacketWords.Input`).

## Model

| member | source | states |
|---|---|---|
| `Wire.SchedulerSeesParsedKey` | src/packet/wire.rs:41-56 | Every packet the engines parse is scheduled under the key it is parsed with, although the scheduler looks at less of it |
| `WireTheorems.BuildParses` | src/packet/wire.rs:58-93 | Parsing inverts building, for every key, sequence number, acknowledgement, flag byte and payload that fits; the scheduler's parser finds the same key |
| `WireTheorems.BuildValidates` | src/packet/wire.rs:95-117 | Both checksums of every built packet validate |
| `WireTheorems.ValidExactly` | src/packet/wire.rs:95-117 | A packet validates if and only if its lengths hold and two byte strings, its header and its segment behind the pseudo-header of section 3.1 of RFC 9293, padded to whole words denote positive multiples of 0xffff |
| `WireTheorems.BuiltIsSound` | src/packet/wire.rs:58-93 | Every built packet meets that in its bytes, and is an unfragmented IPv4/TCP packet of its announced length |
| `WireTheorems.FlowHashIs` | src/packet/wire.rs:119-125 | The flow hash is four steps of FNV-1a from the offset basis, written out |
| `WireTheorems.ServerIsnIs` | src/packet/cpu.rs:119-119 | The server's initial number differs from the flow hash in a fixed pattern of bits |
| `WireLayouts.LaidParses` | src/packet/wire.rs:127-163 | Every layout of a segment parses to it: up to forty bytes of options in either header, any other header fields, any bytes behind the packet |
| `WireLayouts.ParsesExactly` | src/packet/wire.rs:127-163 | A packet parses to a segment if and only if it is such a layout of that segment; nothing else parses |
| `WireLayouts.IgnoresExactly` | src/packet/cpu.rs:102-107 | An engine ignores exactly the packets that are no layout of any segment to its port |
| `PacketBuilder.BuildIpv4TcpPacket` | src/packet/wire.rs:58-93 | The builder, writing fields and checksums into its buffer, produces exactly the packet layout of section 3.1 of RFC 791 and section 3.1 of RFC 9293 |
| `Checksum.FoldChecksum` | src/packet/wire.rs:196-201 | Folding until the high half is empty gives the one's-complement checksum of the whole sum |
| `Checksum.ShaderFold` | src/packet/packet.wgsl:195-200 | Folding exactly twice gives the same checksum, for every u32 sum |
| `Checksum.SumIsNumber` | src/packet/wire.rs:187-193 | The sum of a region is, modulo 0xffff, the big-endian number its bytes denote when padded on the right to whole words, and zero exactly with it |
| `Checksum.SumChunks` | src/packet/wire.rs:165-194 | The loop over byte pairs computes the sum of section 1 of RFC 1071, odd lengths and a skipped field included, without u32 overflow on packet-sized input |
| `CpuEngine.CpuPacketEngine.ProcessPacket` | src/packet/cpu.rs:97-212 | The code that updates the flow map branch by branch is the table step of the TCP state machine (sections 3.4, 3.5 and 3.10.7 of RFC 9293), reply packet included; in bytes, the packet sent has the received packet's addresses and ports exchanged, valid checksums, the flags of a reply, and after its header nothing or the text recorded for the flow |
| `CpuEngine.CpuPacketEngine.ProcessBatch` | src/packet/cpu.rs:68-86 | A batch is the arrival-order run of its packets; every output sits at its source index and, in its bytes, answers the sender of the packet there |
| `ReplyBytes.FlagBits` | src/packet/wire.rs:5-9 | The control bits of section 3.1 of RFC 9293 are at their places in the flags byte |
| `ReplyBytes.ReplyIsReceived` | src/packet/cpu.rs:237-243 | The packet a reply becomes, told from the bytes of both packets: addresses and ports exchanged, both checksums valid, SYN and ACK only for a SYN without ACK, PSH and ACK exactly with a response text |
| `Accounting.PacketKeeps` | src/packet/cpu.rs:114-211 | One packet on an ideal, unbounded account of bytes received and issued is the engine's step on u32 counters, with the same reply |
| `Accounting.EveryTableKeepsBooks` | src/packet/cpu.rs:109-211 | In every reachable table each flow's counters are, modulo 2^32, its initial numbers plus the bytes accepted and issued, its last response ends at both counters, half-open flows hold only initial values, and the table never exceeds its capacity |
| `Replay.QuietRunKeeps` | src/packet/cpu.rs:157-188 | Any run of segments without new in-order data, FIN or RST leaves the sequence state and the saved response alone |
| `Replay.ReplaysRepeatTheResponse` | src/packet/cpu.rs:161-175 | After accepted data, repeating it any number of times between such segments draws the same reply every time |
| `FlowTable.SlotAtIs` | src/packet/packet.wgsl:129-129 | Masking the wrapped sum of hash and probe is the remainder of the unwrapped sum: the probe path is a cyclic walk of the table |
| `FlowTable.HoldersAreEarly` | src/packet/packet.wgsl:118-143 | A stored key lies before the first free slot of its probe path, despite released slots and reuse |
| `FlowTable.MissedIsAbsent` | src/packet/packet.wgsl:131-142 | A search that stops at a free slot or at the limit proves the key is not stored |
| `FlowTableMethods.FlowFind` | src/packet/packet.wgsl:118-143 | Finds the slot that holds a key, and none exactly when the key is not stored; the slot is that of the specified search |
| `FlowTableMethods.FlowClaim` | src/packet/packet.wgsl:145-188 | Claims the first free or released slot of the path and keeps the table well formed; fails only when the whole path is taken |
| `FlowTableMethods.FlowRelease` | src/packet/packet.wgsl:190-193 | Releases a flow, keeps the table well formed and no other flow is touched |
| `FlowTableMethods.RunInPlace` | src/packet/packet.wgsl:600-697 | The in-place field updates of the step are the specified step of the slot, with the request classified in the input words |
| `FlowTableMethods.ShaderMain` | src/packet/packet.wgsl:540-697 | The main step of a thread that runs alone does the specified step to its own flow and nothing to any other; it finds no slot only for a new flow whose path is taken throughout |
| `Dispatch.StepKeepsInv` | src/packet/packet.wgsl:118-193 | Every atomic action of every thread keeps the table well formed and keeps what every other thread knows about it |
| `Dispatch.RunKeepsInv` | src/packet/packet.wgsl:118-193 | So does every interleaving of a dispatch over distinct keys: each live flow stays in exactly one slot, within the probe limit, with no free slot before it |
| `Dispatch.RunKeepsOtherFlows` | src/packet/packet.wgsl:118-193 | Flows that no thread carries are stored as before, under every interleaving |
| `Dispatch.DispatchIsSequential` | src/packet/packet.wgsl:494-697 | Under every interleaving each finished thread has the outcome, and its flow the state, it would have had alone |
| `Dispatch.EveryActionProgresses` | src/packet/packet.wgsl:118-188 | Whatever the other threads do, each own action brings a thread closer to its end, within three times the probe limit plus seven |
| `Capacity.NoSynIsDropped` | src/packet/packet.wgsl:145-188 | When no more keys than the probe limit, live or in the dispatch, compete for the probe path of a packet's flow, no interleaving drops a SYN, whatever the size of the table |
| `Capacity.FewKeysHaveRoom` | src/packet/packet.wgsl:145-188 | That is so whenever the live flows and the dispatch's are no more than the probe limit |
| `Shader.StepsAgreeExactly` | src/packet/packet.wgsl:543-697 | The shader's step and the CPU's step give the same flow and the same reply if and only if the packet is not a SYN that resets or a SYN with a new number on a half-open flow |
| `Shader.ResetSynDiffers` | src/packet/packet.wgsl:543-590 | A SYN that also resets: the CPU drops it, the shader opens a flow and answers |
| `Shader.NewSynDiffers` | src/packet/cpu.rs:127-132 | A second SYN with another number: the CPU acknowledges the new number, the shader the old one |
| `Shader.LengthsDecide` | src/packet/cpu.rs:214-234 | The state machine depends on the lengths of the response texts only, so the CPU's renamed texts of equal length change no state |
| `FlowSets.FlowSet.Begin` | src/packet/mod.rs:85-104 | Starts an empty set with room for the expected keys, through buffer growth and generation wrap-around |
| `FlowSets.FlowSet.Insert` | src/packet/mod.rs:106-120 | Returns true exactly for keys new since the last begin, adds them, and its cyclic probe ends |
| `Scheduler.WaveWithinLimits` | src/packet/mod.rs:838-871 | A wave keeps both limits, carries each flow at most once, and with the deferred packets makes up the pending ones |
| `Scheduler.EmptyWaveExactly` | src/packet/mod.rs:850-861 | A wave is empty exactly when waves hold nothing or no pending packet fits one |
| `Scheduler.WavesPartition` | src/packet/mod.rs:675-745 | Every packet of a batch is placed in exactly one wave; every wave is non-empty, within both limits, and carries each flow at most once |
| `Scheduler.WavesAreFull` | src/packet/mod.rs:838-871 | No packet of a later wave would have fitted an earlier one: that wave is full, or its words do not allow the packet, or it carries the packet's flow |
| `Scheduler.WavesKeepFlowOrder` | src/packet/mod.rs:858-870 | With the word budget unclamped, the waves keep the arrival order of every flow |
| `Scheduler.FillNextWave` | src/packet/mod.rs:838-871 | The filling loop over the generation-stamped set computes the specified wave and the deferred packets |
| `Scheduler.FillInitialWave` | src/packet/mod.rs:873-906 | So does the first loop, which also computes the scheduling keys |
| `Scheduler.ProcessBatch` | src/packet/mod.rs:675-745 | The wave loop terminates and dispatches exactly the specified waves |
| `WaveBudget.ClampedBudgetReorders` | src/packet/mod.rs:356-362 | For every budget below a full wave of the largest packets there is a batch of two data segments of an open flow in which the later overtakes the earlier, and draws another reply than in arrival order |
| `WaveBudget.HandshakeOpens` | src/packet/cpu.rs:114-156 | The table that reply is drawn from is one the engine reaches: a client's SYN and acknowledgement lead to it from the empty table |
| `WaveBudget.OrderKeptExactly` | src/packet/mod.rs:838-906 | Per-flow order is kept on every batch if and only if the word budget covers a full wave of the largest packets |
| `FlowOrder.PlayIsPerFlow` | src/packet/cpu.rs:82-84 | A run of packets changes each flow as that flow's packets alone do |
| `FlowOrder.SameTable` | src/packet/mod.rs:703-741 | Two orders that agree within every flow end in the same flow table |
| `FlowOrder.SameReply` | src/packet/mod.rs:703-741 | Under two such orders every packet draws the same reply |
| `Batches.WaveSimulates` | src/packet/packet.wgsl:494-697 | One dispatch, in any interleaving, does to the slot table what the CPU does to its map, and draws the same replies |
| `Batches.WavesRunAsArrived` | src/packet/mod.rs:675-745 | The scheduler's waves, each in any interleaving, give every packet its arrival-order reply and leave the table standing for the arrival-order flows |
| `PacketEngines.FairDispatchCompletes` | src/packet/packet.wgsl:118-193 | Any schedule that gives every thread enough turns finishes the dispatch, and drops no SYN when the packets' probe paths have room |
| `PacketEngines.GpuBatchIsCpuBatch` | src/packet/mod.rs:675-745 | For every batch whose waves complete, outside the two excluded kinds of packet, GPU and CPU engine give the same reply at every source index and the same flow table |
| `FairBatches.FinishedLeavesNoClaim` | src/packet/packet.wgsl:156-183 | A finished dispatch leaves no slot claimed |
| `FairBatches.FewFlowsHaveRoom` | src/packet/mod.rs:29-30 | A batch has room on every probe path when the existing flows and its own are no more than the probe limit, as with the default limit of 32 in a table of 4096 |
| `FairBatches.FairBatchIsCpuBatch` | src/packet/mod.rs:675-745 | The same without assuming completion: under every fair schedule, for any probe limit and table size, when the flows fit the CPU's capacity and the probe paths of the batch's flows have room; the table is then ready for the next batch |
| `FairBatches.FreshTable` | src/packet/packet.wgsl:48-53 | A zeroed table of any admissible size stands for the empty map, so the above applies from the start |
| `ReplyAgreement.RepliesMatchExactly` | src/packet/mod.rs:675-745 | Under the same conditions, but whatever the packets: every packet of a batch draws the CPU engine's reply if and only if none of them is, on its arrival, one of the two excluded kinds |
| `TableHistory.HistoryKeepsTable` | src/packet/packet.wgsl:118-193 | After any sequence of dispatches, whatever their packets, however interleaved and finished or not, every live flow has exactly one slot, within the probe limit of its path, with no free slot before it |
| `TableHistory.SearchAfterHistory` | src/packet/packet.wgsl:118-143 | After any such history the search of `flow_find` finds the slot of a key exactly when the table stores the key |
| `TableHistory.UncarriedFlowStays` | src/packet/packet.wgsl:118-193 | A flow that no dispatch of the history carries is stored as it was at the start |
| `TableHistory.TableIsItsFlows` | src/packet/packet.wgsl:494-697 | What the table stores for a key after any history of finished dispatches is what the key's own segments, one step each and in order, make of what it stored first; only a dropped SYN makes no step |
| `TableHistory.RepliesAreOfTheirFlows` | src/packet/packet.wgsl:494-697 | Under schedules with enough turns every packet of every dispatch draws the reply its flow alone would draw, or is a SYN, of a flow that is not stored, for which no slot was left |
| `TableHistory.EveryBatchKeepsTable` | src/packet/mod.rs:675-745 | From a zeroed table on, after any number of batches of any packets under any schedules, the table is well formed and a search finds a flow exactly when it is stored |
| `TableHistory.LaunchesAreRuns` | src/packet/mod.rs:703-741 | The table these histories leave is the one the runs of a batch leave in the comparison with the CPU engine |
| `PacketHistory.HistoryKeepsStep` | src/packet/mod.rs:675-745 | After any number of batches on which the engines can be compared (no excluded packet, room for the flows, fair schedules) the table stands for the CPU engine's map, and the next such batch draws the CPU engine's replies |
| `PacketHistory.EveryHistoryIsCpuHistory` | src/packet/packet.wgsl:48-53 | So it is for such batches from a zeroed table and an empty map on, for ever |
| `Packing.PackBytes` | src/processor/shader_strings.rs:139-149 | ORing bytes into words one by one yields the little-endian packing (the same loop as src/packet/mod.rs:1071-1077) |
| `Packing.PackHolds` | src/packet/mod.rs:1071-1077 | Every byte can be read back from the packed words at its index |
| `Packing.LoadWordIs` | src/processor/http.wgsl:103-130 | A word joined at any byte position is the four bytes at that position, and only words that hold them are loaded |
| `PacketWords.ByteSwapReverses` | src/packet/packet.wgsl:60-65 | The masked shifts of the byte swap reverse the bytes of every word |
| `PacketWords.ReadU16Be` | src/packet/packet.wgsl:67-71 | A 16-bit field read from packed words is the big-endian field of the packet |
| `PacketWords.ReadU32Be` | src/packet/packet.wgsl:73-75 | So is a 32-bit field |
| `PacketWords.ParsePacket` | src/packet/packet.wgsl:502-539 | The shader accepts exactly the packets the host receives on the port, and reads the same fields and payload: those of which the packet is a layout, for that port |
| `PacketClassifier.Classify` | src/packet/packet.wgsl:443-492 | The shader's loops select, for every payload, the response the host's classifier selects (src/packet/mod.rs:791-821), told from the payload's bytes |
| `RequestClasses.ClassifiesExactly` | src/packet/mod.rs:791-821 | A payload selects response 0 or 1 if and only if it asks by GET for /plaintext or /health with any query, 3 if and only if by GET for another path, 4 if and only if by another method, and 2 if and only if it is no such request |
| `PacketBuffers.BuildResponseTables` | src/packet/mod.rs:908-984 | The generated tables hold every response at a word boundary, with its length, its word count and its checksum sum |
| `PacketBuffers.PrepareWaveMetadata` | src/packet/mod.rs:1085-1107 | Lengths and consecutive word offsets of a wave; refused only when one does not fit u32 |
| `PacketBuffers.PackWaveBytes` | src/packet/mod.rs:1109-1123 | Every packet of the wave is copied to its own offset and none overwrites another |
| `PacketBuffers.UploadedInput` | src/packet/mod.rs:1117-1122 | Read as words, the uploaded bytes are the input the shader needs |
| `PacketEmit.ShaderIpChecksum` | src/packet/packet.wgsl:206-211 | The header checksum from the fields is that of the built header |
| `PacketEmit.ShaderTcpChecksum` | src/packet/packet.wgsl:213-233 | The segment checksum from the fields and the precomputed payload sum is that of the built segment, without u32 overflow |
| `PacketEmit.EmitPacket` | src/packet/packet.wgsl:306-340 | The words written by the shader are, byte for byte, the packet the host builds from the same fields and response; nothing outside the packet's words is written |
| `PacketMain.OtherRepliesStay` | src/packet/packet.wgsl:235-340 | A thread never disturbs another thread's reply |
| `PacketThreads.TakeTurn` | src/packet/packet.wgsl:118-193 | Each atomic action, in place on the slot array, is the action of the interleaving model |
| `PacketThreads.RunDispatch` | src/packet/packet.wgsl:494-697 | A dispatch under any schedule of its threads, from packed input words to packed output words: the threads end in the state of that interleaving, and every slot of the output holds exactly what its thread has sent |
| `PacketBuffers.ProducedIsReadBack` | src/packet/mod.rs:1172-1184 | Reading a slot inverts producing it, and a reply is never refused |
| `PacketBuffers.EmitWaveOutputs` | src/packet/mod.rs:1163-1186 | Every packet of the wave is delivered at its source index and nothing else changes, up to the first length beyond the slot or the raw packet, which is refused by its place |
| `GpuPacketEngine.GpuPacketEngine.DispatchWave` | src/packet/mod.rs:504-640 | A wave is packed, dispatched under any schedule and read back: every packet gets, at its source index, what its thread sent, whatever was left in the buffers; in its bytes, what is sent reaches the sender of the packet there |
| `GpuPacketEngine.GpuPacketEngine.ProcessBatch` | src/packet/mod.rs:675-745 | A batch from raw packets to raw packets, under any fair schedules: at every source index are the bytes of the packet the CPU engine sends, with the engine's response texts, or nothing where it sends nothing; in its bytes each answers the sender of the packet there; the engines stay in step |
| `Router.FoldingKeepsMeaning` | src/router.rs:60-110 | Folding literals and dropping empty segments while building a body never changes a response |
| `Router.BuiltIsFolded` | src/router.rs:60-110 | Built bodies contain no empty segment, no two adjacent literals and no variant with equal texts |
| `Router.ResponseBound` | src/router.rs:755-776 | No response of the backend gpu is longer than its bound |
| `CompiledRouter.ProgramDecodes` | src/router.rs:711-753 | The words at an offset are the program of one response only |
| `RouterCompiler.StringTable.Intern` | src/router.rs:688-700 | Returns the place of the string, adds it at the end only when it is new, and never moves another; fails only when the table is full |
| `RouterCompiler.CompileResponse` | src/router.rs:611-662 | A compiled response denotes the declared one, with both size bounds; it is refused only when the declaration is invalid, the distinct strings are too many or the body's size overflows, and the error says which |
| `RouterCompiler.CompileRoutes` | src/router.rs:521-535 | All routes compile to what they declare; an invalid or duplicate path is refused, and too large means too many strings or an overflowing body |
| `RouterCompiler.SortIsOrdered` | src/router.rs:537-541 | The route table is in ascending order of hash, and of path among equal hashes |
| `RouterCompiler.EmitResponse` | src/router.rs:711-753 | Appends a descriptor and a program that decode to the response, at the offset it returns; refused only when the words then reach 2^32 |
| `RouterCompiler.EmitRoutes` | src/router.rs:547-561 | Every row of the route table has its route's hash, length, path string and program; refused only when the strings are too many or the words reach 2^32 |
| `RouterCompiler.MaxBound` | src/router.rs:568-582 | The bound is the largest response of all |
| `RouterCompiler.Compile` | src/router.rs:517-607 | A router compiles if and only if it is acceptable and its routes, distinct strings, words, bodies and responses fit their machine sizes; then to what it declares, and a refusal says which failed |
| `HostRouter.FindRoute` | src/router.rs:361-368 | Lower bound and scan of equal hashes find a route with the hash and path, or there is none, whatever collides |
| `HostRouter.LookupIsDeclared` | src/router.rs:361-368 | Under any hash function the route found, or the fallback, is the response declared for the path |
| `HostRouter.RenderResponse` | src/router.rs:416-459 | Rendering a compiled response writes the declared text, for every backend name; in bytes, the declared header with the status and the length of the body in digits, an empty line, and the body |
| `HttpAnswers.DecimalIsValue` | src/processor/http.wgsl:228-251 | A number is written in ASCII digits whose positional value it is, without leading zeros |
| `HttpAnswers.TextAnnounces` | src/protocol.rs:61-87 | Cut at its first CR LF CR LF, every response text has before the cut exactly the five declared header lines, the only line that starts with Content-Length announcing in digits the length of what follows the cut, which is the body |
| `HostRouter.RouteRequest` | src/router.rs:358-384 | The host answers every request as declared |
| `HttpParse.GetTargetsAgree` | src/processor/http.wgsl:307-369 | The shader finds a GET target with the same path, query and hash exactly when the host does and the target contains no newline |
| `HttpParse.OutcomesAgreeExactly` | src/router.rs:860-901 | The two parsers see the same request if and only if a stated condition on the request line holds |
| `HttpParse.TwoSpacesDiffer` | src/router.rs:868-876 | A line of two spaces is another method for the host and malformed for the shader |
| `HttpParse.BareMethodDiffers` | src/processor/http.wgsl:571-578 | Another method without a target is malformed for the host and another method for the shader |
| `HttpParse.NewlineDiffers` | src/processor/http.wgsl:319-347 | A newline inside the target is malformed for the host and part of the target for the shader |
| `HttpText.DecimalWidth` | src/processor/http.wgsl:228-236 | The width loop counts the digits that are written |
| `HttpWriter.Writer.PushByte` | src/processor/http.wgsl:154-173 | Appends one byte at any alignment, or reports overflow and stays overflowed |
| `HttpWriter.Writer.PushWord` | src/processor/http.wgsl:175-194 | Appends four bytes at any alignment, or reports overflow |
| `HttpWriter.Writer.PushPacked` | src/processor/http.wgsl:196-226 | Appends any packed string or request range exactly, from any position, loading only words that hold it |
| `HttpWriter.Writer.PushDecimal` | src/processor/http.wgsl:238-251 | Appends the decimal digits of any u32, the highest first |
| `HttpWriter.Writer.Finish` | src/processor/http.wgsl:253-263 | The finished words of the slot hold exactly what was appended, with its length and status; an overflow is reported instead |
| `HttpAssets.BuildShaderAssets` | src/processor/shader_strings.rs:35-58 | Every string can be read from the arena at its offset, the persistent header tail in place of the reserved one; built exactly when every offset and length fits u32 |
| `HttpAssets.PackRequestBatch` | src/processor/gpu.rs:712-746 | Every request can be read from the packed words at its offset; the first one over the limit is refused by its index |
| `HttpShader.IsGetRequest` | src/processor/http.wgsl:265-270 | The word comparison recognises exactly the requests that start with GET and a space |
| `HttpShader.ParseGetTarget` | src/processor/http.wgsl:307-369 | The one-pass scan finds the specified target, or none |
| `HttpShader.PathEquals` | src/processor/http.wgsl:378-396 | Comparing four bytes at a time and then one by one decides equality |
| `HttpShader.FindResponseOffset` | src/processor/http.wgsl:399-428 | Binary search and scan over the words return the program of the declared route, or of the fallback |
| `HttpShader.ResponseBodyLen` | src/processor/http.wgsl:430-471 | The first pass computes the length of exactly the body the second pass writes, without u32 overflow |
| `HttpShader.WriteResponseBody` | src/processor/http.wgsl:473-528 | Interpreting a program appends exactly its body |
| `HttpShader.WriteResponse` | src/processor/http.wgsl:530-552 | The slot holds the whole response when it fits, and an overflow report otherwise; no other slot is touched |
| `HttpGpu.ResponseMeans` | src/router.rs:711-753 | Interpreting the compiled program with the uploaded strings gives the response's meaning for the backend gpu |
| `HttpGpu.ResponsesAgreeExactly` | src/processor/shader_strings.rs:39-44 | The shader's response is the declared one if and only if its body does not use the reserved header tail |
| `HttpGpu.AnswersAgreeExactly` | src/router.rs:358-384 | For every router and every request the parsers see alike, the GPU's answer is the host's answer for the backend gpu if and only if the body of the response the request selects does not use the reserved text |
| `HttpGpu.ReservedBodyDiffers` | src/router.rs:506-507 | A body that is the reserved text is answered differently |
| `HttpGpu.AnswerFits` | src/router.rs:568-582 | No request to any compiled router makes a response longer than the compiler's bound |
| `HttpGpu.CapacityFitsExactly` | src/processor/http.wgsl:158-158 | The capacity computed in u32 covers the bound if and only if the bound rounded up to words fits u32 |
| `HttpGpu.ProcessRequest` | src/processor/http.wgsl:554-585 | For every request the thread's slot holds the answer with its length and status, and never an overflow |
| `AnsweredRequests.AnswerAnnounces` | src/protocol.rs:61-87 | So it is for the host's answer to every request to every acceptable router |
| `AnsweredRequests.GpuAnswerAnnounces` | src/processor/http.wgsl:530-552 | So it is for the GPU's answer to every request, and the status reported beside it is the one announced |
| `AnsweredRequests.SegmentSays` | src/router.rs:427-448 | What each segment of a body says: literals, the path and query up to their limits, the backend, and the request's length and path hash in digits of that value |
| `AnsweredRequests.BodyIsItsSegments` | src/router.rs:425-449 | A body is the texts of its segments, in order |
| `AnsweredRequests.RequestsAreSeen` | src/router.rs:860-901 | By the bytes of its first line a request is, for the host, a GET of one path and query, another method, or else malformed: three equivalences |
| `AnsweredRequests.ShaderRequestsAreSeen` | src/processor/http.wgsl:554-585 | By its bytes a request is, for the shader, a GET of one path and query, or not one beginning with GET and a space, or else malformed |
| `AnsweredRequests.GetIsAnswered` | src/router.rs:358-384 | The host answers a GET of a path with the response of the route for that path, or the fallback when there is none |
| `AnsweredRequests.GetIsAnsweredAlike` | src/processor/http.wgsl:399-428 | The GPU answers it with the same response |
| `AnsweredRequests.OthersAreAnswered` | src/router.rs:370-382 | The host answers another method, and a malformed request, with the responses for those |
| `AnsweredRequests.GpuOthersAreAnswered` | src/processor/http.wgsl:554-585 | So does the GPU, by its own view of the request |
| `AnsweredRequests.EveryRouteIsReachable` | src/router.rs:358-384 | A plain GET of the path of any route of an acceptable router draws that route's response from both backends |
| `AnsweredRequests.AcceptedBytes` | src/router.rs:778-812 | The bytes a route path and a header value may have |
| `HttpBatch.DecodeResponses` | src/processor/gpu.rs:613-648 | Returns every response's bytes in request order, exactly when none failed and every length is possible |
| `HttpBatch.ProcessBatch` | src/processor/gpu.rs:712-746 | A batch is refused only for its size; otherwise every request gets its answer, in request order, whatever order the threads run in |
| `Framing.FramesPartition` | src/network.rs:143-178 | The requests served on a stream and the bytes after them are the stream; every request ends at its first terminator and respects the limit |
| `Framing.FirstInBytes` | src/network.rs:143-185 | What comes first in a stream, by its bytes: everything up to the first CR LF CR LF when that respects the limit; without one, the end of the stream decides |
| `Framing.RequestsEndInBytes` | src/network.rs:180-185 | Every request served ends with CR LF CR LF and has none before |
| `Framing.OnlyTheLastCloses` | src/network.rs:126-139 | A request that asks to close the connection is the last one served |
| `Framing.Connection.ReadRawRequest` | src/network.rs:143-178 | The next request, or the end, depends on the remaining bytes and the limit only, never on how they were cut into reads; no byte is lost |
| `Framing.Connection.ReadAll` | src/network.rs:99-139 | The requests a connection serves, and how it ends, are the same for every way of cutting the stream into reads, whichever requests close it |
| `Batcher.StepKeepsInv` | src/batcher.rs:131-236 | Every step of a submitter or the worker keeps order, counters, batch bounds and replies right |
| `Batcher.RunKeepsInv` | src/batcher.rs:131-236 | So does every interleaving |
| `Batcher.Conservation` | src/batcher.rs:83-99 | Successful sends are accepted or about to be counted, and each is queued, held, completed or failed; no batch exceeds the limit |
| `Batcher.RepliesAreFinal` | src/batcher.rs:195-206 | A job's reply, once sent, is never replaced |
| `Batcher.StoppedIsDrained` | src/batcher.rs:164-226 | A worker that stops has drained the queue: every send has the reply of its own place in its own batch, batches being consecutive sends |

## Left out

- GPU set-up, buffers, mapping, polling and submission: foreign calls.
- Relaxed memory ordering and spurious compare-exchange failure in WGSL: see the claims hypothesis.
- Timing counters, tracing, environment and command line, the binaries, the packet pool and the
  network device: input and output.
- The socket loop, time-outs and shutdown: asynchronous input and output; an error of the underlying
  read ends the connection and is not modelled.  Which requests close the connection is any
  predicate on requests.
- Generated shader text and its validation: only the numeric tables are modelled.
- The literal response texts of the packet engines and the built-in routes, and UTF-8: byte strings
  are arbitrary; the scalar count kept with each arena string is not read by the shader.
- Configuration validation and the construction of single fields: easy members.
- RouterCompiler.SortRoutes: the library sort is modelled as an insertion sort in the same order.
- RouterCompiler.StringTable.Intern: a full table panics in the source; here it is a refusal, and the
  compilation reports it as too large.
- HttpWriter.Writer.PushPacked: an append that overflows leaves the slot's words unspecified; only
  the failure is promised, as in the source.
- Batcher.StepKeepsInv: a processor that panics is not modelled, and the wording of the message for a
  wrong response count is kept as its two numbers.
- FlowTableMethods.ShaderMain: the probe loops as the source writes them are stated for a thread
  that runs alone; under an interleaving the same probes are single actions (PacketThreads.RunDispatch).
- GpuPacketEngine.GpuPacketEngine.ProcessBatch: with response texts of equal lengths but different
  contents, the payloads are the GPU engine's own.
