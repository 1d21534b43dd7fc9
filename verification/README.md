# A verified model of msim-dap

msim-dap connects a Debug Adapter Protocol client to the MSIM simulator. This project
models the parts of it that carry its hard promises and proves them in Dafny:

- `Frame`, `Connection`, `Protocol`, `Conservation`: the binary protocol on the
  simulator's socket. The codec works on real bytes; the listener thread and the blocking
  `send` appear both as imperative code and as a state machine over every interleaving of
  sender, wire, simulator, listener and channels, with a conforming simulator (`Protocol`)
  and with any (`Conservation`).
- `DebugIndex` (with `Interning`): the two-way map between source locations and addresses,
  compared with the log of the line-table rows inserted into it.
- `Target`, `MsimTargets`, `Registers`, `MemoryReads`: the debug target, the tables of
  register names, and chunked memory reads.
- `BreakpointStore`, `Replacing`, `Reuse`, `StoreRuns`, `SimulatorState`: what the target
  believes about breakpoints against what the simulator was made to do, for one operation,
  over whole runs, and joined with the protocol.
- `CpuRegistry`, `Breakpoints`, `Text`, `MemoryRefs`: numbers and texts handed to the client.
- `Debugger`, `DebuggerLoop`, `Runs`, `LostSessions`, `Steps`, `Hits`: request and event
  handlers, the event loop, and claims over whole runs of it.
- `Commands`, `HonestReplies`, `EndToEnd`: what each command asks the simulator, what the
  client is shown when the simulator tells the truth, and what it gets when it hands back
  the references and values it was given.
- `Counterexamples`: inputs on which the claims fail that turned out false.

Code that changes state in place is a class whose methods are proved to compute a function
of the old state (`Listen`, `Send`, `Insert`, `GetId`, `ReplaceCodeBps`, `Next`,
`SetBreakpoints`, `Run` and so on); the claims are lemmas about those functions.

Conventions:

- Machine integers wrap, as in the release builds the project ships
  (`.github/workflows/build-release.yaml`, line 23). A debug build panics instead.
- A simulator, a client or a full pipe that misbehaves is a parameter: the replies to come
  (`script`), the bytes to come, how many more sends or bytes a channel or pipe accepts
  (`room`), the order in which a hash map iterates (`order`, `hash`), what the listener
  routes while `recv` blocks (`arrivals`). Claims hold for all of them, with these
  exceptions: those of `Protocol` and `SimulatorState` are for a conforming simulator,
  `DemuxSeparatesStream` and `ListenerStepsAreListen` for receivers that outlive the frames,
  `HonestReplies`, `ReadsRequestedBytes`, `ReferenceReadsMemory` and
  `RegisterReferenceReadsMemory` for honest replies to the reads,
  `TidyOverRun` and `VerifiedInRunIsArmed` for runs without a rejected removal.
- Claims about lookups in the index are for at most 2^32 files, those about the ID of a hit
  for at most 2^32 issued IDs; `FileIdsInjectiveIff` and `IdsOverRun` show that more collide.
- Paths are opaque values with equality.

What turned out false, each with an input on which it fails and the exact condition under
which it holds:

- A line reported as verified by `setBreakpoints` need not be set. If two lines share an
  address and one is dropped while the other is kept, the breakpoint is removed and the
  kept line is still reported as verified (`SharedAddressLosesBreakpoint`, and
  `OtherFileDropsBreakpoint` for lines of two files). `VerifiedAreArmedIff` has the
  condition for being set in the simulator, `VerifiedAreStoredIff` and
  `AllVerifiedAreStoredIff` for being in the adapter's store; `VerifiedInRunIsArmed` gives
  a discipline under which it cannot happen in any run.
- A stop at a line reported as verified need not be reported under that line's ID: it may
  carry another location's (`HitReportsOtherId`), since going from a location to its address
  and back need not return to it (`RoundTripIff`), or none (`HitReportsNothing`).
  `HitReportsReplyIdIff` and `LaterHitReportsReplyIdIff` have the condition.
- A memory read whose range reaches 2^64 returns nothing (`TopOfMemoryReadsNothing`;
  `ReadLengthIff`).
- A breakpoint whose removal the simulator rejected stays set there while the adapter
  believes it gone (`RejectedRemovalStaysSet`; `LeftBehindIff`), and may then be set a second
  time (`BreakpointIsSetTwice`; `RequestsOfRunNeededIff`).
- The end of a step removes the breakpoint of the location its address resolves to. That
  can leave the step's own (`StepBreakpointStays`), erase one the user had set there
  (`StepErasesUserBreakpoint`), or erase one the user had set at another address
  (`StepErasesOtherBreakpoint`). `FinishedStepRemoves` has the exact effect and
  `FinishedStepRemovesIff` both conditions; `AddressRoundTripIff` says when the index leads
  back to the address.
- A general register need not hold what is shown for it: a refused read is shown with
  whatever the refusal carries (`RefusedRegisterIsShown`; `GeneralRegistersShown`).
- An unsolicited response can be taken for the answer to a request
  (`UnsolicitedIsMisattributed`). `AttributedIff` has the condition; when answers come in the
  order of requests, a send gets its own exactly when as many unsolicited responses were
  sent before it as stale checks have thrown away (`AttributedInOrderIff`).

Where comments and code disagree the code is followed: requests carry three arguments, not
two (`src/msim/frame.rs`, lines 66 and 278-281), and `replace_code_bps` returns fewer
results than lines after a lost session (`src/target/mod.rs`, lines 92-94, against
`src/target/msim_target.rs`, lines 186-188).

## Model

| member | source | states |
|---|---|---|
| Frame.RequestRoundTrip | src/msim/frame.rs:252-283 | a strict decoder of 25-byte frames accepts exactly the encodings of the 23 requests, all arguments included, and returns the request |
| Frame.RequestStreamRoundTrip | src/msim/frame.rs:252-283 | a byte stream decodes to a sequence of requests exactly when it is the concatenation of their frames, so streams have one reading |
| Frame.RequestStreamInjective | src/msim/frame.rs:252-283 | different request sequences never produce the same bytes |
| Frame.Writer.WriteRequest | src/msim/frame.rs:252-283 | the four writes leave the whole frame, or on an I/O error exactly the part of it there was room for |
| Frame.PutSplits | src/msim/frame.rs:278-282 | stopping at the first failed write leaves what one write of all the bytes leaves |
| Frame.InboundRoundTrip | src/msim/frame.rs:288-332 | a 26-byte chunk reads as a frame exactly when it is that frame's encoding |
| Frame.Reader.ReadInbound | src/msim/frame.rs:288-310 | all 26 bytes are taken before any is judged; fewer give end-of-file or the I/O error, never a parse error |
| Frame.InterpretIff | src/msim/mod.rs:72-83 | an event frame is read as exactly the event that a simulator announces with it, CPU, address and reason code in their places, and rejected exactly if it announces none |
| Connection.Listen | src/msim/connection.rs:58-117 | the loop terminates on every finite stream and adds to the two channels what `Demux` says, whenever the receivers drop |
| Connection.SplitExists | src/msim/connection.rs:63-116 | every byte stream starts with a longest run of readable, interpretable frames |
| Connection.SplitUnique | src/msim/connection.rs:63-116 | that run and the rest are unique |
| Connection.DemuxSeparatesStream | src/msim/connection.rs:63-116 | while receivers live, the channels get exactly the responses and the events of that run in order, then at most one error, and none for end-of-file even mid-frame |
| Connection.SentIsDelivered | src/msim/connection.rs:63-116 | whatever answers and events a simulator means to send, their frames bring exactly these answers to the one channel and these events to the other, each in order |
| Connection.DemuxIsPrefix | src/msim/connection.rs:74-101 | a dropped receiver only cuts the histories short |
| Connection.TcpConnection.Send | src/msim/connection.rs:129-139 | a stale response is consumed and reported and nothing is written; otherwise the frame is written and the first routed response, a dead listener or a failed write is the result |
| Protocol.LockStepAlways | src/msim/connection.rs:63-86 | the lock-step invariant holds in every interleaving with a simulator that answers each request it reads once: outside `recv` nothing is outstanding, inside it one request or its one answer is, unless the listener has died |
| Protocol.SendsAreAttributed | src/msim/connection.rs:129-139 | in every such run the i-th send returns the answer to the i-th request or fails for good, and never reports a stale response |
| Protocol.SendCompletes | src/msim/connection.rs:137-138 | from every such state with a blocked send, steps of listener and simulator bring it back within a computed bound: no deadlock |
| Conservation.ResponsesAreConserved | src/msim/connection.rs:63-139 | under any simulator, the responses routed are those in the frames read and equal those consumed by sends followed by those queued; requests written match the checks that found the channel empty and the sends; the events delivered are exactly those of the frames read, in order, then at most the one error that ended the listener, also after it has ended |
| Conservation.ReturnedIsEmitted | src/msim/connection.rs:130-138 | under any simulator, the response a send returns is the one emitted at the position given by the requests written and the stale responses thrown away before |
| Conservation.AttributedIff | src/msim/connection.rs:130-138 | under any simulator, a send that returns gets its own request's answer exactly when as many responses were emitted before that answer as requests were written and stale responses thrown away before |
| Conservation.AttributedInOrderIff | src/msim/connection.rs:130-138 | when answers come in the order of requests: exactly when as many unsolicited responses precede the answer as stale checks threw away before |
| Conservation.ListenerStepsAreListen | src/msim/connection.rs:63-116 | after any run, with the listener running or ended by end-of-file, an I/O error, bytes that are no frame or an event without meaning, the channel histories are what the byte-level loop, with receivers that live, produces on the bytes taken |
| Conservation.SenderStepsAreSend | src/msim/connection.rs:129-139 | the steps of one call of `send`, finding a stale response, failing to write or waiting, with any steps of the others in between, write, return and leave in the channel what the `send` method does |
| Conservation.UnsolicitedIsMisattributed | src/msim/connection.rs:130-138 | a run in which an unsolicited response between check and `recv` is returned for a request that has another answer |
| DebugIndex.DwarfIndexBuilder.Insert | src/dwarf/index.rs:34-42 | updates the ID counter and the three maps as the function `Inserted` |
| DebugIndex.IndexRows | src/dwarf/parse.rs:69-103 | inserting the rows one by one and building gives an index of that log |
| DebugIndex.FileIdsNumberPaths | src/dwarf/index.rs:35-38 | file IDs number the distinct paths from 1 in order of first insertion |
| DebugIndex.FileIdsInjectiveIff | src/dwarf/index.rs:35-39 | every inserted path has a file ID, and IDs tell paths apart exactly up to 2^32 paths |
| DebugIndex.ResolveIsFloorScan | src/dwarf/index.rs:74-87 | `resolve_address` gives the location of the last row at the greatest inserted address not above the argument, for every hash order, and nothing exactly when all rows are above it |
| DebugIndex.FloorRowUnique | src/dwarf/index.rs:74-87 | there is at most one such row, so the location is determined |
| DebugIndex.GetIsLastScan | src/dwarf/index.rs:67-72 | `get_address` gives the address of the last row for the location, nothing exactly if there is none |
| DebugIndex.LookupsAreClosed | src/dwarf/index.rs:67-87 | a resolved location has an address; a found address resolves at itself, not at a lower one |
| DebugIndex.RoundTripIff | src/dwarf/index.rs:39-41 | location to address and back is the identity exactly when no later row put another location at that address |
| DebugIndex.AddressRoundTripIff | src/dwarf/index.rs:39-41 | inserted address to location and back is the identity exactly when no later row gave that location another address |
| Text.ShowRoundTrip | src/debugger/core.rs:367-368 | printed digits in radix 2, 10 or 16 parse to the number |
| Text.DigitValueIff | src/debugger/core.rs:326-350 | the digits are those of both cases, below the radix |
| MemoryRefs.MemoryRefRoundTrip | src/debugger/core.rs:297-371 | parsing the text of any memory reference gives it back |
| MemoryRefs.ParseIffDenotes | src/debugger/core.rs:297-357 | `parse` accepts exactly the texts of a grammar (repeated `0x`, ignored trailing parts, plus signs) with the reference they denote |
| MemoryRefs.ParseValueIff | src/debugger/requests.rs:330-344 | `setVariable` accepts exactly the hexadecimal, binary and decimal texts, with the value they denote |
| MemoryRefs.ValueTextRoundTrip | src/debugger/requests.rs:330-353 | the hexadecimal, the binary and the decimal text of any 64-bit value is accepted as that value |
| CpuRegistry.ThreadRoundTripIff | src/debugger/core.rs:227-241 | a CPU is found again from its thread exactly when CPU + 1 fits a signed word |
| CpuRegistry.ResolvesIff | src/debugger/core.rs:268-282 | a variable reference resolves exactly when it is at least 11 and ends in 1 or 2, under truncating division |
| CpuRegistry.ResolvedEncodesBack | src/debugger/core.rs:257-282 | what a reference resolves to encodes back to it |
| CpuRegistry.ScopeRoundTripIff | src/debugger/core.rs:227-282 | a scope is found again from its reference exactly when the reference does not overflow |
| Breakpoints.BpRegistry.GetId | src/debugger/core.rs:208-217 | returns the stored ID or stores the next one, as the function `WithId` |
| Breakpoints.IdsInjectiveIff | src/debugger/core.rs:208-217 | after any requests the map covers exactly the requested locations and its IDs are distinct exactly up to 2^32 locations |
| Breakpoints.IdsNumberLocations | src/debugger/core.rs:208-217 | IDs count the distinct locations from 0 in order of first request |
| Breakpoints.IdsAreStable | src/debugger/core.rs:206-217 | an issued ID never changes and asking again changes nothing |
| MsimTargets.MsimTarget.SetCodeBp | src/target/msim_target.rs:111-132 | computes the function `SetCodeBp` on the target's state |
| MsimTargets.MsimTarget.RemoveCodeBp | src/target/msim_target.rs:134-151 | computes `RemoveCodeBp`; the address is forgotten even when the request fails |
| MsimTargets.MsimTarget.ReplaceCodeBps | src/target/msim_target.rs:153-197 | its two loops compute `ReplaceCodeBps`, for every hash order |
| MsimTargets.MsimTarget.ReadMemory | src/target/msim_target.rs:315-352 | its loop computes `ReadMemory` for physical and virtual memory |
| BreakpointStore.BelievedIsArmed | src/target/msim_target.rs:121-143 | after any exchanges every breakpoint the adapter believes set is set in the simulator |
| BreakpointStore.LeftBehindIff | src/target/msim_target.rs:139-143 | a breakpoint is set but not believed set exactly when its last removal was not accepted |
| BreakpointStore.NeededIff | src/target/msim_target.rs:120-143 | a request the adapter's belief calls for is called for in the simulator, except exactly for setting a breakpoint that a rejected or lost removal left set |
| BreakpointStore.SetKeepsConsistent | src/target/msim_target.rs:111-132 | setting keeps belief equal to the history's, keeps the per-file lists true to the index, and never asks to set what is believed set |
| BreakpointStore.RemoveKeepsConsistent | src/target/msim_target.rs:134-151 | removing keeps the same, and never asks to remove what is not believed set |
| BreakpointStore.WithoutFirstTakesOne | src/target/msim_target.rs:144-148 | the first entry for the address leaves the file's list and nothing else does |
| BreakpointStore.WithoutFirstOfOthers | src/target/msim_target.rs:144-148 | a list without the address stays as it is |
| Replacing.StoredAfterReplaceIff | src/target/msim_target.rs:153-197 | for every reply and hash order, an address is in the store after the call exactly when it was and no dropped line has it, or a new line set it; results speak about the lines in order and are cut short only by a lost session |
| Replacing.VerifiedIsStoredIff | src/target/msim_target.rs:172-183 | a line reported as set is in the store exactly when it was newly set, its breakpoint was kept, or another new line set it again |
| Replacing.AllVerifiedAreStoredIff | src/target/msim_target.rs:172-183 | when all lines are reported as set they all are exactly if every reused line still had its breakpoint and shared it with no dropped line, or shares it with a new line |
| Reuse.VerifiedAreStoredIff | src/target/msim_target.rs:153-197 | every line reported as set is in the store, whatever the simulator replies, exactly when each requested line that was listed before still has its breakpoint and shares it with no dropped line |
| Reuse.VerifiedAreArmedIff | src/target/msim_target.rs:153-197 | every line reported as set is set in the simulator, whatever it replies, exactly when each requested line that was listed before is set there and not about to be removed with a dropped line |
| Reuse.DistinctAddressesAreSound | src/target/msim_target.rs:172-183 | in a file whose lines have distinct addresses and whose listed lines all have their breakpoint in the store, the condition holds |
| Reuse.ReplaceKeepsTidy | src/target/msim_target.rs:153-197 | if no two locations share an address and the request repeats no line, the call keeps every listed entry in the store, at different addresses |
| Reuse.RemoveKeepsTidy | src/target/msim_target.rs:134-151 | so does an accepted removal |
| StoreRuns.TidyOverRun | src/debugger/core.rs:92-112 | so does any run in which no request repeats a line and no removal is rejected |
| Replacing.SharedAddressLosesBreakpoint | src/target/msim_target.rs:163-178 | two calls after which a line reported as set is set neither in the store nor in the simulator |
| Replacing.RowsCanShareAnAddress | src/dwarf/index.rs:34-42 | two rows of a line table produce an index with that situation |
| Replacing.ReplaceRecordsVerified | src/target/msim_target.rs:191-195 | the file's list becomes the verified lines in order, other files' lists stay |
| Registers.GeneralNameIff | src/target/msim_target.rs:376-490 | for every architecture and every text, the lookup of a name finds a general register exactly if that register is shown under it |
| Registers.CsrNameIff | src/target/msim_target.rs:385-497 | the same for CSRs, none of which is found under the name of the program counter |
| Registers.ListedCsrIsNamed | src/target/msim_target.rs:245-277 | every CSR that is read has a name, and not the program counter's |
| MemoryReads.ReadsRequestedBytes | src/target/msim_target.rs:315-352 | with an honest simulator the result is exactly the requested bytes of memory, or nothing if the range reaches 2^64 |
| MemoryReads.ReadLengthIff | src/target/msim_target.rs:319-330 | a successful read has the requested length exactly when the range ends below 2^64 |
| DebuggerLoop.Debugger.Run | src/debugger/core.rs:92-112 | the loop consumes its channel and ends in the state, with the messages and the result of the function `Run` |
| DebuggerLoop.Debugger.SetBreakpoints | src/debugger/requests.rs:83-158 | the loop over lines and results computes the reply and the registry of `HandleSetBreakpoints` |
| DebuggerLoop.Debugger.Next | src/debugger/requests.rs:380-422 | the search loop computes `HandleNext`, arming the step before resuming |
| DebuggerLoop.Debugger.HandleEventStoppedAt | src/debugger/events.rs:31-89 | computes `HandleStoppedAt` on target, registry and pending steps |
| Runs.ResponsesMatchRequests | src/debugger/core.rs:117-135 | in every run the responses answer the requests taken, one to one and in order; only the last may stay unanswered, and then the run failed |
| Runs.OutputIsOwed | src/debugger/core.rs:117-157 | in every run the client is sent, in order, exactly what is owed for each input in the state in which it is handled: the body if the handler succeeded, an error response if it failed recoverably, nothing if the session was lost, and the events; it is cut short exactly when the client takes no more |
| Runs.AnswersFit | src/debugger/core.rs:161-187 | the body of a successful answer is of the kind the command asks for |
| Runs.RunEnds | src/debugger/core.rs:92-112 | a run ends when the channel closes, right after answering a disconnect, on a fatal message, on a lost simulator or on a client that takes no more, and never on a recoverable failure |
| LostSessions.SessionLostIff | src/target/msim_target.rs:511-519 | for every command, its handler loses the session exactly when an answer it needs never came; a refusal never does, nor do removals, disconnecting or counting CPUs for the thread list |
| LostSessions.SuccessIsAccepted | src/target/msim_target.rs:75-151 | a command other than `setBreakpoints` and `next` that succeeds had everything it asked for answered, and accepted where the status is looked at |
| LostSessions.BreakpointStops | src/target/msim_target.rs:111-151 | setting or removing a breakpoint asks at most one thing; it fails for want of an address, or exactly as the answer does: lost if none came, rejected if refused |
| LostSessions.RunLosesIff | src/debugger/core.rs:92-112 | a run ends with a lost session exactly when handling one of its inputs loses such an answer, and that input is the last |
| Commands.OneRequestIsSent | src/debugger/requests.rs:71-80 | `configurationDone`, `continue` and `pause` send their one request, change nothing else and succeed exactly when it is accepted |
| Commands.GoneSimulatorIsLost | src/target/msim_target.rs:511-519 | once the simulator replies no more, each of them loses the session |
| Commands.StepMovesByOne | src/debugger/requests.rs:424-444 | stepping in or out moves the thread's CPU by one instruction and then resumes, if that is accepted |
| Commands.DisconnectTerminates | src/debugger/requests.rs:190-199 | `disconnect` asks the simulator to terminate and is answered whatever that brings |
| Commands.TerminationFailsIff | src/target/msim_target.rs:88-98 | terminating fails exactly on an answer that cannot be one, never because the simulator is gone |
| Commands.OthersAskNothing | src/debugger/requests.rs:37-69 | initializing, attaching, launching, exception breakpoints, scopes, sources and unknown commands change nothing; only the last and scopes of no CPU fail |
| Commands.BadArgumentsAskNothing | src/debugger/requests.rs:83-474 | a thread, scope, value, count or memory reference that there is none of fails recoverably without a request |
| Commands.GeneralRegisterIsWritten | src/debugger/requests.rs:322-358 | any text that denotes a value is written to exactly the register of the given name; an unknown name writes nothing |
| Commands.CsrIsWritten | src/debugger/requests.rs:322-358 | the same for the program counter and the CSRs |
| Runs.NothingFatalBefore | src/debugger/core.rs:95-104 | no input before the last of a run is a fatal message or a disconnect |
| Runs.LastStep | src/debugger/core.rs:92-112 | the last input is handled in the state the inputs before it lead to |
| Runs.InitializedFollowsInitialize | src/debugger/requests.rs:42-50 | each initialize response is directly followed by the Initialized event, which is sent nowhere else |
| Steps.SearchTakesSmallest | src/debugger/requests.rs:394-421 | `next` takes the smallest of the offsets 1 to 19 at which a breakpoint can be set, all smaller ones having failed recoverably; it stops at once on a lost session |
| Steps.SearchAddsAtMostOne | src/debugger/requests.rs:394-402 | the search adds at most the one breakpoint it reports |
| HonestReplies.NextStepsFromPc | src/debugger/requests.rs:380-422 | `next` asks for its own CPU's program counter; it succeeds or arms only by setting a breakpoint 1 to 19 lines after the line where that counter is, all lines between having no address or being refused, for that CPU, and then resumes |
| Steps.PendingStepIff | src/debugger/events.rs:49-56 | after any run a CPU's pending step is its latest arming, if no stop of that CPU at that address followed |
| Steps.ArmingsOfRunConserved | src/debugger/requests.rs:402 | per CPU, armings are matches plus overwrites plus the pending one |
| Hits.IdsOverRun | src/debugger/core.rs:208-217 | over any run issued IDs never change and stay distinct exactly up to 2^32 of them |
| Hits.ReplyMatchesRequest | src/debugger/requests.rs:92-157 | a reply has one entry per requested line in order, verified and with the registry's ID exactly when that line was set; otherwise the session was lost |
| Hits.VerifiedShareIdIff | src/debugger/requests.rs:98-103 | verified entries of two replies, with any run in between, share an ID exactly when their locations are equal |
| Hits.OneReplySharesIdIff | src/debugger/requests.rs:98-103 | the same for two entries of one reply |
| Hits.VerifiedBreakpointsAreArmed | src/debugger/requests.rs:92-157 | if all lines are reported as verified and reuse is sound, all are set in the simulator |
| Hits.VerifiedInRunIsArmed | src/debugger/requests.rs:92-157 | after any run from the start in which no two locations share an address, no request repeats a line and no removal is rejected, every verified line of a reply is set in the simulator |
| Hits.HitReportsReplyIdIff | src/debugger/events.rs:49-66 | a breakpoint stop at the address of a location with an ID reports that ID exactly when no step of the CPU is pending there, the address is in the store and no later row of the line table put another location there |
| Hits.LaterHitReportsReplyIdIff | src/debugger/events.rs:49-66 | the same across any run between the reply and the stop |
| Hits.HitsAreArmed | src/debugger/events.rs:57-71 | after any run, a reported hit is at an address set in the simulator and carries the ID of the location it resolves to, the one issued before the run if there was one |
| Hits.StopReasonIsReported | src/debugger/events.rs:45-87 | each of the simulator's reasons is reported as its own, for the thread of the CPU, unless the stop ends a step |
| Hits.FinishedStepRemoves | src/debugger/events.rs:49-56 | when a step ends, store and simulator lose exactly the breakpoint of the location the address resolves to, the simulator only if it accepts |
| Hits.FinishedStepRemovesIff | src/debugger/events.rs:49-56 | its own breakpoint is gone exactly if it was already or the index leads back to the address; all others stay exactly if it leads back, nowhere or to an address without breakpoint |
| StoreRuns.StoreOverRun | src/debugger/core.rs:92-112 | over any run and any replies, the index stays, the history only grows, a configuration once known stays, the store is what the history leaves, everything in it is set in the simulator, and no request sets what was believed set or removes what was not |
| StoreRuns.RequestsOfRunNeededIff | src/debugger/core.rs:92-112 | in any run no request removes a breakpoint that is not set in the simulator, and one sets a breakpoint already set exactly when a rejected or lost removal left it |
| SimulatorState.RepliesAreAnswers | src/msim/connection.rs:129-139 | when the target's exchanges are the sends of a conforming run of the protocol, each successful one is a request and the simulator's own answer to it |
| SimulatorState.StoreIsSetInSimulator | src/target/msim_target.rs:111-151 | in every such run the store holds only breakpoints that are set in the simulator's own state, even if answers were lost with the connection |
| SimulatorState.ArmedIsSet | src/msim/connection.rs:129-139 | unless an answer was lost, the breakpoints the history says are set are exactly those set in the simulator |
| Counterexamples.HitReportsOtherId | src/debugger/events.rs:60-66 | two lines set under IDs 0 and 1, and a stop that reports ID 1 for both |
| Counterexamples.HitReportsNothing | src/debugger/events.rs:60-71 | a line reported as set and set, where a stop reports no hit |
| Counterexamples.RejectedRemovalStaysSet | src/target/msim_target.rs:139-143 | a removal after which the breakpoint is set and believed gone |
| Counterexamples.BreakpointIsSetTwice | src/target/msim_target.rs:153-197 | three calls that set a breakpoint the simulator still has |
| Counterexamples.StepBreakpointStays | src/debugger/events.rs:49-56 | a step that ends and leaves its breakpoint set |
| Counterexamples.StepErasesUserBreakpoint | src/debugger/events.rs:49-56 | a step whose end removes a breakpoint reported to the user as set |
| Counterexamples.StepErasesOtherBreakpoint | src/debugger/events.rs:49-56 | a step whose end removes a breakpoint set at another address and leaves its own |
| Counterexamples.TopOfMemoryReadsNothing | src/target/msim_target.rs:319-330 | a read of the last 24 bytes that asks nothing and returns nothing |
| Counterexamples.OtherFileDropsBreakpoint | src/target/msim_target.rs:153-197 | four calls over two files after which a line reported as set is not |
| EndToEnd.ScopesReachCpuIff | src/debugger/requests.rs:253-282 | the scopes of a CPU's frame resolve to that CPU's registers exactly while the larger reference fits a signed word |
| EndToEnd.VariableShowsOneValue | src/debugger/requests.rs:294-312 | the text and the memory reference shown for a register parse to the same value and the scope's CPU |
| EndToEnd.ReferenceReads | src/debugger/requests.rs:447-474 | a read through the text of any memory reference is a read of its space at its address plus the offset modulo 2^64 |
| EndToEnd.ReferenceReadsMemory | src/debugger/requests.rs:447-471 | with honest replies, a read through any reference, physical or virtual, gives the bytes of that memory at its address plus the offset modulo 2^64, or none if the range reaches the top |
| EndToEnd.RegisterReferenceReadsMemory | src/debugger/requests.rs:447-471 | reading through a register's reference at any offset gives that CPU's virtual memory at value plus offset modulo 2^64 |
| EndToEnd.ShownValueIsWrittenBack | src/debugger/requests.rs:286-358 | submitting the name and text shown for a general register, in any later state of the run, sends one request: write the value read to the same register of the same CPU |
| EndToEnd.ShownCsrIsWrittenBack | src/debugger/requests.rs:286-358 | the same for the program counter and the CSRs |
| EndToEnd.ConfigCoversCpus | src/target/msim_target.rs:54-73 | the configuration knows exactly the CPUs there are, costs one request and one per CPU, and asking again costs none |
| EndToEnd.ThreadsStandForCpus | src/debugger/requests.rs:174-188 | the threads listed lead back to the CPUs, exactly while thread IDs do not wrap |
| HonestReplies.ThreadsAreTrue | src/debugger/requests.rs:174-188 | with honest replies the threads listed are those of the machine's CPUs, or CPU 0's alone if an answer is missing |
| HonestReplies.KnownArchIsTrue | src/target/msim_target.rs:54-73 | with honest replies, after any run, the architecture found out for a CPU is its own |
| HonestReplies.StackTraceShowsPc | src/debugger/requests.rs:200-250 | with honest replies a thread's frame is at the location of the last row at the greatest address not above its CPU's program counter, or nowhere |
| HonestReplies.GeneralRegistersShown | src/target/msim_target.rs:211-230 | with honest replies all general registers are shown, by number, under their names, each with what the CPU holds there unless its read was refused |
| HonestReplies.CsrsShown | src/target/msim_target.rs:245-277 | the program counter and then all CSRs are shown, under their names, with what the CPU holds there |
| HonestReplies.RefusedRegisterIsShown | src/target/msim_target.rs:219-228 | a refused read of a general register is shown with whatever the refusal carries |

## Left out

- Sockets, threads and operating system errors: only byte streams, channels, a listener that may stop and writes that may fail remain; a failed write ends the protocol run.
- ELF and DWARF decoding (src/dwarf/parse.rs): the inserted rows are an arbitrary log.
- JSON, base64 encoding of memory contents, log lines, messages, descriptions and display hints.
- Reuse of a connection after a failed write, when part of a frame is already on the wire.
- Clean-up of interrupted steps: a pending step that is overwritten leaves its breakpoint set, and no claim says otherwise.
- Builds with overflow checks, where the wrapping additions panic instead.
- Physical data breakpoints, interrupts and address translation beyond their encoding: the adapter never sends them.
- Path normalisation, command line handling and redirection of the log.
