# Dynamod: a verified model of its core

This project models the decision-making core of the dynamod init system in Dafny and proves what that core
promises. dynamod consists of a small PID 1 written in Zig and a service manager and login manager written in Rust.

What is modelled, module by module:

- **Shared.** `Common`.
- **Startup.** `Paths` (reachability, cycles, topological orders), `DependencyGraph` (building the graph),
  `CycleSearch` (depth-first cycle detection), `Countdown` (counters of unmet dependencies), `Frontier` and
  `StartupFrontier` (the startup frontier as a step relation and as a class), `FrontierRuns` (whole runs),
  `FrontierExample` (one concrete run), `BootBooks` and `BootLoop` (the startup loop of the service manager, as books kept
  turn by turn and as a class), `BootMarks` (the books said by the reports alone) and `BootExamples` (two boots).
- **Shutdown.** `ShutdownOrder`: Kahn's algorithm and the stop order.
- **The wire between PID 1 and the service manager.** `Bytes`, `Msgpack`, `MsgpackProofs`, `MsgpackFormats`,
  `MsgpackErrors`, `MsgpackReader`, `MsgpackWriter` (the MessagePack subset), `InitMessages` (classification of payloads), `Framing`, `FrameStreams`,
  `IpcBuffers` (frames, streams cut into arbitrary reads, the buffers on both sides), `LogTexts` (the text of a log
  message, end to end) and `InitReplies` (the two messages PID 1 sends).
- **The ISO 9660 reader of the live boot.** `IsoRecords`, `IsoNames`, `IsoDirectory`, `IsoSearch`, `IsoPaths`, `IsoLabels`
  and `IsoFiles` (what a record is called and where a path leads, said by what was written) and `LiveCopy` (copying the
  located extents).
- **The login manager.** `Login` (sessions, seats, users, leader pids), `LoginUsers` (pid lookup and user states),
  `LoginOrder` (who comes next), `SeatDevices` (device ownership), `LoginCalls` (what each call refuses and leaves),
  `SeatRepairs` (runs that mix the interfaces), `LoginManager` (the in-place classes) and `LoginExamples` (short runs).
- **Supervision.** `RestartIntensity`, `SupervisorTree`, `RestartStrategy`, `SupervisionRuns`, `SupervisionLaws` (exits
  answered and noted, said by policy and exit code) and `ServiceTree`.
- **Keeping the service manager alive.** `CrashRecovery`, `CrashHistory` (every turn said by the events before it) and
  `InitLoop`.
- **Status text.** `ServiceStatus`.

Where the source updates things in place there is a class or a method with loops, proved equal to a function or step
relation on values; the laws are then proved about that function or relation. Clock readings, forks, exits, probe
results, short reads and writes and socket contents are parameters, quantified over without restriction.

## Where the code and its promises part

The model follows the code. Each of these has a lemma with the exact condition.

- A service that only asked to start *after* a blocked one is neither blocked nor ever started; it is left over
  silently, and `is_complete` can answer true too early (`FrontierRuns.QuietExactly`,
  `FrontierExample.SoftDependentIsStranded`, `FrontierRuns.IsCompletePrematureExactly`). Only unit tests call
  `is_complete`; the startup loop decides by itself when it is done.
- A oneshot whose spawn fails is awaited all the same and never exits, so startup waits for it forever; a service
  without a readiness check whose spawn fails counts as ready, and with it the services that require it may start
  (`BootBooks.EverybodyAnswered`, `BootExamples.OneshotNeverSpawned`, `BootBooks.ImmediateIsReady`,
  `BootExamples.ImmediateNeverSpawned`).
- The text of a log message points into a buffer that is shifted before the text is used
  (`LogTexts.LogTextSurvivesExactly`, `LogTexts.SecondTextReadForFirst`).
- After garbage, a read that cuts the two magic bytes apart loses the frame
  (`FrameStreams.CutFrameDeliveredExactly`).
- When the stream from PID 1 ends, frames still buffered by the service manager are never returned
  (`FrameStreams.EndLosesBufferedExactly`, `FrameStreams.DeliversAllExactly`, `FrameStreams.SecondFrameIsLost`).
- The restart bound needs a full window since the earliest representable instant: while the window reaches before it,
  a burst forgets everything earlier (`RestartIntensity.BoundExactly`).
- The documentation says that a failing supervisor escalates to its parent. The parent's action is always empty, and
  the children of the failed supervisor are only marked abandoned: none of them is stopped
  (`RestartStrategy.EscalationAsksNothing`, `SupervisionLaws.ExitAnswered`).
- The documentation speaks of exponential backoff for the service manager. Every successful spawn resets the backoff
  before it can be used, so each restart sleeps 500 ms (`CrashRecovery.RunInvariant`).
- If the fork of an ordinary restart fails, nothing retries it and nothing reboots (`CrashRecovery.DeadExactly`).
- A session whose leader pid equals another live session's leader hides that session from the lookup by pid
  (`LoginUsers.CreateKeepsPidsCompleteExactly`, `LoginExamples.RepeatedLeaderHides`), and its removal takes the entry
  of whoever holds it (`LoginUsers.RemoveKeepsFindableExactly`, `LoginExamples.RemovalHidesTheOther`).
- Activation and promotion leave user states stale (`LoginUsers.ActivateKeepsAccurateExactly`,
  `LoginUsers.RemoveKeepsAccurateExactly`).
- Unlike the Manager, the Seat, Session and User interfaces skip the device handover
  (`SeatDevices.BareActivateExactly`, `SeatDevices.BareRemoveExactly`, `SeatDevices.BareSeatTerminateExactly`,
  `SeatDevices.BareUserTerminateExactly`); `SeatRepairs.MixedFollowsExactly` says what follows for whole runs.

One result bounds a change that has not been made: the device list ignores its seat, which is right as long as the
daemon creates a single seat, as it does now, and would be wrong with a second one (`SeatDevices.FollowsExactly`).

## Model

| member | source | states |
|---|---|---|
| `DependencyGraph.Build` | rust/dynamod-svmgr/src/dependency/graph.rs:28-84 | for any definitions the built graph holds exactly the declared edges between known services, its reverse map is the exact transpose, and the hard requirements lie inside the dependencies |
| `DependencyGraph.AddDefinition` | rust/dynamod-svmgr/src/dependency/graph.rs:40-75 | one definition's four edge lists extend a faithful graph of the definitions before it |
| `DependencyGraph.OneEntryMeans` | rust/dynamod-svmgr/src/dependency/graph.rs:40-75 | one entry says that a service waits for another, whether it stands in requires, wants or after of the first or in before of the second; only requires makes it a requirement |
| `DependencyGraph.DefinitionsAddUp` | rust/dynamod-svmgr/src/dependency/graph.rs:40-75 | the relations of a list of definitions are those of its parts together |
| `DependencyGraph.UnmetCountStep` | rust/dynamod-svmgr/src/dependency/graph.rs:113-118 | the unmet count falls by one exactly when a dependency joins the ready set |
| `CycleSearch.DetectCycles` | rust/dynamod-svmgr/src/dependency/cycle.rs:18-31 | every reported list is a genuine cycle of dependency edges; none is reported if and only if the graph is acyclic; the search terminates |
| `CycleSearch.Search.Dfs` | rust/dynamod-svmgr/src/dependency/cycle.rs:33-63 | a visit finishes its node, restores the path stack, only adds reports and strictly shrinks the white nodes |
| `CycleSearch.ValidateNoCycles` | rust/dynamod-svmgr/src/dependency/cycle.rs:67-74 | accepts exactly the acyclic graphs; otherwise it hands back at least one genuine cycle |
| `ShutdownOrder.Kahn` | rust/dynamod-svmgr/src/shutdown.rs:190-222 | the queue loop yields a duplicate-free topological order that cannot be extended |
| `ShutdownOrder.AppendLeftovers` | rust/dynamod-svmgr/src/shutdown.rs:224-229 | the services stuck behind cycles are appended once each, so all services are there |
| `ShutdownOrder.ComputeReverseTopoOrder` | rust/dynamod-svmgr/src/shutdown.rs:190-234 | for any graph a permutation of all services in which every service precedes each transitive dependency that is not itself stuck behind a cycle |
| `ShutdownOrder.StuckReachesCycle` | rust/dynamod-svmgr/src/shutdown.rs:208-229 | what the queue never reaches depends, in the end, on a cycle |
| `ShutdownOrder.AcyclicStopsAll` | rust/dynamod-svmgr/src/shutdown.rs:190-234 | on an acyclic graph every service stops before each of its transitive dependencies |
| `StartupFrontier.StartupFrontier.constructor` | rust/dynamod-svmgr/src/dependency/frontier.rs:35-55 | the new frontier is the initial state of the step relation |
| `StartupFrontier.StartupFrontier.TakeReady` | rust/dynamod-svmgr/src/dependency/frontier.rs:59-65 | performs a take step |
| `StartupFrontier.StartupFrontier.MarkReady` | rust/dynamod-svmgr/src/dependency/frontier.rs:70-87 | performs a ready step: counters of dependents fall and exactly those reaching zero unblocked are queued |
| `StartupFrontier.StartupFrontier.MarkFailed` | rust/dynamod-svmgr/src/dependency/frontier.rs:92-132 | performs a failure step: hard dependents are blocked transitively, soft dependents counted down |
| `StartupFrontier.StartupFrontier.BlockTransitively` | rust/dynamod-svmgr/src/dependency/frontier.rs:117-131 | the queue-driven search terminates and blocks exactly the services that require the failed one through a path of services not already blocked |
| `Frontier.ReadyKeeps` | rust/dynamod-svmgr/src/dependency/frontier.rs:70-87 | a ready step keeps the frontier invariant |
| `Frontier.FailKeeps` | rust/dynamod-svmgr/src/dependency/frontier.rs:92-132 | a failure step keeps the frontier invariant |
| `FrontierRuns.RunInvariant` | rust/dynamod-svmgr/src/dependency/frontier.rs:35-132 | every state of every run satisfies the invariant and agrees with the events so far |
| `FrontierRuns.CounterIsUnmarkedDependencies` | rust/dynamod-svmgr/src/dependency/frontier.rs:35-132 | in every run an unblocked service's counter is its number of dependencies not yet marked ready or failed |
| `FrontierRuns.TakenOnceWhenSatisfied` | rust/dynamod-svmgr/src/dependency/frontier.rs:59-65 | a service is handed out at most once, with its requirements ready and every other dependency ready or failed |
| `FrontierRuns.BlockedExactly` | rust/dynamod-svmgr/src/dependency/frontier.rs:92-132 | after any run the blocked set is exactly the services that reach a failed one by a non-empty path of requirements |
| `FrontierRuns.BlockedNeverStarted` | rust/dynamod-svmgr/src/dependency/frontier.rs:59-132 | a service blocked at any point of a run is started neither before nor after |
| `FrontierRuns.StartOrderTopological` | rust/dynamod-svmgr/src/dependency/frontier.rs:59-65 | every run starts services in a topological order of the dependencies |
| `FrontierRuns.ShutdownReversesStartup` | rust/dynamod-svmgr/src/shutdown.rs:190-234 | on an acyclic graph whatever a started service transitively needs was started before it and stops after it, for every startup run |
| `FrontierRuns.QuietExactly` | rust/dynamod-svmgr/src/dependency/frontier.rs:92-132 | on an acyclic graph, once nothing is queued or pending, a service is left unmarked exactly when it is blocked or depends, through any chain, on a blocked one |
| `FrontierRuns.WaitingIsNeverMarked` | rust/dynamod-svmgr/src/dependency/frontier.rs:70-132 | whoever waits for a blocked service is never marked, in any graph at any time |
| `FrontierRuns.UnprocessedAreStranded` | rust/dynamod-svmgr/src/dependency/frontier.rs:92-132 | in a quiet state of an acyclic graph the services never processed are exactly those that wait for a blocked one without being blocked; which they are depends only on the graph and the failed services |
| `FrontierRuns.IsCompletePrematureExactly` | rust/dynamod-svmgr/src/dependency/frontier.rs:135-137 | there completion is reported too early exactly when these stranded services number between one and as many as are blocked |
| `FrontierExample.SoftDependentIsStranded` | rust/dynamod-svmgr/src/dependency/frontier.rs:92-137 | a concrete run in which a soft dependent of a blocked service is left over while completion is reported |
| `BootLoop.Boot` | rust/dynamod-svmgr/src/main.rs:162-245 | boot refuses exactly the cyclic graphs; what is marked ready and failed is what the reports of the turns say about what was started; when the loop ends nothing is queued or awaited and only services without a worker are pending; if all are workers, a service was marked exactly when it waits for no blocked one, and if no turn reports a failure all are ready; it ends after at most two turns per service besides those in which everybody awaited stays silent, and after one turn more than there are services if everybody awaited always answers |
| `BootLoop.Loop.Turn` | rust/dynamod-svmgr/src/main.rs:180-245 | one turn carries the books forward: who is awaited, who was marked ready or failed and by what report, whose spawn failed; unless everybody awaited is silent or nothing is left, it starts or marks a further service |
| `BootLoop.Loop.ReapOneshots` | rust/dynamod-svmgr/src/main.rs:523-613 | the marks made and the exits handed on to supervision are the two lists that `BootBooks.ReapsExactly` and `BootBooks.OthersExactly` describe; awaited are afterwards the oneshots that have not exited; nothing else changes |
| `BootBooks.OthersExactly` | rust/dynamod-svmgr/src/main.rs:523-613 | handed on are, in order, exactly the exits at whose position the service was not awaited or had exited at an earlier position |
| `BootBooks.ReapsExactly` | rust/dynamod-svmgr/src/main.rs:523-613 | marked are, in order, exactly the exits at the other positions: ready after success, failed otherwise |
| `BootBooks.ExitsAccounted` | rust/dynamod-svmgr/src/main.rs:523-613 | as multisets, marks and handed-on exits together are all the exits |
| `BootLoop.Loop.StartBatch` | rust/dynamod-svmgr/src/main.rs:190-218 | one take step, then a ready mark for each service without a readiness check; oneshots and probed services become awaited; failed spawns are noted and change none of this |
| `BootLoop.Loop.PollTrackers` | rust/dynamod-svmgr/src/main.rs:220-243 | exactly the trackers with an answer are dropped, marked ready or failed as answered, in whatever order they are polled |
| `BootBooks.EverybodyAnswered` | rust/dynamod-svmgr/src/main.rs:180-245 | once nothing is awaited, every started oneshot exited in a later turn and every started probed worker has answered |
| `BootBooks.FailureReported` | rust/dynamod-svmgr/src/main.rs:220-243 | a service is only marked failed if some turn reported its failed exit or probe |
| `BootBooks.ImmediateIsReady` | rust/dynamod-svmgr/src/main.rs:208-211 | a service without a readiness check is ready once started, also if its spawn failed |
| `BootMarks.MarkedExactly` | rust/dynamod-svmgr/src/main.rs:180-245 | a service started in one turn: without a readiness check it is ready; a oneshot is ready or failed exactly as its first exit in a later turn says, a probed worker exactly as its first answer from its own turn on says, and each is awaited exactly until then; its spawn is noted as failed exactly when it failed in that turn |
| `BootMarks.NeverStarted` | rust/dynamod-svmgr/src/main.rs:180-245 | nothing is ever noted about a service that no turn started |
| `BootExamples.OneshotNeverSpawned` | rust/dynamod-svmgr/src/main.rs:484-498 | a boot of one oneshot whose spawn fails is still starting after any number of turns |
| `BootExamples.ImmediateNeverSpawned` | rust/dynamod-svmgr/src/main.rs:484-498 | a boot of one such service whose spawn fails ends with that service ready |
| `MsgpackReader.DecodeBuffer` | zig/src/msgpack.zig:42-103 | the decoder with its nested loops terminates and equals the decoding function |
| `MsgpackReader.DecodeMap` | zig/src/msgpack.zig:128-144 | the pair loop skips exactly two values per entry |
| `MsgpackReader.DecodeArray` | zig/src/msgpack.zig:146-154 | the element loop skips exactly one value per element |
| `Msgpack.Decode` | zig/src/msgpack.zig:42-103 | success consumes at least one byte and at most the buffer |
| `MsgpackProofs.RoundTrip` | zig/src/msgpack.zig:42-154 | decoding inverts encoding for every value tree, nested to any depth, whatever bytes follow |
| `MsgpackProofs.DecodeExactly` | zig/src/msgpack.zig:42-154 | the decoder accepts a buffer exactly when it starts with the encoding of a value, and returns that value and its length |
| `MsgpackProofs.DependsOnlyOnConsumed` | zig/src/msgpack.zig:42-154 | the result depends only on the bytes consumed |
| `MsgpackErrors.RefusalExactly` | zig/src/msgpack.zig:42-154 | a refused buffer is reported as cut short exactly when some continuation of it decodes, and as unsupported exactly when none does |
| `MsgpackFormats.OneByte` | zig/src/msgpack.zig:47-102 | the one-byte formats and the bytes that are no format here |
| `MsgpackFormats.Unsigned32` | zig/src/msgpack.zig:105-110 | uint 8, 16 and 32 as their tag and bytes, most significant first |
| `MsgpackFormats.Signed32` | zig/src/msgpack.zig:112-117 | int 8, 16 and 32 in two's complement |
| `MsgpackFormats.Wide64` | zig/src/msgpack.zig:105-117 | uint 64 and int 64 as two halves |
| `MsgpackFormats.Strings` | zig/src/msgpack.zig:119-126 | fixstr, str 8 and str 16: the announced bytes and no more |
| `MsgpackReader.LookupMapString` | zig/src/msgpack.zig:159-197 | the offset loop finds the span of the lookup function |
| `MsgpackReader.LookupFinds` | zig/src/msgpack.zig:159-197 | in an encoded map, followed by anything, the lookup yields exactly the encoding of the first value under the key, and nothing when there is none |
| `MsgpackWriter.EncodeUint` | zig/src/msgpack.zig:220-246 | writes the encoding of every 64-bit number at the offset and nothing else, or reports too little room and changes nothing |
| `MsgpackWriter.EncodeString` | zig/src/msgpack.zig:249-271 | the same for strings |
| `MsgpackWriter.EncodeMapHeader` | zig/src/msgpack.zig:274-279 | the same for map headers; more than 15 entries are refused |
| `InitMessages.ParseMeansClassify` | zig/src/ipc.zig:99-134 | from the encoding of any value tree the parser reads exactly the message the tree states, text included |
| `InitMessages.ShutdownParsed` | zig/src/ipc.zig:136-146 | a shutdown request is read as the kind its tree names, anything else as unknown |
| `InitMessages.LogParsed` | zig/src/ipc.zig:148-161 | a log request is read as its level and the bytes of its message |
| `InitMessages.Spelled` | zig/src/ipc.zig:99-161 | the field and variant names as text |
| `Framing.TakesWholeFrame` | zig/src/ipc.zig:53-81 | a whole frame at the front is taken with its payload, whatever follows |
| `Framing.KeepsPartialFrame` | zig/src/ipc.zig:53-81 | a proper prefix of a frame is kept untouched |
| `Framing.DrainPrefix` | zig/src/ipc.zig:53-81 | from any prefix of a frame stream the whole frames come out in order and less than a buffer stays |
| `Framing.ResyncRecovers` | zig/src/ipc.zig:83-93 | garbage in which no magic starts is skipped and the frame behind it is taken |
| `Framing.CutFrameKept` | zig/src/ipc.zig:53-93 | after garbage and the first bytes of a frame: less than a header is kept as it is, otherwise the garbage goes, and with it a lone first magic byte |
| `FrameStreams.CutFrameDeliveredExactly` | zig/src/ipc.zig:35-93 | garbage and a frame in two reads, each of which fits behind what is buffered: the payload is delivered exactly when the first read did not end after the first magic byte, or brought less than a header; otherwise it is never delivered |
| `Framing.SplitMagicIsLost` | zig/src/ipc.zig:53-93 | the shortest buffer that loses a magic byte |
| `FrameStreams.InitDeliversAll` | zig/src/ipc.zig:35-81 | for every sequence of frames and every split into reads, read-then-drain delivers each payload once and in order, never fills the buffer, and is done as soon as everything is read |
| `FrameStreams.RecvDeliversAll` | rust/dynamod-svmgr/src/ipc/init_channel.rs:57-80 | the service manager's receive loop delivers the same payloads in the same order for every split |
| `FrameStreams.RecvTurnKeeps` | rust/dynamod-common/src/protocol.rs:132-154 | one call delivers at most the next payload, and misses none once everything is read |
| `FrameStreams.RecvDropsExactly` | rust/dynamod-svmgr/src/ipc/init_channel.rs:57-80 | for any bytes: a call that finds no magic, a length above 65536 or an undeserializable payload in front drops all that is buffered and delivers nothing; any other call drops no byte and delivers at most the frame in front |
| `FrameStreams.OversizedRecovers` | zig/src/ipc.zig:53-69 | on init's side a length above 65536 drops what is buffered, and frames read later are delivered as if it had not been there |
| `IpcBuffers.ReadBuffer.ReadFrom` | zig/src/ipc.zig:35-49 | appends what the kernel yields to the buffer; a full buffer is emptied instead |
| `IpcBuffers.ReadBuffer.NextMessage` | zig/src/ipc.zig:53-81 | takes the next frame of the specification, parses it, and moves the rest to the front of the array; says what then stands where a log text was parsed |
| `IpcBuffers.ReadBuffer.Resync` | zig/src/ipc.zig:83-93 | moves to the first magic after the front if there is one, and changes nothing otherwise |
| `IpcBuffers.TextSurvivesExactly` | zig/src/ipc.zig:70-78 | a span of a frame is intact after the shift, whatever follows, exactly when at most as many bytes follow as lie before it, or it is empty |
| `LogTexts.LogTextSurvivesExactly` | zig/src/ipc.zig:53-161 | from the sender's value tree to init's buffer: the text read after the message is taken is the tree's, for every continuation of a given length, exactly when that length is at most the text's place in the frame, or the text is empty |
| `LogTexts.SecondTextReadForFirst` | zig/src/ipc.zig:53-161 | two log messages that arrive together, where the text of the second is read for the first |
| `IpcBuffers.InitChannel.TryRecv` | rust/dynamod-svmgr/src/ipc/init_channel.rs:57-80 | on an open connection one read and one decode, equal to a turn of the receiving function; at the end of the stream or after a read error nothing is returned and the buffer stays |
| `FrameStreams.DeliversAllExactly` | rust/dynamod-svmgr/src/ipc/init_channel.rs:57-80 | a series of calls delivers all payloads exactly when each frame has been read by the time only as many calls are left as there are payloads from it on; a matter of frame and read sizes alone |
| `FrameStreams.EndLosesBufferedExactly` | rust/dynamod-svmgr/src/ipc/init_channel.rs:57-80 | if the stream ends when everything has been read, a message is lost exactly when one could still be decoded from the buffer, that is, when the buffer is not empty |
| `FrameStreams.SecondFrameIsLost` | rust/dynamod-svmgr/src/ipc/init_channel.rs:57-80 | of two frames in one read the second stays in the buffer after one call |
| `InitReplies.SendHeartbeatAck` | zig/src/ipc.zig:165-191 | for every 64-bit id the acknowledgement is one frame around the encoding of its value tree; it is never dropped |
| `InitReplies.AckReadsBack` | zig/src/ipc.zig:165-191 | that frame fits 256 bytes, is taken whole by the reader, and looking up id, as well as kind, Response, in_reply_to, recovers the id |
| `InitReplies.SendShutdownSignal` | zig/src/ipc.zig:194-217 | exactly the notices that fit are sent, whole; the others are silently dropped |
| `InitReplies.NoticeReadsBack` | zig/src/ipc.zig:194-217 | looking the notice up recovers id 0, kind Event and, under body, ShutdownSignal, signal, the name |
| `InitReplies.RepliesSpelled` | zig/src/ipc.zig:165-217 | the names in the two replies as text |
| `IsoRecords.ParsePrinted` | zig/src/iso9660.zig:208-237 | a printed directory record parses back to itself |
| `IsoRecords.PutDirRecord` | zig/src/iso9660.zig:496-509 | prints the record at the offset, touches nothing else, returns the next offset |
| `IsoRecords.WriteBoth32` | zig/src/iso9660.zig:490-493 | writes both byte orders in place and nothing else |
| `IsoNames.MatchJolietName` | zig/src/iso9660.zig:244-260 | the loop decides the Joliet match |
| `IsoNames.JolietNamesExactly` | zig/src/iso9660.zig:244-260 | a Joliet name, with or without a version suffix, matches its own component and no other |
| `IsoNames.PlainNamesExactly` | zig/src/iso9660.zig:262-268 | a plain name matches up to version, one trailing dot and ASCII case, and nothing else |
| `IsoNames.ReadRrName` | zig/src/iso9660.zig:281-317 | the entry loop reads the Rock Ridge name of the specification |
| `IsoNames.RrNameOfArea` | zig/src/iso9660.zig:281-317 | from any written system-use area the concatenated name is read, and unfinished names count as incomplete |
| `IsoLabels.MatchesIsCalled` | zig/src/iso9660.zig:329-344 | a record matches a component exactly when it is called that: by its Joliet name, by the finished Rock Ridge name written in its system-use area, and only without one by its plain identifier |
| `IsoLabels.PlainExactly` | zig/src/iso9660.zig:262-268 | for every identifier: a plain match is the part before the first semicolon, less one trailing dot, up to ASCII case |
| `IsoLabels.JolietExactly` | zig/src/iso9660.zig:244-260 | for every identifier: a Joliet match is the component in big-endian UCS-2, up to a version suffix |
| `IsoLabels.AreaExactly` | zig/src/iso9660.zig:281-317 | for every system-use area a record can hold: a name is read exactly when the entries written there finish that name |
| `IsoLabels.SkipExactly` | zig/src/iso9660.zig:321-327 | the skip is the one an SP entry at the start states, and otherwise zero |
| `IsoDirectory.FindInDirectory` | zig/src/iso9660.zig:365-432 | the sector and record loops compute the directory search, whose outcome `IsoSearch.SearchFileExactly`, `IsoSearch.SearchDirExactly` and `IsoLabels.MatchesIsCalled` state |
| `IsoDirectory.SizeRefused` | zig/src/iso9660.zig:374-377 | an empty directory extent and one above 64 MiB are refused unread |
| `IsoDirectory.ScanPacked` | zig/src/iso9660.zig:390-424 | scanning the bytes of a packed, zero-padded sector is searching its records |
| `IsoDirectory.FindInLaid` | zig/src/iso9660.zig:365-432 | in a directory laid out in packed sectors the scan finds what a search of all its records finds, runs across sectors included |
| `IsoDirectory.WriteSector` | zig/src/iso9660.zig:496-509 | any records that fit are written into a zero-padded sector that the scan reads back |
| `IsoSearch.SearchFileExactly` | zig/src/iso9660.zig:351-432 | a file is found exactly when the first match starts a complete run of at most eight extents, and its extents are those of the run in order |
| `IsoSearch.SearchDirExactly` | zig/src/iso9660.zig:365-432 | a directory is found exactly when the first match is a single-extent directory |
| `IsoPaths.WalkPath` | zig/src/iso9660.zig:445-484 | the component loop computes the walk, relative and short paths included, whose outcome `IsoFiles.WalkFindsExactly` states |
| `IsoPaths.WalkResolves` | zig/src/iso9660.zig:445-484 | for any directory tree laid out in packed sectors the walk returns what resolving the path in the tree returns, and nothing beyond eight components |
| `IsoFiles.WalkFindsExactly` | zig/src/iso9660.zig:445-484 | in an image that holds a written tree, an absolute path is resolved to extents exactly when it has at most eight components and they lead, by the names the records were written with, through directories to a complete, non-empty file with these extents; by no other name and to no other file |
| `IsoFiles.ComponentsExactly` | zig/src/iso9660.zig:460-463 | the components of a path are, for every path, what stands between its slashes, in order |
| `IsoFiles.ResolveExactly` | zig/src/iso9660.zig:445-484 | resolving in the tree finds exactly the file the components lead to |
| `IsoPaths.TooDeep` | zig/src/iso9660.zig:460-484 | more than eight components are never resolved, in any image |
| `IsoPaths.RootSkipOfTree` | zig/src/iso9660.zig:434-443 | the Rock Ridge skip is the one stated by the root directory's first record |
| `IsoPaths.SpecialNeverMatches` | zig/src/iso9660.zig:329-344 | the entries for a directory itself and its parent match no component unless they carry a Rock Ridge name |
| `LiveCopy.WriteAll` | zig/src/live.zig:213-225 | writes all of a chunk however short each write falls |
| `LiveCopy.CopyExtent` | zig/src/live.zig:199-236 | copies one extent in chunks for every pattern of short reads and writes |
| `LiveCopy.CopySquash` | zig/src/live.zig:171-245 | success means exactly the in-order concatenation of the image slices was written, of length the total size; it succeeds whenever reads and writes progress and the extents lie on the device |
| `LiveCopy.GatherAt` | zig/src/live.zig:171-245 | of that concatenation: byte i of an extent stands behind all bytes of the extents before it and is the device's byte i of the extent |
| `LiveCopy.CopyFile` | zig/src/live.zig:439-446 | locating and copying: nothing is copied exactly when the walk finds nothing, and otherwise exactly the bytes the walk names |
| `LiveCopy.CopyNamed` | zig/src/live.zig:439-446 | for a tree written to the device something is copied exactly when the path leads to a file there by name; then it is exactly that file's bytes, and it is copied whenever reads and writes progress |
| `Login.RunConsistent` | rust/dynamod-logind/src/state.rs:207-383 | every run of create, remove and activate keeps the login maps consistent: exact duplicate-free session lists, one active session per non-empty seat, users only with sessions, no dangling pid |
| `LoginOrder.RunOrdered` | rust/dynamod-logind/src/state.rs:207-383 | along every run the session lists of seats and users are strictly increasing |
| `LoginOrder.IdsCount` | rust/dynamod-logind/src/state.rs:132-134 | the n-th session created in a run has id n |
| `LoginOrder.ActiveStep` | rust/dynamod-logind/src/state.rs:207-383 | on every seat the active session changes only by a first login, an activation on it, or its own removal; after that it is the smallest live id on the seat, and none exactly when nobody is left |
| `LoginOrder.DisplayStep` | rust/dynamod-logind/src/state.rs:276-346 | a user shows the last of their sessions that came up in the foreground; when that one is removed, the smallest of their live ids |
| `LoginOrder.SessionsStep` | rust/dynamod-logind/src/state.rs:207-383 | a session is live exactly from its creation to its removal, with the user, leader and seat it was created with |
| `Login.CreateKeeps` | rust/dynamod-logind/src/state.rs:207-296 | creation keeps the maps consistent |
| `Login.RemoveKeeps` | rust/dynamod-logind/src/state.rs:299-346 | removal, with the promotion of another session, keeps the maps consistent |
| `Login.ActivateKeeps` | rust/dynamod-logind/src/state.rs:354-383 | activation keeps the maps consistent |
| `LoginUsers.CreateKeepsPidsCompleteExactly` | rust/dynamod-logind/src/state.rs:207-296 | after a creation every session is still found by its leader exactly when no live session had that leader |
| `LoginUsers.RemoveKeepsFindableExactly` | rust/dynamod-logind/src/state.rs:299-346 | a removal leaves every other session findable that was so before exactly when the pid entry of the removed leader, if any, is the removed session's own |
| `LoginUsers.AlwaysFindableExactly` | rust/dynamod-logind/src/state.rs:207-383 | along a run all sessions are findable at all times exactly when no creation repeats the leader of a live session |
| `LoginExamples.RepeatedLeaderHides` | rust/dynamod-logind/src/state.rs:264-265 | two logins with one leader pid, after which the first session is not found |
| `LoginExamples.RemovalHidesTheOther` | rust/dynamod-logind/src/state.rs:304-305 | removing the first of them takes the pid entry of the second |
| `LoginUsers.CreateKeepsAccurate` | rust/dynamod-logind/src/state.rs:276-292 | creation keeps every user's state in step with their sessions |
| `LoginUsers.ActivateKeepsAccurateExactly` | rust/dynamod-logind/src/state.rs:354-383 | activation keeps user states right exactly when it displaces nobody, stays within one user, or both users have another session in the foreground |
| `LoginUsers.RemoveKeepsAccurateExactly` | rust/dynamod-logind/src/state.rs:299-346 | removal keeps user states right exactly when it promotes nobody, the same user, or a user already in the foreground |
| `LoginExamples.ActivationLeavesStatesStale` | rust/dynamod-logind/src/state.rs:354-383 | two logins and a switch, after which both users show the wrong state |
| `LoginExamples.PromotionLeavesStateStale` | rust/dynamod-logind/src/state.rs:299-346 | two logins and a logout, after which the promoted user shows the wrong state |
| `SeatDevices.DevicesFollowActiveSession` | rust/dynamod-logind/src/manager.rs:872-968 | with one seat, after any sequence of Manager calls the devices belong to the user of the active session, or to root |
| `LoginCalls.CreateExactly` | rust/dynamod-logind/src/manager.rs:59-137 | only an unknown seat is refused; the session has the user and leader given and the seat named, or seat0 if none was named and it exists; it is in the foreground exactly when it has no seat or is the first there, and takes the devices exactly in the second case |
| `LoginCalls.ActivateExactly` | rust/dynamod-logind/src/manager.rs:356-388 | refused exactly for an unknown session, or one not on the seat named; of the seat's sessions exactly the chosen one is then in the foreground and its user owns the devices |
| `LoginCalls.RemovalsExactly` | rust/dynamod-logind/src/manager.rs:345-465 | release ends exactly the session, the terminations exactly those of the user or the seat; refused are exactly unknown sessions and seats |
| `SeatDevices.FollowsExactly` | rust/dynamod-logind/src/device.rs:136-191 | over every sequence of calls this holds exactly as long as there is at most one seat; the daemon creates one, so this bounds a future change |
| `SeatDevices.TwoSeatsDisagree` | rust/dynamod-logind/src/device.rs:136-191 | were there two seats, first logins of two users would leave one of them with the wrong owner |
| `SeatDevices.BareActivateExactly` | rust/dynamod-logind/src/seat.rs:24-37 | activation through the Seat or Session interface keeps ownership right exactly when the new session's user already owns the devices |
| `SeatDevices.BareRemoveExactly` | rust/dynamod-logind/src/session.rs:219-231 | termination through the Session interface does so exactly when the session was inactive or the next owner is the same |
| `SeatDevices.BareSeatTerminateExactly` | rust/dynamod-logind/src/seat.rs:77-93 | termination through the Seat interface does so exactly when root owned the devices before |
| `SeatDevices.BareUserTerminateExactly` | rust/dynamod-logind/src/user.rs:23-43 | termination through the User interface does so exactly when the seat was not theirs, or they are root and nobody else is on it |
| `LoginExamples.BareActivationLeavesDevices` | rust/dynamod-logind/src/seat.rs:24-37 | two logins and a switch through the Seat interface leave the devices with the first user |
| `LoginExamples.BareTerminationLeavesDevices` | rust/dynamod-logind/src/session.rs:219-231 | two logins and a termination of the active session leave the devices with the user who left |
| `LoginExamples.BareSeatTerminationLeavesDevices` | rust/dynamod-logind/src/seat.rs:77-93 | two logins and a termination of the seat leave the devices with the first user unless that is root |
| `LoginExamples.BareUserTerminationLeavesDevices` | rust/dynamod-logind/src/user.rs:23-43 | one login and a termination of the user leave the devices with them unless that is root |
| `SeatRepairs.CallSettles` | rust/dynamod-logind/src/manager.rs:872-968 | from any consistent state, whoever owns the devices: the first login on the seat, every activation on it and every removal after which it is another user's or nobody's put ownership right; every other Manager call changes neither the owner nor whose the seat is |
| `SeatRepairs.OwnerIsLastDue` | rust/dynamod-logind/src/manager.rs:872-968 | over every run that mixes Manager calls with the other interfaces the owner is whoever was due at the last such handover |
| `SeatRepairs.MixedFollowsExactly` | rust/dynamod-logind/src/manager.rs:872-968 | over every mixed run ownership is right exactly when the seat is whose it was at the last handover |
| `LoginManager.LoginState.CreateSession` | rust/dynamod-logind/src/state.rs:207-296 | the in-place creation is the creation on values |
| `LoginManager.LoginState.RemoveSession` | rust/dynamod-logind/src/state.rs:299-346 | the in-place removal is the removal on values, whose successor on seat and display `LoginOrder.ActiveStep` and `LoginOrder.DisplayStep` state |
| `LoginManager.LoginState.ActivateSession` | rust/dynamod-logind/src/state.rs:354-383 | the in-place activation is the activation on values |
| `LoginManager.LoginState.RemoveEach` | rust/dynamod-logind/src/user.rs:39-41 | the bare removal loop of the Seat and User interfaces is the repeated removal on values |
| `LoginManager.Manager.CreateSession` | rust/dynamod-logind/src/manager.rs:59-137 | creation with the first handover; an unknown seat is refused and changes nothing |
| `LoginManager.Manager.ActivateSession` | rust/dynamod-logind/src/manager.rs:356-367 | activation with the handover captured before it |
| `LoginManager.Manager.FinalizeSessionRemoval` | rust/dynamod-logind/src/manager.rs:909-968 | removal with the handover to the user of the seat's next session (`LoginOrder.ActiveStep`), or to root |
| `LoginManager.Manager.TerminateUser` | rust/dynamod-logind/src/manager.rs:410-437 | removes the user's sessions one by one |
| `LoginManager.Manager.TerminateSeat` | rust/dynamod-logind/src/manager.rs:440-465 | removes the seat's sessions one by one; an unknown seat is refused |
| `RestartIntensity.RestartIntensity.RecordRestartAt` | rust/dynamod-svmgr/src/supervisor/intensity.rs:32-43 | the eviction loop leaves the deque of the recording function and reports whether it is over the bound |
| `RestartIntensity.DequeIsWindow` | rust/dynamod-svmgr/src/supervisor/intensity.rs:32-43 | for nondecreasing times past the first window the deque is the full history filtered to the window |
| `RestartIntensity.GrantsBounded` | rust/dynamod-svmgr/src/supervisor/intensity.rs:32-43 | then every interval of window length holds at most the maximum of granted restarts |
| `RestartIntensity.BoundExactly` | rust/dynamod-svmgr/src/supervisor/intensity.rs:35-43 | for all histories from an instant on, the bound holds exactly when the maximum is zero or the window does not reach before the earliest representable instant |
| `RestartIntensity.UnderflowGrantsTwice` | rust/dynamod-svmgr/src/supervisor/intensity.rs:36-39 | inside the first window two neighbouring bursts are both granted in full |
| `SupervisorTree.AdditionsKeepTree` | rust/dynamod-svmgr/src/supervisor/tree.rs:84-159 | every sequence of additions, refused ones included, keeps a rooted tree with distinct children whose start index is their place |
| `SupervisorTree.AdditionExactly` | rust/dynamod-svmgr/src/supervisor/tree.rs:84-159 | an addition is refused exactly for a taken name, an unknown parent or a worker as parent, in this order; otherwise the new node has what was asked, its parent lists it last, and nothing else changes |
| `SupervisorTree.NoCycles` | rust/dynamod-svmgr/src/supervisor/tree.rs:240-246 | no node of such a tree is its own ancestor at any height |
| `SupervisorTree.ListedOnce` | rust/dynamod-svmgr/src/supervisor/tree.rs:104-144 | a node occurs once among its parent's children and in no other list |
| `RestartStrategy.StrategyRestartsExactly` | rust/dynamod-svmgr/src/supervisor/strategy.rs:107-160 | under the bound the strategies restart the failed worker, all children, or the children from its start index on, in start order, and stop in exact reverse |
| `RestartStrategy.RestForOneReaches` | rust/dynamod-svmgr/src/supervisor/strategy.rs:139-160 | rest-for-one reaches a sibling worker exactly when its start index is not smaller |
| `RestartStrategy.ExceededAbandons` | rust/dynamod-svmgr/src/supervisor/strategy.rs:89-105 | over the bound exactly the worker children are marked abandoned |
| `RestartStrategy.EscalationAsksNothing` | rust/dynamod-svmgr/src/supervisor/strategy.rs:165-178 | escalating a supervisor's failure yields an empty action and an unchanged tree, whatever the parent |
| `SupervisionLaws.ExitAnswered` | rust/dynamod-svmgr/src/main.rs:646-712 | an exit is answered with starts exactly when the pid is a known worker's, its policy is permanent or it is transient and the exit code is not 0, and the supervisor is under its bound; otherwise nothing is started or stopped |
| `SupervisionLaws.StrangerIgnored` | rust/dynamod-svmgr/src/main.rs:646-665 | the exit of nobody's pid, or of one noted for no worker, at most makes the pid forgotten |
| `SupervisionLaws.ExitNoted` | rust/dynamod-svmgr/src/main.rs:646-712 | the whole tree after an exit: the pid is forgotten; the worker is stopped after code 0 and failed with the exit otherwise; if its supervisor is over the bound all worker children are abandoned; the supervisor remembers a wanted restart; every other node is as before |
| `SupervisionLaws.PidsExactly` | rust/dynamod-svmgr/src/supervisor/tree.rs:162-173 | along every run a pid belongs to the worker it was last spawned for, until it exits |
| `SupervisionLaws.SpawnNoted` | rust/dynamod-svmgr/src/supervisor/tree.rs:162-168 | a spawn notes the pid, sets its worker running, and changes nothing else |
| `SupervisionLaws.GrantedExactly` | rust/dynamod-svmgr/src/supervisor/intensity.rs:32-43 | for nondecreasing times past the first window a restart is granted exactly when it and those within the window before it are at most the maximum |
| `SupervisionLaws.StartsExactly` | rust/dynamod-svmgr/src/supervisor/strategy.rs:40-112 | over every run with a monotone clock past the first window, an exit makes its supervisor start children exactly when the policy wants it and the wanted restarts there within the window number at most the maximum |
| `SupervisionRuns.RunKeepsTree` | rust/dynamod-svmgr/src/supervisor/tree.rs:84-173 | every run of additions, spawns and exits keeps the tree well formed |
| `SupervisionRuns.StampsAreHistory` | rust/dynamod-svmgr/src/supervisor/strategy.rs:83-87 | along every run a supervisor's deque is the deque of exactly the restarts recorded there |
| `SupervisionRuns.StartsBounded` | rust/dynamod-svmgr/src/supervisor/strategy.rs:40-112 | over every run with a monotone clock past the first window, a supervisor starts children at most the maximum number of times per window, whatever its strategy |
| `ServiceTree.ServiceTree.AddSupervisor` | rust/dynamod-svmgr/src/supervisor/tree.rs:84-119 | in place, the addition on values with its three refusals; keeps the tree well formed |
| `ServiceTree.ServiceTree.AddWorker` | rust/dynamod-svmgr/src/supervisor/tree.rs:122-159 | the same for workers, with the start index |
| `ServiceTree.ServiceTree.RegisterPid` | rust/dynamod-svmgr/src/supervisor/tree.rs:162-168 | the worker runs under the pid; the pid is noted even for an unknown worker |
| `ServiceTree.ServiceTree.UnregisterPid` | rust/dynamod-svmgr/src/supervisor/tree.rs:171-173 | forgets the pid and returns whose it was |
| `ServiceTree.ServiceTree.ApplyStrategy` | rust/dynamod-svmgr/src/supervisor/strategy.rs:40-112 | in place, the strategy on values, which `SupervisionLaws.ExitAnswered` and `RestartStrategy.StrategyRestartsExactly` spell out; keeps the tree well formed |
| `ServiceTree.ServiceTree.EscalateFailure` | rust/dynamod-svmgr/src/supervisor/strategy.rs:165-178 | in place, the escalation on values; for a supervisor it changes and asks nothing |
| `ServiceTree.ServiceTree.HandleChildExit` | rust/dynamod-svmgr/src/main.rs:646-712 | in place, the exit handling on values, down to the action carried out, which `SupervisionLaws.ExitAnswered` and `SupervisionLaws.ExitNoted` spell out |
| `CrashRecovery.RunInvariant` | zig/src/event_loop.zig:198-253 | in every run, operator signals included, a live service manager has fewer than five counted rapid failures, and each restart sleeps the initial 500 ms |
| `CrashRecovery.CounterIsTail` | zig/src/child.zig:128-141 | the counter is the number of rapid lives in a row since the last shell |
| `CrashHistory.ExitExactly` | zig/src/event_loop.zig:198-253 | said by the events before it, in every run: an exit opens the shell exactly when an operator signal came since the last exit or shell, or no reboot is due and it completes five counted lives in a row of less than 30 s each since the last shell; a reboot is due when less than 60 s of life follow a shell; what it sleeps, whether a manager is alive and which shutdown is requested afterwards |
| `CrashHistory.SignalExactly` | zig/src/event_loop.zig:180-192 | an operator signal opens the shell at once exactly when no service manager is alive; otherwise it only waits for the exit |
| `CrashHistory.RequestedIsNotCounted` | zig/src/child.zig:128-141 | an exit asked for by an operator signal is not counted as a rapid failure, however short the life was |
| `CrashHistory.PendingIsRequested` | zig/src/event_loop.zig:180-215 | a shell is pending exactly when an operator signal with a live manager lies after the last exit and the last shell |
| `CrashHistory.ArmedIsGuarded` | zig/src/event_loop.zig:216-236 | the guard is armed exactly when no life since the last shell has proved itself |
| `CrashRecovery.TailMeans` | zig/src/child.zig:159-161 | five in a row means that the last five counted lives were all rapid |
| `CrashRecovery.ShellsSeparated` | zig/src/event_loop.zig:216-283 | between two emergency shells lies a life of at least 60 s, or an operator signal |
| `CrashRecovery.BootShellSeparated` | zig/src/event_loop.zig:288-291 | the same between a boot into the shell and the next shell |
| `CrashRecovery.LifeAfterShell` | zig/src/event_loop.zig:261-283 | with a monotone clock that life began after the first of the two shells |
| `CrashRecovery.DeadExactly` | zig/src/event_loop.zig:198-291 | after every event of every run the service manager is alive or a shutdown is requested, except exactly when the event was an exit with no shell asked for, no reboot due and no crash loop completed, the fork failed, and no shutdown was under way |
| `CrashRecovery.FailedForkStrands` | zig/src/event_loop.zig:245-248 | such a run: one exit and one failed fork |
| `InitLoop.Child.Spawn` | zig/src/child.zig:106-123 | a successful spawn resets the backoff and notes the time; a failed one changes nothing |
| `InitLoop.Child.OnExit` | zig/src/child.zig:128-156 | in place, the bookkeeping of an exit; returns the backoff it found |
| `InitLoop.EventLoop.HandleSvmgrExit` | zig/src/event_loop.zig:198-253 | in place, the exit handling on values with both clock readings |
| `InitLoop.EventLoop.EnterEmergencyMode` | zig/src/event_loop.zig:261-283 | clean slate, armed guard, one respawn, or a reboot when it fails |
| `InitLoop.EventLoop.HandleUser2` | zig/src/event_loop.zig:180-192 | in place, the signal handling on values, which `CrashHistory.SignalExactly` and `CrashHistory.PendingIsRequested` state by events |
| `ServiceStatus.FromStr` | rust/dynamod-common/src/types.rs:62-94 | the loop over the split parts computes the parsing function |
| `ServiceStatus.ParseDisplay` | rust/dynamod-common/src/types.rs:39-94 | parsing what is displayed gives back the status, for every optional 32-bit exit code and signal, negative ones included |
| `ServiceStatus.DisplayInjective` | rust/dynamod-common/src/types.rs:39-60 | distinct statuses are displayed differently |
| `ServiceStatus.ParseRefuses` | rust/dynamod-common/src/types.rs:62-94 | refused is exactly what is neither one of the six words nor begins a failure |
| `ServiceStatus.Words` | rust/dynamod-common/src/types.rs:39-60 | the words around exit code and signal |
| `ServiceStatus.Numbers` | rust/dynamod-common/src/types.rs:48-55 | numbers are decimal, with a leading minus |

## Left out

- D-Bus interfaces, object registration, signals and property getters: wrappers over libraries and files.
- Spawning, namespaces, cgroups, privileges and log relay: foreign calls; pids and exits are inputs here.
- Readiness probes: an oracle that answers ready, not ready, timed out or failed.
- `rmp_serde` on the Rust side: a predicate that says which payloads deserialize.
- BootLoop.Boot: the loop is given a finite list of turns. Commands from the control socket during startup are not modelled.
- BootLoop.Loop.ReapOneshots: the supervision that the other exits set off is modelled on its own, in SupervisionRuns.
- InitMessages.LogParsed: a level above 255 is its own outcome, because the source's narrowing cast traps there.
- MsgpackWriter.EncodeString: excludes a string of 65536 bytes or more that would fit the buffer, because the source's narrowing cast traps there.
- SupervisionRuns.HandleExit: the sleeps, stops and starts that carry an action out, and the reaping nested in them, depend on the kernel; their effect on the tree appears as further spawn and exit events.
- SupervisorTree: services removed by a reload are not modelled; services it adds are ordinary additions.
- SeatDevices.DevicesFollowActiveSession: sequential calls only; the source releases its lock between the state change and the handover, so interleaved calls are not covered. Session ids are counter values instead of their decimal text.
- CrashHistory.ExitExactly: a life spawned at millisecond 0 of the clock is not counted, as in the source.
- IsoPaths.WalkResolves: the volume descriptors are not scanned; block size, root and namespace are given.
- Stop timeouts, kill escalation, mounts, loop devices, switching root, kernel logging, epoll and signal plumbing: system calls with no law of their own.
- Log storage, unit suffix parsing, mount flags, configuration files, command-line tools, the PAM module and the systemd shim: parsing and glue without state or laws that span calls.
