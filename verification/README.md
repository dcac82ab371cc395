# Echo server: model and proofs

The repository is a TCP echo server and its clients, for Windows and Linux, over the system's own
asynchronous I/O or over Boost.Asio. This project models its hard parts in Dafny and proves what they
promise, for every input, every interleaving of events and every run.

## What is modelled

- **Buffers** (`Bytes.dfy`): the 1024-character buffers, zero-padded, copied into, scanned to the first
  zero, and cleared by length.
- **Pool** (`Pool.dfy`): connections in use and connections ready for reuse, over lists and over hash
  sets, both against a pool that leaves open which available connection is handed out.
- **Completion-port server** (`WinConnection.dfy`, `WinServer.dfy`, `WinServerImpl.dfy`): the state
  machine of a connection, the server as a transition system over unboundedly many connections, and
  its classes, updated in place and proved against the transition system.
- **Epoll server** (`LinuxServer.dfy`, `LinuxEcho.dfy`, `LinuxServerImpl.dfy`): pool membership, the
  exchange flag, epoll registration and descriptor ownership; what is answered and what is left in
  the buffers; and the classes, proved against the transition system.
- **Shutdown** (`WinShutdown.dfy`, `ExitBaton.dfy`): the null completions of the one server, the token
  in the eventfd of the other, each with its threads as separate actors.
- **Both servers** (`Lifecycle.dfy`): one machine that creates, opens and closes connections, refined
  by both.
- **Client and server together** (`Transcript.dfy`): what a user sees, through the Asio pair and
  through the native pairs.

A connection object is named by its number in creation order, which stands for its address. A class
that the source updates in place is a class here; whole runs and interleavings are stated over values,
and each method's contract ties the object to the step of the value.

## What the code does beyond its comments

Six properties one would expect do not hold without a condition. Each is stated with its exact
condition.

- A chunk that contains a zero character is not echoed (`WinConnection.EchoExact`,
  `WinServer.EchoFidelity`, `LinuxEcho.FidelityExact`), and on the completion-port server what follows
  the zero stays in the buffer of the recycled connection, because `Complete` clears by the length of
  the reply and `Reset` clears nothing (`WinConnection.CleanExact`, `WinServer.CleanRunExact`,
  `WinConnection.RecycledIsFreshExact`, `WinServer.AvailableIsFresh`,
  `WinConnection.ResidueReachesNextSession`). The epoll server clears by the length of the chunk and
  stays clean (`LinuxEcho.ExchangeExact`).
- The completion-port server gives a connection back to the pool before it resets it. A reset that comes
  when another peer already uses the connection breaks the invariant (`WinServer.ResetKeepsInv`,
  `WinServer.Reachable`), the next data then fails (`WinServer.LateResetFails`), and a whole run from the
  start does so (`WinServer.FailingRunFails`).
- An `accept` that fails with an exception leaves its connection in use for ever
  (`LinuxServer.AgreementExact`).
- An exception in a batch of events that also holds the exiter's event loses the exit token when the
  token lies in the eventfd, no edge is pending, and no other thread has the event or what it read
  (`ExitBaton.AbortLosesBaton`, `ExitBaton.AsleepForever`); another `Stop` recovers
  (`ExitBaton.StopRecovers`).
- Several calls of `Stop` can make a thread fail at its read of the eventfd, with any two threads or more
  (`ExitBaton.FailureExact`).
- Every destructor of a connection closes descriptor 0, which no connection owns
  (`LinuxServer.DestructionClosesZero`).

## Assumptions about the environment

- System calls succeed unless a branch models their failure. The failures modelled are: an accept that
  is declined or throws, a read that finds nothing or throws, a dequeued completion that reports a
  failure, an empty eventfd.
- Windows: an operation posted inside `Complete` is dequeued after that `Complete` returned; `WSASend`
  captures its bytes when posted and sends all of them; the bytes of `WSARecv` land before its
  completion is handled and after the posting handler returned; `DisconnectEx` completes with 0 bytes.
- Linux: events of one endpoint are handled one after the other, and only while its descriptor is
  registered; the kernel does not hand out a descriptor that is open; `write` takes all bytes; an
  eventfd write never reaches the counter's limit. The bytes of the ignored trailing read and of the read
  from the previous connection at accept time are parameters of the events.
- The steps on the shared thread count and on the eventfd are atomic and sequentially consistent.

## Model

| member | source | states |
|---|---|---|
| Bytes.Fill | src/Common/System/Endpoint.cpp:247-249 | zeroes a prefix in place and changes nothing behind it |
| Bytes.CopyIn | src/Common/System/Endpoint.cpp:200-202 | overlays the beginning of the buffer, and the rest keeps what it held |
| Bytes.CopyToNul | src/Common/System/Endpoint.cpp:225-231 | returns exactly the text in front of the first zero |
| Bytes.OverlayExact | src/Common/System/Endpoint.cpp:200-202 | position by position: copying puts the data at the beginning and leaves everything behind it, and nothing else does |
| Bytes.ClearExact | src/Common/System/Endpoint.cpp:247-249 | position by position: clearing zeroes the beginning and leaves everything behind it, and nothing else does |
| Bytes.ScanOverlay | src/Common/System/Endpoint.cpp:221-232 | a chunk read over any buffer is scanned back exactly iff it has no zero and no residue follows it |
| Bytes.PadThenScan | src/Common/System/Endpoint.cpp:198-232 | decoding the padded text gives the text back iff the text has no zero, for lengths up to the whole buffer |
| Bytes.ScanThenPad | src/Common/System/Endpoint.cpp:444-467 | padding the decoded text rebuilds the buffer iff the buffer is zero from its first zero onward |
| Bytes.ClearScanned | src/Common/System/Endpoint.cpp:245-249 | clearing as much as was scanned leaves a clean buffer iff nothing stood behind the first zero |
| Pool.PointerList.Release | include/Common/System/Endpoint.h:517-522 | takes the foremost element off the list |
| Pool.PointerList.Remove | include/Common/System/Endpoint.h:524-527 | removes every occurrence and keeps the order of the rest |
| Pool.PointerList.Purge | include/Common/System/Endpoint.h:529-532 | deletes each element of the list once, in order |
| Pool.PointerHashTable.Release | include/Common/System/Endpoint.h:548-554 | takes some element out of the set and leaves the others |
| Pool.ConnectionManager.constructor | include/Common/System/Endpoint.h:590-596 | starts with the default number of connections, all available |
| Pool.ConnectionManager.Get | include/Common/System/Endpoint.h:598-618 | hands out the foremost available connection, or a new one when there is none, and puts it to use |
| Pool.ConnectionManager.Release | include/Common/System/Endpoint.h:620-629 | moves a connection from those in use to the end of those available |
| Pool.ConnectionManager.Purge | include/Common/System/Endpoint.h:508-532 | deletes the available connections in their order, then those in use in theirs |
| Pool.HashConnectionManager.Get | include/Common/System/Endpoint.h:535-618 | over hash sets, hands out an available connection of its choice, as the set pool allows |
| Pool.HashConnectionManager.Release | include/Common/System/Endpoint.h:556-629 | over hash sets, a return is a return of the set pool |
| Pool.Conservation | include/Common/System/Endpoint.h:577-630 | over any history of requests and valid returns, both lists stay duplicate-free and disjoint and hold exactly the created connections |
| Pool.ReleaseKeepsInv | include/Common/System/Endpoint.h:620-629 | a return keeps the pool sound iff the connection was in use |
| Pool.GivenBack | include/Common/System/Endpoint.h:620-629 | a return takes the connection out from between the others in use, which keep their order, and puts it last among those available |
| Pool.ListRefinesSet | include/Common/System/Endpoint.h:504-565 | every history of the list pool is a history of the set pool |
| Pool.SetMinimality | include/Common/System/Endpoint.h:598-618 | whatever connection each request takes, the number created is the initial number or the peak in use, whichever is greater |
| Pool.Minimality | include/Common/System/Endpoint.h:590-629 | the list pool never creates more than its default number or its peak in use, for every default and history |
| Pool.ReuseIsFifo | include/Common/System/Endpoint.h:512-522 | connections are reused in the order in which they became available |
| Pool.DeletedOnce | include/Common/System/Endpoint.h:504-533 | destruction deletes every connection ever created exactly once, and nothing else |
| WinConnection.ExchangeShape | src/Common/System/Endpoint.cpp:234-266 | a chunk causes exactly one send; an empty reply ends the session, any other leads back to reading, with the read buffer cleared by the reply's length |
| WinConnection.EchoExact | src/Server/Server.cpp:166-179 | a whole session, in any chunking, is echoed chunk by chunk iff no chunk holds a zero |
| WinConnection.CleanExact | src/Common/System/Endpoint.cpp:243-250 | clearing the other direction's buffer keeps the read buffer clean through a session iff every chunk served is zero from its first zero onward |
| WinConnection.RecycledIsFresh | src/Common/System/Endpoint.cpp:251-288 | a connection recycled after such a session equals a new one, although reset clears neither buffer |
| WinConnection.RecycledIsFreshExact | src/Common/System/Endpoint.cpp:284-288 | after one chunk the recycled connection equals a new one iff the chunk was zero-tailed |
| WinConnection.ResidueReachesNextSession | src/Common/System/Endpoint.cpp:243-288 | the failing family: a character behind a leading zero is appended to the next session's first reply |
| WinServer.Reachable | src/Common/System/Endpoint.cpp:90-103 | from the start, over any interleaving: in every state one connection in use is the acceptor's, with nothing outstanding, and initial once it was reset; every other has exactly one outstanding operation, the one its state names; every available one is at rest; each is bound to the port once; no assertion fails: iff no connection is reset while a peer uses it |
| WinServer.StepKeepsInv | src/Common/System/Endpoint.cpp:221-266 | from a sound state every completion finds its callback, and the next state is sound iff the step is not the reset of a connection that a peer uses |
| WinServer.CompletionShape | src/Common/System/Endpoint.cpp:234-266 | a completion leaves exactly one operation outstanding, matching the new state, unless it ends a disconnect |
| WinServer.EnabledExact | src/Common/System/IoManager.cpp:46-65 | in a sound state exactly these completions may come: an accept, the one that the state of a connection in use names with any data, and the resets due |
| WinServer.AcceptedReads | src/Server/Server.cpp:153-163 | the peer accepted gets a receive and an empty session on the connection that waited, whose buffers stay; every other connection and session stays |
| WinServer.AcceptKeepsInv | src/Server/Server.cpp:153-163 | handling an accept rearms the acceptor with another connection and starts reading on the accepted one, soundly even when that one is still to be reset |
| WinServer.ResetKeepsInv | src/Common/System/Endpoint.cpp:284-288 | resetting a connection after it was given back keeps the invariant iff no peer uses it by then |
| WinServer.ResetsDue | src/Common/System/Endpoint.cpp:251-258 | over any run without late resets, resets done and resets due together are as many as the completed disconnects of the connection |
| WinServer.OrderlyIsTimely | src/Common/System/Endpoint.cpp:251-256 | it is enough for a run that no accept is handled between the release and the reset of its connection |
| WinServer.LateResetFails | src/Common/System/Endpoint.cpp:234-259 | after a late reset the completion outstanding fails its assertion iff it carries bytes; otherwise the connection disconnects, be it once more |
| WinServer.ReusedBeforeReset | src/Server/Server.cpp:181-185 | a connection not yet reset gets into the acceptor's hands whenever its peer leaves and enough others arrive to use up the pool |
| WinServer.FailingRunFails | src/Common/System/Endpoint.cpp:251-259 | for every default number of connections, a whole run from the start that ends in the failed assertion |
| WinServer.CompletionKeepsClean | src/Common/System/Endpoint.cpp:236-250 | a completion keeps the write buffer clean, and the read buffer clean except for the text being sent, iff the chunk it brings, if any, has only zeros behind its first zero |
| WinServer.CleanRunExact | src/Common/System/Endpoint.cpp:152-288 | over any run without late resets, the buffers of all connections are clean at every moment iff every chunk of the run has only zeros behind its first zero |
| WinServer.EchoFidelity | src/Server/Server.cpp:166-179 | over all connections and interleavings without late resets, each session's received bytes always equal its delivered bytes followed by those in flight, iff no chunk of the run holds a zero |
| WinServer.SessionsMatchRun | src/Server/Server.cpp:153-179 | a session counts exactly the completions of its own connection since its last accept |
| WinServer.AvailableIsFresh | src/Common/System/Endpoint.cpp:251-288 | for arbitrary data, a connection waiting in the pool equals a new one iff the chunks it received over all its sessions leave nothing behind |
| WinServer.RunLeaves | src/Common/System/Endpoint.cpp:198-266 | whatever the interleaving, sessions and data, both buffers of a connection hold what its own chunks leave behind, one after the other, and nothing else |
| WinServer.ZeroTailedAvailableIsFresh | src/Common/System/Endpoint.cpp:251-288 | without a character behind a chunk's first zero, every connection waiting in the pool equals a new one |
| WinServer.LeaveExact | src/Common/System/Endpoint.cpp:243-250 | position by position, what a chunk leaves in arbitrary buffers |
| WinServer.VisitWorks | src/Server/Server.cpp:153-185 | from every clean state a whole visit is possible: accept, echo, leave, release and reset end with the connection as new, last in the pool, and no further reset due |
| WinServerImpl.CConnectionImpl.constructor | src/Common/System/Endpoint.cpp:144-172 | a new connection is initial, with zeroed buffers and nothing outstanding |
| WinServerImpl.CConnectionImpl.Write | src/Common/System/Endpoint.cpp:198-219 | posts a send of exactly the data, over what the write buffer held before |
| WinServerImpl.CConnectionImpl.GetInputData | src/Common/System/Endpoint.cpp:221-232 | returns the text in front of the first zero of the read buffer |
| WinServerImpl.CConnectionImpl.Complete | src/Common/System/Endpoint.cpp:234-266 | in place, does what the value-level completion does, with the buffer chosen after the callback; the end of a disconnect releases and resets |
| WinServerImpl.CWinSockServer.DoAccept | include/Server/Server.h:130-137 | takes a connection from the pool, creating and binding it if need be, and makes it the acceptor's |
| WinServerImpl.CWinSockServer.OnAcceptComplete | src/Server/Server.cpp:153-163 | in place, one accept step of the transition system |
| WinServerImpl.CWinSockServer.HandleAccept | src/Common/System/IoManager.cpp:46-65 | a dequeued accept completion is one step of the transition system, and the objects stay sound and separate |
| WinServerImpl.CWinSockServer.HandleRead | src/Common/System/IoManager.cpp:46-65 | a dequeued receive completion is one step of the transition system |
| WinServerImpl.CWinSockServer.HandleWrite | src/Common/System/IoManager.cpp:46-65 | a dequeued send completion is one step of the transition system |
| WinServerImpl.CWinSockServer.HandleDisconnect | src/Common/System/IoManager.cpp:46-65 | a dequeued disconnect completion is the release step followed by the reset step: the connection is initial, last in the pool, and no further reset is due |
| WinShutdown.StopCovers | src/Common/System/IoManager.cpp:33-39 | once Stop was called, sentinels queued or still to be posted number at least the threads that run or may start, whatever else happens |
| WinShutdown.Drain | src/Common/System/IoManager.cpp:41-66 | with a sentinel per thread in the queue, all that is ever dequeued is a prefix of that queue, and while a thread is left it has something to take |
| WinShutdown.ShutdownTerminates | src/Common/System/IoManager.cpp:33-66 | after every Stop returned, the threads take at most the packets then queued, however much I/O arrives, and go on until none is left |
| WinShutdown.QueueConservation | src/Common/System/IoManager.cpp:41-66 | over any run, what was queued and what was enqueued is what was dequeued and what is queued, in order |
| WinShutdown.AddedExact | src/Common/System/IoManager.cpp:33-39 | each packet is enqueued as often as it arrived, and a sentinel as often as one was posted |
| WinShutdown.ThreadConservation | src/Common/System/IoManager.cpp:59-65 | over any run, a thread leaves by a sentinel it dequeues or by a completion that reports a failure, and by nothing else |
| WinShutdown.StopConservation | src/Common/System/IoManager.cpp:33-39 | over any run, sentinels posted and due are the number of threads for every call of Stop |
| WinShutdown.ShutdownWorks | src/Common/System/IoManager.cpp:33-66 | for any number of threads, a whole run in which all start, Stop is called once, and all leave with the queue empty |
| WinShutdown.CIoManager.Stop | src/Common/System/IoManager.cpp:33-39 | appends one sentinel per thread to the queue, as a call of Stop at the port does |
| WinShutdown.CIoManager.Run | src/Common/System/IoManager.cpp:41-66 | one thread handles exactly what precedes the first sentinel, consumes that, and leaves what its handlers enqueued, as a run of the port does |
| WinShutdown.ArrivalsExact | src/Common/System/IoManager.cpp:59-65 | what each handler enqueued stands in the queue whole and in order, one batch behind the other |
| ExitBaton.Accounting | src/Common/System/IoManager.cpp:138-176 | in every run, exceptions included: eventfd counter plus values held by threads equals the effective Stops; the count is the initial number minus the threads that decremented it, and never wraps |
| ExitBaton.StopWritesOnce | src/Common/System/IoManager.cpp:138-151 | over any run, each call of Stop past its check writes the eventfd once: writes done and due are as many as the checks passed |
| ExitBaton.EdgesTakenOnce | src/Common/System/IoManager.cpp:78-91 | over any run, wake-ups are never more than writes of the eventfd, the pending edge included |
| ExitBaton.NoExitWithoutStop | src/Common/System/IoManager.cpp:153-176 | before a Stop has written, no thread has left or is about to, other than by an exception |
| ExitBaton.RunKeepsInv | src/Common/System/IoManager.cpp:78-91 | a positive counter always has a pending edge or a thread with the event delivered, in every interleaving in which no handler throws in front of the exit event |
| ExitBaton.CarriedExact | src/Common/System/IoManager.cpp:153-176 | with exceptions: at every moment of a run a positive counter has a pending edge or a thread that has the event or its value, iff no exception in front of the exit event takes away the last of these |
| ExitBaton.WakeExact | src/Common/System/IoManager.cpp:78-91 | a waiting thread can get the event without another Stop iff an edge is pending, a thread holds a value to write, or a thread with the event has something to read |
| ExitBaton.Progress | src/Common/System/IoManager.cpp:153-176 | no lost wake-up: after an effective Stop some exit step is enabled while any thread runs, even after failed reads and exceptions |
| ExitBaton.AllThreadsLeave | src/Common/System/IoManager.cpp:138-176 | in every run the threads take at most five steps each; after an effective Stop, a run whose exceptions are harmless is stuck only when no thread is left |
| ExitBaton.SingleStop | src/Common/System/IoManager.cpp:138-151 | in every run with one Stop past its check, no read of the eventfd fails and at most one thread is inside Signal |
| ExitBaton.CountReachesZero | src/Common/System/IoManager.cpp:138-176 | when nothing is left to do after one effective Stop, the count equals the number of exceptions, and a later Stop leaves the eventfd alone iff there were none |
| ExitBaton.ShutdownWorks | src/Common/System/IoManager.cpp:138-176 | for any number of threads, a whole run in which all start, Stop is called once, and all leave one after the other, with the count at zero and the token in the eventfd |
| ExitBaton.TwoStopsFail | src/Common/System/IoManager.cpp:78-91 | two Stops can make a thread fail its read, with both tokens in the hands of the other |
| ExitBaton.FailureExact | src/Common/System/IoManager.cpp:78-91 | some run with several Stops has a failed read iff there are at least two threads |
| ExitBaton.AbortLosesBaton | src/Common/System/IoManager.cpp:165-174 | after an exception in front of the delivered exit event, a waiting thread can still get the event without another Stop iff the eventfd is empty, an edge is pending, or another thread has the event or holds its value |
| ExitBaton.AsleepForever | src/Common/System/IoManager.cpp:165-174 | once the baton is lost, no continuation without another Stop delivers the event to anyone, and each waiting thread goes on waiting or fails by itself |
| ExitBaton.StopRecovers | src/Common/System/IoManager.cpp:138-151 | another Stop gets past its check and wakes a thread left waiting |
| ExitBaton.Exiter.Signal | src/Common/System/IoManager.cpp:78-91 | the first signal adds one token; a later one puts back what it took and raises an edge, or fails on an empty eventfd |
| ExitBaton.IoManager.Stop | src/Common/System/IoManager.cpp:138-151 | does nothing when the count is zero, otherwise adds one token and an edge, through the check and the write of the system |
| ExitBaton.IoManager.HandleBatch | src/Common/System/IoManager.cpp:165-174 | the first exit event or exception in a batch decides: a thread that leaves decrements the count and keeps the token in the eventfd with an edge, one that throws changes neither |
| ExitBaton.IoManager.Leave | include/Common/System/IoManager.h:44 | the exiter's event makes its thread leave iff the eventfd is not empty |
| ExitBaton.LeavingIsThreeSteps | include/Common/System/IoManager.h:44 | an undisturbed exit is read, write and decrement of the system, and leaves the token in the eventfd with an edge |
| LinuxServer.RunKeepsInv | src/Common/System/Endpoint.cpp:469-503 | in every run, exchange flag, descriptor, registration and pool membership stay consistent, and the assertion on the flag never fails |
| LinuxServer.StepKeepsInv | src/Server/Server.cpp:209-250 | no event fires the assertion on the exchange flag, whatever its reads find |
| LinuxServer.SuccessfulAccept | src/Common/System/Endpoint.cpp:352-374 | an accepted descriptor goes to one idle connection, which is put to use, flagged, registered, and remembered by the acceptor; buffers and all other connections stay |
| LinuxServer.DeclinedAccept | include/Server/Server.h:130-137 | a declined accept leaves the active list exactly as it was and rotates the available list, or extends it by the one connection created; no connection and no registration changes |
| LinuxServer.FatalAccept | src/Common/System/Endpoint.cpp:352-363 | an accept that throws leaves its connection in use without a descriptor, and changes nothing else |
| LinuxServer.PeekedBuffers | src/Server/Server.cpp:209-220 | an accept event that succeeds reads into the read buffer of the connection accepted before, and changes no other buffer |
| LinuxServer.DataChanges | src/Server/Server.cpp:222-250 | a data event changes nothing, or the buffers of its connection, or, at the end of the stream, gives that connection back without a descriptor |
| LinuxServer.ExchangeBuffers | src/Common/System/Endpoint.cpp:469-489 | position by position, what an exchange leaves in arbitrary buffers |
| LinuxServer.EnabledExact | src/Common/System/IoManager.cpp:165-174 | in a sound state any accept outcome with a descriptor that is not open may come, and any data on a registered descriptor |
| LinuxServer.RunCalls | src/Common/System/Endpoint.cpp:352-374 | over any run, a descriptor is accepted as often as the system yields it, registered as often unless it is zero, and unregistered and closed as often as its stream ends |
| LinuxServer.DisconnectKeepsFdInv | include/Common/System/Endpoint.h:475-482 | disconnecting unregisters, then closes, and is harmless when repeated |
| LinuxServer.RunOrphans | src/Common/System/Endpoint.cpp:352-363 | connections in use without an exchange number exactly the accepts that threw |
| LinuxServer.AgreementExact | src/Server/Server.cpp:209-260 | active iff exchanging iff registered, at the end of a run, iff no accept of the run threw |
| LinuxServer.DescriptorOwnership | src/Common/System/Endpoint.cpp:491-503 | every accepted descriptor goes through accept, register, unregister, close in this order, again and again, and is not open after destruction |
| LinuxServer.DestructionClosesZero | include/Common/System/Endpoint.h:350-353 | destruction closes descriptor 0 once per connection |
| LinuxServer.DestroyedInOrder | include/Common/System/Endpoint.h:475-482 | connections are destroyed one after the other, in the order given |
| LinuxEcho.ExchangeExact | src/Common/System/Endpoint.cpp:469-489 | any chunk is answered up to its first zero, and both buffers end clean iff the ignored read brought nothing beyond the chunk's length |
| LinuxEcho.FidelityExact | src/Server/Server.cpp:240-249 | all bytes consumed are answered iff the chunk has no zero and the second read finds nothing |
| LinuxEcho.StepCleanExact | src/Server/Server.cpp:209-250 | all connections' buffers stay clean over a step iff its ignored read is harmless, including the read from the previous connection |
| LinuxEcho.PerChunkEcho | src/Server/Server.cpp:222-250 | over any run with harmless ignored reads, each reply depends on its chunk alone, and all buffers end clean |
| LinuxServerImpl.ConnectionImpl.Set | src/Common/System/Endpoint.cpp:420-429 | takes the descriptor and starts exchanging |
| LinuxServerImpl.ConnectionImpl.Disconnect | include/Common/System/Endpoint.h:478-482 | unregisters and closes the descriptor once, and does nothing when there is none |
| LinuxServerImpl.ConnectionImpl.Complete | src/Common/System/Endpoint.cpp:469-489 | in place, the value-level exchange, disconnect, or nothing, depending on what the read finds |
| LinuxServerImpl.LinuxServer.OnDataExchangeComplete | src/Server/Server.cpp:222-250 | answers with the scanned text, drops the second read, returns the length to clear; on end of stream disconnects and releases |
| LinuxServerImpl.LinuxServer.DoAccept | include/Server/Server.h:130-137 | takes a connection and gives it back unless it took a descriptor; an exception leaves it in use |
| LinuxServerImpl.LinuxServer.HandleAccept | src/Server/Server.cpp:209-220 | an event of the listening socket is one step of the transition system, with the read from the previous connection |
| LinuxServerImpl.LinuxServer.HandleData | src/Common/System/IoManager.cpp:165-174 | an event of a registered descriptor is one step of the transition system, and sends exactly its reply |
| LinuxServerImpl.LinuxServer.Destroy | include/Common/System/Endpoint.h:475-482 | destruction makes exactly the system calls of the value-level destruction, available connections first |
| Lifecycle.WinRefines | src/Server/Server.cpp:130-185 | every run of the completion-port server without late resets is a run of the create-open-close machine, with the acceptor's connection idle |
| Lifecycle.WinTraceExact | src/Server/Server.cpp:153-185 | in that run the machine opens as often as an accept is handled, and closes a connection as often as its disconnect completes |
| Lifecycle.LinRefines | src/Server/Server.cpp:189-260 | every run of the epoll server is a run of the same machine, with each declined accept a failed opening |
| Lifecycle.LinTraceExact | src/Server/Server.cpp:209-250 | in that run the machine opens as often as an accept takes a connection, fails to as often as one is declined, and closes as often as a stream ends |
| Lifecycle.SessionsAlternate | include/Common/System/Endpoint.h:577-630 | in the machine, each connection's sessions follow one another: opened as often as closed, plus one while live |
| Lifecycle.WinSessionsAlternate | src/Server/Server.cpp:153-185 | on the completion-port server, a connection was handed to a peer as often as it was given back, and once more while it has one |
| Lifecycle.LinSessionsAlternate | src/Server/Server.cpp:189-260 | on the epoll server, a connection was opened as often as it was closed, and once more while it is in use |
| Transcript.AsioConnection.OnReadComplete | src/Server/Server.cpp:35-51 | answers with its whole buffer, the chunk over what it held before |
| Transcript.AsioClient.OnRun | src/Client/Client.cpp:16-48 | every line comes back exactly, whatever bytes the lines hold, although frames carry residue |
| Transcript.SystemClient.OnRun | include/Client/Client.h:119-152 | shows of each reply its beginning, as long as the shorter of reply and line |
| Transcript.WinTranscriptExact | include/Client/Client.h:139-150 | the completion-port pair shows every line iff no line holds a zero |
| Transcript.LinTranscriptExact | include/Client/Client.h:139-150 | the epoll pair shows every line iff no line holds a zero |
| Transcript.TranscriptsAgree | src/Client/Client.cpp:36-46 | the Asio pair and the completion-port pair show the same transcript iff no line holds a zero |

## Left out

- Socket setup, address lookup, peer names, console output and option parsing: no state of their own.
- Exception wrappers, single-instance guard, socket-subsystem initialisation: thin layers over the system.
- Signal handlers: `Stop` may be called at any time and any number of times.
- Thread pools: the loops that create and join a fixed number of threads; the threads start in any order and at any time.
- Boost.Asio scheduling, errors and connection set-up: the Asio server is a read and write alternation on one buffer.
- Two threads handling events of one connection at once, and partial writes: the code gives no guarantee there.
- Connections that hang for ever: an end of stream found by the ignored trailing read is not reported again, and a failed completion stops its connection without disconnecting it; the model says nothing about such connections being released.
- Descriptor ownership of the listening socket, the epoll descriptor and the eventfd: each is opened and closed once by one object.
- Lines longer than a buffer, and empty lines, which a client sends as nothing and then waits for.
- Pool.HashConnectionManager.Get: the hash order is left open, so nothing is said about the order of reuse.
- LinuxServer.DescriptorOwnership: excludes the descriptor of value zero, which the code treats as a failed accept and its destructors close.
