# optisocks5, verified

This project models the optisocks5 library in Dafny and proves what it is for: a SOCKS5
client may ship greeting, credentials and request in one send, and a byte-exact server
reacts as if each phase had waited. RFC 1928 (sections 3 to 7) and RFC 1929 (section 2)
give the wire formats.

## How it is laid out

| file | what it holds |
|---|---|
| `Wire.dfy` | bytes, addresses, protocol constants |
| `Codec.dfy`, `CodecLaws.dfy`, `CodecImpl.dfy` | what builders write and parsers read; round trips, lengths, self-delimitation; the in-place algorithms |
| `ServerModel.dfy`, `ServerSessions.dfy` | the server machine on values; the class whose methods update fields, every one proved to move its state as the model says |
| `ServerSpec.dfy` | a whole client stream read in one piece, and the proof that the machine refines it under every chunking |
| `ServerGrammar.dfy`, `AuthGates.dfy`, `WaitBounds.dfy`, `StaleDecisions.dfy`, `HookedRuns.dfy`, `Decisions.dfy`, `Targets.dfy`, `Endings.dfy` | what holds after any calls by any caller, and that a session under its driver is such a run; what a list of decision calls comes to |
| `ClientModel.dfy`, `ClientSessions.dfy` | the optimistic client: batch verdict, incremental parser, the class |
| `Transcript.dfy`, `Links.dfy`, `Exchanges.dfy`, `Composition.dfy`, `Desync.dfy` | client and server joined by two byte queues, with matching and with mismatched policies; fair schedules come to rest |
| `Sockets.dfy`, `StagedModel.dfy`, `Clients.dfy`, `StagedExchange.dfy`, `Agreement.dfy` | exact reads under a deadline, the two blocking clients, and the proof that optimistic means staged |
| `Schedules.dfy`, `Driver.dfy`, `DriverMemory.dfy`, `EndToEnd.dfy`, `Outcomes.dfy` | the threaded server's loop over the session and the schedules it can follow; from its hooks and dial to what the client is told |
| `ByteTables.dfy` | the protocol in numbers: which bytes get which answer, and one exchange written out |
| `Chain.dfy` | handshakes pipelined through themselves to any depth |
| `Refusals.dfy`, `Prospects.dfy`, `Deviations.dfy` | where the code departs from the standard or from its own documentation, with the exact condition |

## How to read the model

* An exception out of `next_event` is the event `Raised`: `NoDecision` for the RuntimeError
  of `connect_wait`, `Unencodable` for the ValueError of the reply builder (a REP, port or
  host that does not fit). As in the source, the state has already been assigned when the
  builder raises.
* A whole stream means a `Story`: the events up to the first `Relay`, `Close` or builder
  exception, with `NeedData` erased, and the bytes never consumed. Hooks are functions from
  the session's flags and the event to decision calls.
* `inet_pton` and `inet_ntop` are four function parameters with four laws (`Codec.Lawful`):
  parsing undoes printing, a printed IPv6 text is not an IPv4 text, results have 4 and 16
  bytes, four zero bytes print as `0.0.0.0`. The type `Codec.Inet` carries a witness.
* `request`/`reply` and `parse_request`/`parse_reply` have one wire shape; each pair is one
  function of the model. The same goes for `reply_size` and `_request_len`.
* Sockets, clocks, hooks and dialling are oracles: any chunk size, any waiting time within
  an armed timeout, any error; a send may raise after any part of its data has gone.
* A client on the wire is what it does given the bytes it has taken (`Exchanges.Talker`); the
  optimistic and the staged client are two such clients, joined to one server's end.
* `_recv_exact` and the example's `recvn` are one method, with a deadline and without.
* The size guards "greeting too large" and "request too large" are dead code: the class
  proves `assert false` in both branches.

## What the code does where its documentation says otherwise

* `README.md` of the repository (lines 98-99) says bad peers are "rejected with a protocol
  reply, not left hanging". A wrong greeting version gets a bare close, whatever follows.
  A wrong version of the credentials message gets nothing until more than 513 bytes stand
  behind the greeting, then a bare close (`Refusals.MuteStory`; inputs `BareClose` and
  `LeftHanging`). The third way is a refusal that is none on the wire: a hook's code 0
  reads as success, and a code outside one byte ends the thread with an exception. A
  session whose handshake ends without relaying has told the client it was refused, if and
  only if its bytes have neither fault and a connection, if one was asked for, was refused
  with a code from 1 to 255 (`Refusals.RefusalToldExactly`). This is on bytes: where the binding decodes UTF-8, a user
  name or host that is not UTF-8 raises, and that peer gets a bare close too. As for peers
  that never see a close, `Prospects.HopelessExactly` says on the bytes alone which streams
  can no longer lead to a connection, and `Prospects.HopelessToldExactly` that such a peer
  is told, 261 bytes later at the latest, unless it has one of the two faults, and then
  never.
* Client bytes that arrive with the handshake stay in the session's buffer, and the default
  relay, which reads the socket, never sees them. Whatever the schedule of its receives, a
  thread that relays holds exactly what it received beyond the pipeline
  (`Schedules.HeldIsBeyond`). With any bytes sent early, some schedule loses them
  (`Schedules.SomeRunHolds`): the relay sees all the client sent, whatever the schedule, if
  and only if the client sent nothing before it was answered (`Schedules.NothingHeldExactly`).
* A server without authentication selects "no authentication" even if it was not offered
  (`Deviations.MethodOfferedExactly`, counterexample `MethodNotOffered`).
* A refusal with code 0, which a hook may choose, makes the client believe it is connected
  (`Deviations.SuccessHonestExactly`, counterexample `RefusedWithSuccess`); one that fits no
  byte leaves it without a word (`RefusedUnsaid`).
* What an authorize hook decides is forgotten when the connection is asked for, but for
  `relay_raw` and, by the driver alone, `intercept`
  (`DriverMemory.AuthorizeRememberedExactly`).
* A hook that decides nothing accepts the credentials (`Deviations.UndecidedAccepts`): the
  answer goes by the last of the hook's ok and reject calls (`AuthGates.AuthAnswerExact`).
* The optimistic and the staged client differ in two things. Rejected credentials leave the
  optimistic client's request unread at the server (`StagedExchange.OptimisticMeansStaged`).
  A server that asks for no credentials serves a staged client that has some
  (`StagedExchange.StagedQuiescence`) and not an optimistic one
  (`Desync.CredentialsUnasked`).

## Model

| member | source | states |
|---|---|---|
| CodecLaws.AddressRoundTrip | csrc/socks5_codec.cpp:38-82 | an encoded address decodes, wherever it stands and whatever follows, to the address with its host normalised, and takes exactly the predicted length |
| CodecLaws.NormalIdempotent | csrc/socks5_codec.cpp:18-34 | normalising a host twice is normalising it once; names that are not IP literals are unchanged; a printed literal is classified as before |
| CodecLaws.ReencodeStable | csrc/socks5_codec.cpp:18-82 | a decoded address re-encodes to the very bytes it came from if and only if it is not an IP literal sent as a domain |
| CodecLaws.MessageSizeStable | src/optisocks5/core/session.py:22-36 | a predicted length never changes as bytes arrive |
| CodecLaws.ParseMessageExtent | csrc/socks5_codec.cpp:132-186 | requests and replies parse exactly when the version is 5 and the predicted length is there, and no later byte matters |
| CodecLaws.MessageSelfDelimiting | src/optisocks5/server/session.py:32-46 | no strict prefix of a complete request or reply parses |
| CodecLaws.MessageRoundTrip | csrc/socks5_codec.cpp:123-195 | a built request or reply, with anything behind it, is measured exactly and reads back with its host normalised |
| CodecLaws.GreetingRoundTrip | csrc/socks5_codec.cpp:86-152 | greetings read back exactly, with any bytes behind |
| CodecLaws.GreetingExtent | csrc/socks5_codec.cpp:146-152 | a parsed greeting is the built greeting of its methods, is unaffected by later bytes, and no shorter piece parses |
| CodecLaws.UserpassRoundTrip | csrc/socks5_codec.cpp:103-170 | credentials read back exactly, with any bytes behind |
| CodecLaws.UserpassExtent | csrc/socks5_codec.cpp:158-170 | a parsed credentials message is the built one, is unaffected by later bytes, and no shorter piece parses |
| CodecLaws.UserpassStuck | src/optisocks5/server/session.py:172-177 | with 513 bytes buffered only a wrong version byte can still keep the parser from succeeding, for good |
| CodecLaws.UdpRoundTrip | csrc/socks5_codec.cpp:199-221 | a datagram decapsulates to its fragment number, normalised address and payload |
| CodecLaws.MessageLayout | csrc/socks5_codec.cpp:123-195 | exactly which requests and replies can be built, and every byte of one: 5, the tag, 0, type 1, 4 or 3, the address, the port high byte first |
| CodecLaws.GreetingLayout | csrc/socks5_codec.cpp:86-95 | every byte of a greeting |
| CodecLaws.UserpassLayout | csrc/socks5_codec.cpp:103-115 | exactly which credentials can be built, and every byte of the message |
| CodecLaws.AnswerLayout | csrc/socks5_codec.cpp:97-175 | the two-byte answers are 5 and 1 with their value, and nothing else is read as one |
| CodecLaws.UdpLayout | csrc/socks5_codec.cpp:199-209 | a datagram is two zeros, the fragment, the address as a request has it, and the payload |
| CodecLaws.UdpExtent | csrc/socks5_codec.cpp:211-221 | a datagram is read exactly when a request with its address would be, whatever its reserved bytes |
| CodecImpl.ClassifyHost | csrc/socks5_codec.cpp:18-34 | the in-place classifier computes the model's address type and raw bytes |
| CodecImpl.EncodeAddress | csrc/socks5_codec.cpp:38-48 | appends exactly the address field, or throws with nothing appended |
| CodecImpl.DecodeAddress | csrc/socks5_codec.cpp:50-82 | the cursor ends exactly where the length predictor says |
| CodecImpl.WriteGreeting | csrc/socks5_codec.cpp:86-95 | builds the specified greeting or refuses more than 255 methods |
| CodecImpl.WriteUserpass | csrc/socks5_codec.cpp:103-115 | builds the specified message or refuses fields over 255 bytes |
| CodecImpl.ReadUserpass | csrc/socks5_codec.cpp:158-170 | the cursor parser computes the specified credentials |
| CodecImpl.WriteMessage | csrc/module.cpp:90-176 | builds the request or reply that `CodecLaws.MessageLayout` gives byte by byte, behind the binding's range checks |
| CodecImpl.ReadMessage | csrc/socks5_codec.cpp:132-186 | the parser of requests and replies computes the specified tag and address |
| CodecImpl.WriteDatagram | csrc/socks5_codec.cpp:199-209 | builds the specified datagram |
| CodecImpl.ReadDatagram | csrc/socks5_codec.cpp:211-221 | the datagram parser computes the specified parts |
| ServerSessions.ServerSession.Receive | src/optisocks5/server/session.py:75-76 | appends to the buffer and changes nothing else |
| ServerSessions.ServerSession.Ok | src/optisocks5/server/session.py:80-83 | clears the rejection and changes nothing else |
| ServerSessions.ServerSession.Reject | src/optisocks5/server/session.py:85-88 | records a rejection and its code and changes nothing else |
| ServerSessions.ServerSession.SetTarget | src/optisocks5/server/session.py:90-92 | the target is the given address, and nothing else changes |
| ServerSessions.ServerSession.RelayRaw | src/optisocks5/server/session.py:98-103 | sets the sticky flag and changes nothing else |
| ServerSessions.ServerSession.Intercept | src/optisocks5/server/session.py:105-110 | sets the intercept flag and changes nothing else |
| ServerSessions.ServerSession.Connected | src/optisocks5/server/session.py:125-127 | records the bound address and changes nothing else |
| ServerSessions.ServerSession.ConnectFailed | src/optisocks5/server/session.py:129-132 | records the failure and its code and changes nothing else |
| ServerSessions.ServerSession.NextEvent | src/optisocks5/server/session.py:136-262 | moves the object's whole state and hands out the event as the model does, and extends the log of the run the object has been through |
| ServerSessions.ServerSession.StepMachine | src/optisocks5/server/session.py:145-262 | one step from any of the seven states |
| ServerSessions.ServerSession.OnGreeting | src/optisocks5/server/session.py:148-169 | the greeting phase; its size guard can never fire |
| ServerSessions.ServerSession.OnAuth | src/optisocks5/server/session.py:171-183 | the authentication phase |
| ServerSessions.ServerSession.OnRequest | src/optisocks5/server/session.py:192-231 | the request phase; its size guard can never fire |
| ServerSessions.ServerSession.OnConnectWait | src/optisocks5/server/session.py:233-256 | the verdict on the request, in the source's order of flags |
| ServerSpec.TraceInvariant | src/optisocks5/server/session.py:136-262 | what has been handed out, followed by the story still to come from the machine's state, is at every moment the batch story of all bytes arrived and to arrive |
| ServerSpec.Refinement | src/optisocks5/server/session.py:136-262 | under any chunking and interleaving the trace is a prefix of the batch trace of any continuation; once the session waits or has finished it is the batch trace and the buffer is exactly what the batch reading leaves |
| ServerSpec.FinishedIsFinal | src/optisocks5/server/session.py:258-262 | after a terminal event later bytes change nothing and are surplus |
| ServerSpec.ChunkingIndependence | src/optisocks5/server/session.py:75-76 | two runs over the same bytes give the same trace and surplus however the bytes are cut and pulls interleaved |
| ServerGrammar.Grammar | src/optisocks5/server/session.py:80-262 | after any calls in any order: the events form a word of one fixed language, each event has consumed exactly the message it must, received bytes are consumed bytes followed by the buffer, and the queue holds at most the closing event |
| ServerGrammar.AtMostOnce | src/optisocks5/server/session.py:145-262 | whatever the caller does there is at most one method answer, one question about credentials, one answer to them, one Connect, one reply and one Relay |
| ServerGrammar.NothingAfterTheEnd | src/optisocks5/server/session.py:258-262 | only Close follows a Relay, a Close or a failed answer |
| AuthGates.AuthGate | src/optisocks5/server/session.py:171-231 | with authentication, every Connect and Relay follows an Authorize whose decisions did not end in a rejection and the success answer sent for it, even if the request was already buffered |
| AuthGates.AuthAnswerExact | src/optisocks5/server/session.py:80-88 | credentials are answered with rejection or success by the last ok or reject call since they were asked about; without one, with success |
| WaitBounds.WaitBound | src/optisocks5/server/session.py:148-208 | a session that asks for more has received at most 1031 bytes, 518 without authentication |
| WaitBounds.WaitBoundReached | src/optisocks5/server/session.py:148-208 | both bounds are attained by a run |
| WaitBounds.AuthGuardExact | src/optisocks5/server/session.py:172-177 | the authentication size guard fires exactly when over 513 bytes stand behind a wrong version byte |
| StaleDecisions.StaleDecisionsForgotten | src/optisocks5/server/session.py:226-256 | two runs of any calls whose next pull asks for the same connection and leaves the same bytes unread cannot be told apart by any later calls if and only if relay_raw was called in both or neither |
| StaleDecisions.StickyExactly | src/optisocks5/server/session.py:98-110 | each sticky flag is set exactly when relay_raw, or intercept, has been called in the run |
| Decisions.CallsRead | src/optisocks5/server/session.py:80-132 | after any list of decision calls each flag is what the calls that bear on it say, read off the list |
| Targets.RelayTarget | src/optisocks5/server/session.py:226-254 | whatever the caller does, a Relay names the last set_target between its Connect and the event that settled it, or what Connect asked for |
| Targets.HookedTarget | src/optisocks5/server/session.py:226-254 | under any driver the relay goes where the hook's last set_target points, or where the client asked |
| Targets.CommandRead | src/optisocks5/server/session.py:217-231 | the session's command is always that of the request it has read |
| Endings.EndReasons | src/optisocks5/server/session.py:258-262 | behind a Relay the next pull says the relay is finished; behind a Close, that the session is closed |
| HookedRuns.HookedIsRun | src/optisocks5/server/session.py:136-143 | a session under its driver is a run of calls: same state, same bytes received, and the trace is the run's events without the stutters |
| HookedRuns.HookedWaits | src/optisocks5/server/session.py:148-208 | under any driver a session asks for more only within 1031 bytes, 518 without authentication |
| HookedRuns.HookedGate | src/optisocks5/server/session.py:171-231 | under any driver of an authenticating session a Connect or Relay comes after the question about credentials and after the success answer |
| HookedRuns.HookedOnce | src/optisocks5/server/session.py:145-262 | under any driver each kind of event happens at most once |
| StaleDecisions.DeadDecision | src/optisocks5/server/session.py:80-132 | a decision taken in a phase that does not wait for it changes no later event |
| StaleDecisions.AfterConnect | src/optisocks5/server/session.py:226-231 | emitting Connect leaves a state fixed by policy, unread bytes, destination and the sticky flag |
| ClientModel.ChunkingIndependence | src/optisocks5/core/session.py:71-132 | however the answers are cut, the last feed gives the batch verdict on all bytes fed, and the buffer is what the batch reading leaves of the bytes accepted |
| ClientModel.SpecStable | src/optisocks5/core/session.py:71-124 | a verdict once reached is unchanged by any further bytes, which are surplus |
| ClientModel.ClientWaitBound | src/optisocks5/core/session.py:84-124 | a waiting client has been given at most 265 bytes, 263 without authentication |
| ClientModel.ClientWaitBoundReached | src/optisocks5/core/session.py:110-115 | both bounds are attained |
| ClientSessions.Session.OptimisticPipeline | src/optisocks5/core/session.py:63-69 | builds greeting, credentials and request glued, or raises the builder's error |
| ClientSessions.Session.Feed | src/optisocks5/core/session.py:71-124 | the parse loop returns the batch verdict on everything fed so far |
| ClientSessions.Session.TakeReply | src/optisocks5/core/session.py:110-122 | the reply phase of one feed |
| ClientSessions.Session.LeftoverIsSurplus | src/optisocks5/core/session.py:126-132 | at completion the accepted bytes are the answers followed by the leftover |
| Transcript.PipelineStory | src/optisocks5/core/session.py:63-69 | a pipeline with any bytes behind it leads a server of the same policy to one conversation fixed by the hook answers, and leaves exactly the surplus |
| Transcript.GreetedStory | src/optisocks5/sync/client.py:149-154 | the same for any greeting that offers the server's method, the staged client's two methods included |
| Transcript.TranscriptReading | src/optisocks5/core/session.py:84-132 | the client's verdict on that conversation is the one the hook answers fix, and every tunnel byte behind it is left over |
| Links.MovesBalanced | src/optisocks5/server/server.py:118-168 | whatever the server's end does, no byte of either direction is lost, duplicated or reordered, and tunnel bytes exist only behind a Relay |
| Links.RestStory | src/optisocks5/server/session.py:136-262 | at rest the trace is the batch trace of all that was sent, and what is unread is what the batch reading never consumes |
| Links.RestReachable | src/optisocks5/server/session.py:136-262 | from every state the server's end comes to rest with nothing in flight |
| Exchanges.EffortsBounded | src/optisocks5/server/server.py:118-168 | in any run with any client, the actions that move bytes or bring an event are bounded by the bytes sent, six events with their answers, and the tunnel's bytes |
| Exchanges.FairRest | src/optisocks5/server/server.py:118-168 | every schedule that gives each side its turn comes to rest, within as many rounds as there is work left |
| Composition.Refines | src/optisocks5/core/session.py:71-132 | the incremental client fed in chunks behaves on the wire as one that reads all it has taken at once |
| Composition.Conservation | src/optisocks5/core/session.py:71-132 | in every reachable state of the composed system no byte of either direction is lost, duplicated or reordered |
| Composition.Safety | src/optisocks5/core/session.py:63-124 | in every reachable state the trace is a prefix of one trace, the client has seen a prefix of one transcript, and its verdict is absent or the one the hook answers fix |
| Composition.EventsCarryTheRequest | src/optisocks5/server/session.py:180-231 | Authorize carries exactly the client's credentials and Connect its normalised target |
| Composition.Quiescence | src/optisocks5/server/session.py:136-262 | at rest the whole conversation has happened, the verdict is the fixed one, unread pipeline bytes are exactly the surplus, and leftover plus bytes in flight are exactly the tunnel's |
| Composition.QuiescenceReachable | src/optisocks5/server/session.py:136-262 | from every reachable state some continuation comes to rest |
| Composition.FairSchedulesRest | src/optisocks5/server/session.py:136-262 | from every reachable state every fair schedule comes to rest within a bound given by the bytes sent |
| Desync.CredentialsUnasked | src/optisocks5/server/session.py:159-215 | a credentialed pipeline into a server without authentication never authorizes, connects or relays, and the client fails exactly when it has the method answer |
| Desync.CredentialsMissing | src/optisocks5/server/session.py:162-169 | a pipeline without credentials into an authenticating server never authorizes, connects or relays, and the client fails on 0xFF |
| Sockets.Arm | src/optisocks5/sync/client.py:37-43 | arms the next receive with what is left of the budget, if anything is |
| Sockets.RecvExact | src/optisocks5/sync/client.py:46-54 | returns exactly the next n bytes in at most n successful receives, none still waiting past the deadline; drops only if the peer sends fewer |
| Sockets.RecvReply | src/optisocks5/sync/client.py:57-74 | returns the reply the greedy parser returns, fails as it fails, and leaves on the socket exactly that parser's leftover |
| StagedModel.ExactDone | src/optisocks5/sync/client.py:46-74 | a reader that stops when it has its verdict has read nothing behind the reply |
| StagedModel.SpecStable | src/optisocks5/sync/client.py:146-172 | the staged client's verdict is unchanged by further bytes |
| Clients.ReadVerdict | src/optisocks5/sync/client.py:129-136 | the greedy read loop ends with the batch verdict on all the proxy delivers, its leftover and the socket holding the rest |
| Clients.OptimisticClient.Connect | src/optisocks5/sync/client.py:121-140 | sends exactly the pipeline, or a prefix of it when the send raises; the outcome follows from the batch reading, a connected client's leftover and socket hold exactly the tunnel bytes, failures close the socket, no receive outlasts the deadline |
| Clients.StagedClient.Connect | src/optisocks5/sync/client.py:146-172 | sends exactly what the answers so far call for, up to the first message that cannot be built, or a prefix when a send or a receive raises; the outcome follows from the batch reading and a connected client's socket holds exactly the tunnel bytes |
| Clients.StagedClient.Negotiate | src/optisocks5/sync/client.py:154-166 | sends credentials only when asked and goes on to the request exactly when the answers allow it |
| Clients.StagedClient.Ask | src/optisocks5/sync/client.py:167-168 | sends the request and reads exactly its reply |
| StagedExchange.StagedSafety | src/optisocks5/sync/client.py:146-172 | in every state of the staged conversation, with a server that asks for the client's credentials or for none, the server's trace is a prefix of that of an optimistic client with what it asks for |
| StagedExchange.StagedQuiescence | src/optisocks5/sync/client.py:146-172 | at rest the staged conversation has that trace and its verdict, also when the server does not ask for the credentials, the client has sent all but what was not asked for or was denied, and the server has read every byte of it |
| StagedExchange.QuiescenceReachable | src/optisocks5/sync/client.py:146-172 | from every reachable state of the staged conversation some continuation comes to rest: it cannot deadlock |
| StagedExchange.FairSchedulesRest | src/optisocks5/sync/client.py:146-172 | from every reachable state of the staged conversation every fair schedule comes to rest within a bound given by the bytes to send |
| StagedExchange.OptimisticMeansStaged | src/optisocks5/core/session.py:39-46 | shipping everything at once, with any early bytes behind it, and waiting for each answer give the server the same events, the client the same verdict and the same tunnel bytes; the server is left the same unread bytes but for the early ones if and only if it does not reject the credentials |
| Agreement.OutcomesAgree | src/optisocks5/sync/client.py:121-172 | both blocking clients return the same outcome, the one the hook answers fix, and hand over the same tunnel |
| Schedules.HeldIsBeyond | src/optisocks5/server/server.py:123-131 | a loop that relays behind a pipeline has received exactly the pipeline and the bytes its session holds |
| Schedules.SomeRunHolds | src/optisocks5/server/server.py:127-131 | some schedule takes the early bytes with the handshake, as many as one receive can bring, all if they fit |
| Schedules.ReceivesBounded | src/optisocks5/server/server.py:127-131 | no receive brings more than 4096 bytes |
| Schedules.NothingHeldExactly | src/optisocks5/server/server.py:152-155 | whatever the schedule the relay is left all that the client sent behind its request, if and only if it sent nothing early |
| Schedules.ByteByByte | src/optisocks5/server/server.py:123-131 | received byte by byte, a stream its handshake consumes whole costs one pull a byte and one an event |
| Driver.OnAuthorize | src/optisocks5/server/server.py:132-139 | the loop's answer to Authorize is the hook's decisions, a rejection if it raises, acceptance if there is none |
| Driver.OnConnect | src/optisocks5/server/server.py:140-151 | whatever the hook does or raises, its calls and then the driver's have been recorded when the loop goes on; `Outcomes` says what they come to |
| Driver.Dial | src/optisocks5/server/server.py:170-184 | every dial outcome that returns is recorded; `Outcomes.Dials` gives the codes |
| Driver.Handle | src/optisocks5/server/server.py:118-168 | a connection's thread ends within 1038 pulls, counted by its schedule, follows one of its schedules, never meets an unmade decision, has handed out the batch trace of what the client sent and sent exactly its answers, a prefix when a send raises, and leaves to the relay exactly the client's surplus without what the session holds |
| Driver.Serve | src/optisocks5/server/server.py:123-157 | the same of the loop alone |
| DriverMemory.DriverRemembersExactly | src/optisocks5/server/server.py:140-151 | whatever was decided before Connect, every server whose connect hook ignores the flags goes on alike if and only if the sticky flags agree |
| DriverMemory.AuthorizeRememberedExactly | src/optisocks5/server/server.py:132-151 | two authorize hooks before the same request lead every such server alike if and only if they leave the sticky flags alike |
| EndToEnd.ServesThePipeline | src/optisocks5/server/server.py:118-168 | a thread given a pipeline holds exactly the expected conversation, its answers give the client the verdict its hooks fix, and when it relays it has received the pipeline and the bytes it holds, and leaves the rest to the relay |
| EndToEnd.PullBoundReached | src/optisocks5/server/server.py:123-157 | a thread may make all of the 1038 pulls |
| EndToEnd.OutcomeRecorded | src/optisocks5/server/server.py:140-184 | for any hook and any dial that returns, an outcome is on record when the verdict is due |
| EndToEnd.UnansweredExactly | src/optisocks5/server/server.py:140-184 | the client is left without a verdict if and only if the reply called for does not fit on the wire |
| Outcomes.HookRefuses | src/optisocks5/server/server.py:140-147 | a connect hook whose last ok or reject is a reject, or that raises: the client is told the code of its last reject or connect_failed, or 1 if it raised, and the thread closes, whatever the dial |
| Outcomes.HookIntercepts | src/optisocks5/server/server.py:148-149 | a hook that intercepts: success with the requested address, whatever the dial |
| Outcomes.Dials | src/optisocks5/server/server.py:150-184 | otherwise the hook's last target, or the requested address, is dialled and relayed to: success with the address it opened from, unless the hook reported a failure, or 5, 6, 3 and 4 for refused, timed out, network unreachable and any other error |
| Outcomes.HookFails | src/optisocks5/server/server.py:140-151 | a hook that reports a failure without refusing: its code stands when the dial opens |
| Outcomes.HookTakesOver | src/optisocks5/server/server.py:152-155 | relay_raw: no reply is sent, and the relay goes to the hook's last target |
| Outcomes.Authorizes | src/optisocks5/server/server.py:132-139 | the thread closes with status 1 if and only if the authorize hook raises or its last ok or reject is a reject |
| Outcomes.OtherCommands | src/optisocks5/server/session.py:218-225 | any command but CONNECT is told 7 and no hook is asked |
| ByteTables.GreetingAnswers | src/optisocks5/server/session.py:148-169 | which greetings get 0, 2, 255 with a close, a bare close, or nothing yet |
| ByteTables.CredentialsAnswers | src/optisocks5/server/session.py:171-190 | which credentials messages are asked about, get status 1 or 0, a bare close, or nothing yet |
| ByteTables.RequestAnswers | src/optisocks5/server/session.py:192-231 | which requests get 8, 1 or 7 in a refusal written out, lead to Connect, or get nothing yet |
| ByteTables.ReplyFate | src/optisocks5/sync/client.py:57-74 | which replies fail and why, which wait, and the code and rest of the others |
| ByteTables.ClientFails | src/optisocks5/core/session.py:84-124 | exactly the bytes on which the optimistic client fails, for each error |
| ByteTables.StagedFails | src/optisocks5/sync/client.py:150-166 | exactly the bytes on which the staged client fails, and that it takes either method it offered |
| ByteTables.StagedSends | src/optisocks5/sync/client.py:153-167 | which answers make the staged client send its credentials and its request |
| ByteTables.Pipelines | src/optisocks5/core/session.py:63-69 | one pipeline with and one without credentials, and both staged greetings, byte by byte |
| ByteTables.WrittenOut | src/optisocks5/server/session.py:145-256 | one exchange with and one without credentials and a refusal of all methods, event by event, and the client's reading, in bytes |
| Chain.BuildBlob | examples/proxy_test.py:113-221 | builds the whole nested chain and payload, or refuses what cannot be built |
| Chain.ChainRuns | examples/proxy_test.py:210-222 | every chain can be run, whatever the first session is given |
| Chain.Peeled | examples/proxy_test.py:210-222 | fresh sessions, each fed what the one before left, in any chunking, peel exactly the hop requests in order and leave exactly the payload |
| Chain.ReadHop | examples/proxy_test.py:226-229 | reads one hop's answers and nothing behind them, each receive under the socket's own timeout |
| Chain.ReadChain | examples/proxy_test.py:223-237 | counts exactly the leading hops that answer with code zero; `Chain.BrokenChain` says where it stops |
| Chain.ChainReached | examples/proxy_test.py:223-235 | on the answers of a successful chain the reader reaches the full depth and leaves the tail unread |
| Chain.BrokenChain | examples/proxy_test.py:223-235 | the reader counts the hops in front of one that rejects the credentials or replies with a code that is not zero, and stops |
| Chain.CutChain | examples/proxy_test.py:223-235 | answers that stop short of a hop's last byte do not count it |
| Chain.HopRead | examples/proxy_test.py:226-229 | behind 5, 2 only 1, 0 goes on; any other first answer is passed over |
| Chain.RefusedNotReached | examples/proxy_test.py:230-231 | the answers of a proxy whose dial was refused count nothing |
| Deviations.MethodOfferedExactly | src/optisocks5/server/session.py:159-169 | the announced method was offered or refuses all, if and only if authentication is required or "none" was offered |
| Deviations.MethodNotOffered | src/optisocks5/server/session.py:159-161 | a client that offers only credentials is told to go on without |
| Deviations.ReplyHonestExactly | src/optisocks5/server/session.py:233-254 | a reply says success exactly when the session relays, if and only if no hook refused with code zero |
| Deviations.SuccessHonestExactly | src/optisocks5/server/session.py:233-254 | the client of a pipeline is told success exactly when the session relays, if and only if no refusal carries code zero |
| Deviations.RefusedWithSuccess | src/optisocks5/server/session.py:85-88 | with a hook that refuses with code zero the client's verdict is success while the session closes without a refusal |
| Deviations.RefusedUnsaid | src/optisocks5/server/session.py:240-244 | with a code that fits no byte the session ends in an exception and the client has no verdict |
| Deviations.UndecidedAccepts | src/optisocks5/server/session.py:171-190 | an authorize hook that makes no call lets the client in |
| Refusals.RefusalToldExactly | src/optisocks5/server/session.py:148-256 | a session whose handshake ends without relaying has told the client it was refused, if and only if the bytes have neither a wrong greeting version nor a wrong credentials version and a connection, if one was asked for, was refused by hooks or dial with a code from 1 to 255; among those that close, the code that fails it is zero |
| Refusals.MuteStory | src/optisocks5/server/session.py:148-177 | all that a peer with one of the two faults is ever sent, at any length: no refusal |
| Refusals.BareClose | src/optisocks5/server/session.py:149-151 | a SOCKS4 request gets a bare close |
| Refusals.LeftHanging | src/optisocks5/server/session.py:172-177 | a request in place of credentials gets silence |
| Prospects.HopelessExactly | src/optisocks5/server/session.py:148-231 | a condition on the bytes alone holds if and only if no continuation under any hooks leads to a connection |
| Prospects.HopelessToldExactly | src/optisocks5/server/session.py:148-231 | whatever a hopeless peer goes on to send, it is told within 261 bytes, unless it has one of the two faults, and then never |
| Prospects.ToldBoundReached | src/optisocks5/server/session.py:192-208 | after 260 bytes a hopeless peer may still not have been told |

## Left out

- Sockets.RecvExact: how a read ends early is `Dropped` (the peer closed) or `Disturbed` (time ran out, or the receive raised); which exception class carries it is not modelled.
- Driver.Handle: the byte pump that runs after `Relay`, the `on_disconnect` hook and the closing of the upstream socket are not modelled, only what the pump is handed.
- Clients.OptimisticClient.Connect: opening the connection is not modelled; the method starts on an open socket.
- Clients.StagedClient.Connect: opening the connection is not modelled; error texts are reduced to the error cases of the optimistic client.
- ServerSessions.ServerSession.Ok: the user's `ctx`, `pipe` functions and the socket attributes are not modelled; no transition reads them.
- The asyncio server and clients: transport mirrors of the blocking ones.
- The concrete texts of `inet_pton` and `inet_ntop`: parameters with the laws listed above.
- UTF-8 decoding in the CPython binding: hosts and credentials are byte sequences; NUL and range checks are modelled.
- The command line tool, HTTP fetching, timing reports, `rep_name`.
- Service of BIND and UDP ASSOCIATE: the source only refuses them, and that refusal is modelled.
