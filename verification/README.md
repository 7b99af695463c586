# kvsd in Dafny

kvsd is a single-threaded key-value server that speaks RESP2: an event loop accepts clients, reads
whatever bytes the sockets offer, parses commands incrementally, executes them on one keyspace with
deadlines, and sends replies as the sockets take them. This project models that path end to end and
proves what it keeps, layer by layer and then over whole runs.

Check everything with `dafny verify dfyconfig.toml`.

## What is proved

**One order of events explains every byte.** `Servers.Server.RunLoop` carries a journal of the
commands of all clients, protocol errors and expiry cycles. In every reachable state the keyspace is
the result of that journal, each client's commands are what its received bytes parse to, and each
client's replies are the journal's answers to it. `ClientIsAnsweredPlainly` concludes: the bytes sent
to a client followed by the bytes queued for it are the RESP2 encoding of its replies, and these are
what a plain timed table, without buffers, lazy deletion or expiry cycles, answers to those commands;
only replies to DBSIZE, which counts dead entries too, may differ. A connection closed by its own
event is accounted for once more at that moment: its commands and replies are the journal's, and the
bytes sent and left unsent are those replies (`ServeClient`).

**Parsing does not depend on how bytes arrive**, with one exception that is characterised exactly
(`Chunking.ChunkingIndependence`), nor does the wording of an error, outside the cuts that
`Wording.WordingIndependence` names; encoded commands survive any chunking (`RoundTrip`). What is
accepted is stated from the other side, as equivalences: multibulk requests (`Syntax.MultibulkIsExact`),
the quoting of inline lines (`Grammar.SplittingIsExact`), and the options of SET
(`CommandSyntax.OptionsAreExact`).

**Expiry cannot be seen.** The index holds exactly the keys with a deadline; every operation acts on
the live view as on a plain map (`Keyspace`, `Refinement`); cycles inserted anywhere change no reply
(`Histories`); the sampling and drain rates are exact (`Expiry`).

**Events reach the incarnation they were reported for**, for every reuse of descriptor numbers, and
every report of a batch is delivered and acted on (`DispatchBatch`): over a whole run the reads are
those of the readable clients, in order, and accepting follows the listener's reports. Descriptors are
accounted for in every state.

**Exact arithmetic**: the integer codec, counters and deadlines over all of int64, truncating
division and unsigned words included.

## How the source is represented

| file | subject |
|---|---|
| Octets, IntCodec, Buffer | bytes, `string_to_int64` and `format_int`, the cursor buffer |
| Inline, Grammar, Parser, Syntax, Chunking, Wording, RoundTrip | quoting, the parser, what they accept, resumption, error texts, round trips |
| Writer, Replies, Framing | encoders, a client's decoder, which replies are one element |
| Keyspace, Expiry, Db | the store as a value, the expiry cycle, the mutable database |
| Commands, CommandSyntax, Handlers, Refinement, Histories | the commands as functions and as methods, and their laws |
| Service, Conn, Closing | one pass over a connection's input; the connection object; what follows a closing reply |
| Kernel, Effects, EventLoop, Server, Journal, Kqueue | the environment, what events call for, the loop, the server, the global account, event coalescing |

- Objects that the source mutates are classes with `modifies` clauses (`Buffer`, `RespParser`, `Db`,
  `Conn`, `EventLoop`, `Server`, the kqueue `Poller`); each method is tied to a function on values, and
  the laws are about those functions.
- Bytes are integers from 0 to 255. Protocol limits are `size_t` values up to INT64_MAX, since the
  parser casts them to `int64_t`; where the command layer casts a count to `int` they are below 2^31.
- The clock is a parameter: one reading per command and one per expiry round, after the epoch and up
  to INT64_MAX. TTL adds 500 before it divides, which overflows for a deadline further away than
  INT64_MAX - 500 ms (`Handlers.PttlFits`); the server is therefore taken to start later than half a
  second after the epoch. Only laws that compare times assume that readings do not go backwards.
- `Kernel.System` is the environment. It chooses every result: accept returns any number that is not
  open, reads return any bytes up to 16 KiB, send takes any prefix or fails, wait reports any subset
  of the registered descriptors once each, and counts what it refused. Each opening of a number is a
  new incarnation. Only finitely many calls are interrupted by signals, so that the send loop ends.
- Bucket layout, random start buckets and clock readings of a cycle are an arbitrary `Chance`.
- Ghost state records history only: the bytes received and sent, commands and replies of each
  connection, the system calls made, the reports and their deliveries, and the journal.

## Where the code differs from what one would expect

- A line of exactly `max_inline_len` bytes ended by `\r\n` is a command when it arrives whole but an
  error when a read ends between `\r` and `\n`: the incomplete check counts the `\r`
  (src/resp/parser.cpp:170), the complete check strips it (177-178). `ChunkingIndependence` is an
  equivalence with this as the only exception, and `CutChangesVerdict` is an instance.
- `set_expire_at` with deadline 0 on a live key puts a key without deadline into the index
  (src/db/db.cpp:65-71). `SetExpireAtKeepsIndex` is the equivalence and `ZeroDeadlineBreaksIndex` an
  instance; no command passes 0.
- The unknown-command reply echoes bytes as they are, so a line end in the name or in the echoed part
  of an argument splits it (src/cmd/table.cpp:45-50). `DispatchReplyFramed` is the equivalence and
  `EchoedLineEndSplitsReply` an instance.
- The comment that a queued closing reply is the last one (src/net/conn.h:27-29) is not an invariant:
  while such a reply waits for the socket, the connection is still read and served.
  `Closing.LastReply` is the equivalence: it is the last one if and only if the later bytes, with those
  held, finish no non-empty command and break no framing. `Closing.TwoFarewells` is an instance where
  it is not, and `Closing.ClosingIsUnbounded` shows that no bound on input or output survives it. The
  bounds and the agreement with the received stream are therefore stated for connections that are not
  closing; what they were asked and answered is stated for all.
- The dispatch loop's test for a missing handler (src/net/event_loop.cpp:41-42) and the last test of
  `on_conn_event` (src/net/server.cpp:204) never fire.
- The wording of an error can depend on chunking: an overlong header is refused as too big before its
  line end arrives and as invalid after (src/resp/parser.cpp:196 against 202-203, 230 against
  234-241), and a full inline line with unbalanced quotes as too big or as unbalanced.
  `Wording.WordingIndependence` is the equivalence and `Wording.CutChangesWording` an instance.

## Model

| member | source | states |
|---|---|---|
| Servers.Server.RunLoop | src/net/event_loop.cpp:32-54 | for every number of iterations and every behaviour of the kernel and the clients: all of `Sound` holds again (descriptors accounted for, every connection in its between-events state, the journal explains the keyspace and every reply, every event reached the incarnation it was reported for, no callback frame is left); there is one wait per iteration, every report of every wait has been delivered in order, the reads made are exactly those of the readable client reports, in order, and accepting happens if and only if the listener is reported readable; the journal only grows, in time order if the readings do not decrease, and ends with the last tick; no retired callback remains |
| Servers.Server.ClientIsAnsweredPlainly | src/net/server.cpp:228-301 | with a clock that does not run backwards, in every reachable state the bytes sent to a client followed by those queued encode its replies, and these are, reply by reply, what a plain table without expiry cycles answers to its commands within the one global order of all commands; only replies to DBSIZE may differ; the commands are those the received bytes parse to under the server's limits |
| Servers.Server.RunIsForward | src/net/event_loop.cpp:32-54 | after a run from the start whose clock readings never decrease, the journal never runs backwards |
| Servers.Server.ClientReadsReplies | src/net/server.cpp:270-282 | in every reachable state, a client whose unknown commands echo no line end decodes everything sent and queued to exactly its replies |
| Servers.Server.FarewellIsLast | src/net/conn.h:27-30 | the event of a connection adds no reply if and only if the held bytes and the bytes read finish no non-empty command and break no framing; so the closing reply need not be the last |
| Journals.RepliesArePlain | src/db/db.cpp:29-126 | any journal of commands of many clients, protocol errors and expiry cycles: each client gets, position by position, the replies of a plain timed table that executes the same commands and no cycle, except at its DBSIZE commands |
| Journals.NextIsPlain | src/db/db.cpp:29-126 | one command or cycle keeps the live view and the plain table equal from then on, and the command is answered alike |
| Journals.PassIsJournaled | src/net/server.cpp:228-268 | the store and the replies after one pass over the input are those of its non-empty commands in order, then at most one protocol error, all owned by that client |
| Journals.ServedIsDispatchable | src/net/server.cpp:244-247 | every non-empty argument vector handed to dispatch fits an `int` argc and 64-bit lengths |
| Journals.RepliesAreFramed | src/cmd/table.cpp:39-63 | every reply owed to a client whose unknown commands echo no line end is one well-formed element |
| Journals.PassWithin | src/net/server.cpp:246-247 | a pass journals its commands at readings that do not decrease, if the clock does not |
| Journals.BatchGoesOn | src/net/event_loop.cpp:38-45 | the journal of a batch stays in time order from event to event |
| Journals.RunGoesOn | src/net/event_loop.cpp:34-51 | and from iteration to iteration, over the tick between them |
| Journals.StoreContinued | src/net/server.cpp:246-247 | the keyspace after a journal and its continuation is that of the continuation run on the keyspace before it |
| Journals.Continued | src/net/server.cpp:246-247 | a client's replies and commands over a journal and its continuation are those of the two parts one after the other |
| Servers.Server.Iterate | src/net/event_loop.cpp:38-51 | one iteration after the wait: the whole batch delivered and acted on, then the tick; every invariant again |
| Servers.Server.DispatchBatch | src/net/event_loop.cpp:38-45 | although descriptors are closed, reused and accepted during the batch, every report is delivered, in order, to the very incarnation it was made for and acted on: one read for each readable client report and no other, at least one accept for each readable listener report and else none, and every client reported writable ends with its output sent, its socket full or closed; the handler lookup never misses |
| Servers.Server.Deliver | src/net/event_loop.cpp:38-45 | one report: delivered to its own incarnation and acted on as it calls for, everything sound afterwards, the other connections, their queued output and (unless it is the listener's event) the listener untouched; the callback stays owned while it runs |
| Servers.Server.RunCallback | src/net/server.cpp:70-72 | the listener's handler accepts if and only if the report says readable; a connection's handler is `on_conn_event` with the flags in their places: one read if and only if readable, output sent, socket full or closed if writable |
| Servers.Server.OnListenerEvent | src/net/server.cpp:70-72 | at least one accept if readable, none otherwise; connections keep their queues and new ones have nothing queued |
| Servers.Server.InFrame | src/net/event_loop.cpp:43-44 | the callback runs in a frame of its own, which is closed again |
| Servers.Server.ServeActing | src/net/server.cpp:191-205 | serving does what the event calls for: one read if and only if readable, and after a writable report output is left only if the socket is full |
| Servers.Server.Turn | src/net/event_loop.cpp:34-51 | one iteration: one wait, all its reports delivered and acted on, then the tick |
| Servers.Server.SameLimits | src/net/server.cpp:175-175 | every connection parses within the limits of the server |
| Effects.BatchActsOn | src/net/event_loop.cpp:38-45 | what the events of a batch bring about adds up, event by event |
| Effects.HeardMore | src/net/event_loop.cpp:34-45 | and the reads and accepts of batches, batch by batch |
| Servers.Server.OnConnEvent | src/net/server.cpp:191-205 | the event of a connection changes and closes only that connection, makes exactly one read when readable and none otherwise, leaves output queued after a writable report only if the socket is full, never accepts, and keeps every invariant |
| Servers.Server.ServeClient | src/net/server.cpp:191-205 | serving a connection ends with it gone from the table or in its between-events state, all others untouched, and what it executed appended to the journal; also when it was just closed, its commands and replies are the journal's, sent and unsent bytes are its replies, and with nothing unsent it was sent all of them |
| Servers.Server.ServeConn | src/net/server.cpp:191-205 | `true` exactly when the connection is still in the table; store, commands and replies are those of one pass over the held bytes followed by the bytes read; output is left behind only if the socket refused it; it is closed only if the peer is gone, a send failed, the farewell was delivered or the replies passed the limit; either way sent and unsent bytes are its replies |
| Servers.Server.ServeApart | src/net/server.cpp:191-205 | the same with all other connections untouched, healthy and still explained by the journal |
| Servers.Server.FlushRest | src/net/server.cpp:200-204 | the flush after the read: what was executed stays, and the list of causes for closing is complete |
| Servers.Server.ReadIfReady | src/net/server.cpp:196-198 | the read half: at most one read, made exactly when readable, with the same effect clause |
| Servers.Server.FlushLeftover | src/net/server.cpp:200-204 | the write half keeps the between-events state; the final test for a drained closing connection can never succeed |
| Servers.Server.HandleRead | src/net/server.cpp:207-226 | one read; data is processed, end of file or a hard error closes, EAGAIN or EINTR leaves the connection alone and alive; the same list of causes for closing |
| Servers.Server.AfterRead | src/net/server.cpp:211-225 | the decision on the result of the read |
| Servers.Server.ReadInto | src/net/server.cpp:208-224 | the bytes read are appended to the held input, and to nothing else |
| Servers.Server.ProcessInput | src/net/server.cpp:228-268 | parse, dispatch and reply until input runs out, the protocol is broken, a command closes or the output limit is passed (then the connection is closed outright); then flush; closed for no other cause |
| Servers.Server.Conclude | src/net/server.cpp:257-267 | closed outright on overflow, flushed otherwise |
| Servers.Server.FlushOutput | src/net/server.cpp:270-301 | `false` exactly when the connection was closed; otherwise output is left over only if the socket refused bytes in this call, write interest is armed exactly when output is left, a closing connection still has output, and it is closed only after a failed send or a delivered farewell; closed with nothing left, the client was sent the encoding of all its replies |
| Servers.Server.AfterSend | src/net/server.cpp:276-299 | it is closed if and only if the send failed or a closing connection has nothing left; any other is watched for writability exactly when output is left |
| Servers.Server.Rearm | src/net/server.cpp:284-299 | write interest in the poller and `write_armed` both hold exactly when output is left |
| Servers.Server.CloseConn | src/net/server.cpp:303-315 | the connection leaves the table, the poller and the set of open descriptors; all other incarnations stay; the listener is never paused by it, and is watched afterwards unless the kernel refused a descriptor or the registration |
| Servers.Server.Forget | src/net/server.cpp:307-311 | unregister, close, forget: descriptor accounting holds afterwards |
| Servers.Server.OnListenerReadable | src/net/server.cpp:96-119 | accepting stops only on an empty queue, a failure, descriptor exhaustion or after 1000 calls; every accepted descriptor ends up in the table or closed, existing connections are untouched, and after running out of descriptors a spare is held or the listener is paused |
| Servers.Server.AcceptOne | src/net/server.cpp:97-118 | one turn of the accept loop, all its error branches; an accepted client is served unless the kernel refused it |
| Servers.Server.AcceptNext | src/net/server.cpp:98-98 | an accepted descriptor is one that was not open and is not yet accounted for |
| Servers.Server.AddConnection | src/net/server.cpp:165-189 | the descriptor is in the table with a fresh, silent connection on memory of its own, or closed again, the latter only if the kernel refused to make it non-blocking or to register it |
| Servers.Server.Attach | src/net/server.cpp:175-188 | registered with a connection of its own that parses within the server's limits, or closed again because the poller refused |
| Servers.Server.Welcome | src/net/server.cpp:165-189 | adding a connection keeps the accounting, the other connections and the journal true |
| Servers.Server.Enroll | src/net/server.cpp:179-188 | registered and in the table, or neither |
| Servers.Server.ShedConnection | src/net/server.cpp:121-142 | the listener is paused exactly when no spare could be had; connections are untouched |
| Servers.Server.SpendSpare | src/net/server.cpp:127-137 | the spare is closed, one connection is turned away, and a spare is held again unless the kernel refused one |
| Servers.Server.TurnAway | src/net/server.cpp:131-132 | the set of open descriptors is what it was |
| Servers.Server.PauseListener | src/net/server.cpp:144-149 | the listener is unregistered but stays open |
| Servers.Server.ResumeListener | src/net/server.cpp:151-163 | a paused listener resumes only with a spare in hand, and stays paused only if the kernel refused a spare or the registration; one that is not paused stays so |
| Servers.Server.ReopenSpare | src/net/server.cpp:89-94 | true exactly when a spare is held, which fails only if the kernel refuses one; a spare already held is kept |
| Servers.Server.constructor | src/net/server.cpp:52-81 | after start the listener is watched and every invariant holds, with or without a spare |
| Servers.Server.Tick | src/net/event_loop.cpp:47-51 | one expiry cycle, invisible in the live view; no retired callback remains; all invariants hold |
| Servers.Server.Cycle | src/net/server.cpp:317-319 | the cycle is the only thing added to the journal, and the keyspace is what the journal says |
| Servers.Server.Chronicle | src/net/server.cpp:246-247 | what a read caused is exactly what is appended to the journal; the accounts of its own client, closed or not, and of all others are then true |
| Servers.Server.ClientsStay | src/net/server.cpp:191-205 | after the event of one connection all others are still in their between-events state on separate memory |
| EventLoops.EventLoop.Add | src/net/event_loop.cpp:10-14 | handlers and poller registrations stay the same set; other handlers are untouched |
| EventLoops.EventLoop.Remove | src/net/event_loop.cpp:20-30 | the registration is gone, and a callback that is running is still owned by `handlers_` or `retired_` |
| EventLoops.EventLoop.OwnedOnce | src/net/event_loop.h:53-61 | every callback ever made has exactly one owner, in one slot of `handlers_` or of `retired_` |
| EventLoops.EventLoop.SetWriteInterest | src/net/event_loop.cpp:16-18 | write interest of that descriptor and of no other |
| EventLoops.EventLoop.Enter | src/net/event_loop.cpp:41-44 | a dispatch frame starts on a callback that is owned |
| EventLoops.EventLoop.ClearRetired | src/net/event_loop.cpp:49-51 | may destroy the retired callbacks only with no frame live; handlers and registrations still agree |
| Connection.Conn.Digest | src/net/server.cpp:228-265 | for every chunking the loop ends as the pass function says; unless it overflowed, the commands so far are those of the whole stream received, the held input is bounded by the limits and the output by the cap |
| Connection.Conn.Process | src/net/server.cpp:229-265 | the loop of `process_input` is the pass function on parser, input, keyspace and output length |
| Connection.Conn.ServeOne | src/net/server.cpp:230-264 | one turn: all four exits and the skip of empty commands |
| Connection.Conn.Answer | src/net/server.cpp:246-247 | one command appends exactly one reply; sent bytes and queued bytes stay the encoding of all replies |
| Connection.Conn.Refuse | src/net/server.cpp:235-240 | the protocol error is one more reply |
| Connection.Conn.Receive | src/net/server.cpp:207-224 | the bytes read join the received stream and the held input; without data nothing changes |
| Connection.Conn.SendAll | src/net/server.cpp:271-282 | for every pattern of short sends and interruptions, sent bytes followed by queued bytes are unchanged; it stops with output left only when the socket would block |
| Connection.TurnTotal | src/net/server.cpp:229-265 | one turn of the loop followed by the rest of the pass is the whole pass |
| Connection.TurnServes | src/net/server.cpp:229-265 | the loop invariant: the pass from the start is the pass from here, or is over with this fate |
| Connection.PassSettles | src/net/server.cpp:228-268 | a pass that does not overflow leaves the parser waiting, on track with the whole stream, one reply per command, and both buffers within their bounds |
| Connection.DrainIsBounded | src/resp/parser.cpp:169-251 | what a drained parser holds is at most 64 bytes, the inline limit, or the bulk limit plus one |
| Connection.TrackAppend | src/net/server.cpp:224-225 | appending a chunk to what a waiting parser holds is appending it to the stream |
| Connection.OneReplyPerCommand | src/net/server.cpp:244-247 | a pass without a protocol error makes exactly one reply per non-empty command |
| Service.ServeDispatches | src/net/server.cpp:228-268 | the replies of a pass are those of its non-empty commands run in order, then the protocol error if there was one |
| Service.ServeDrains | src/net/server.cpp:228-268 | a pass takes argument vectors off the stream exactly as repeated `parse` does |
| Service.ServeIsCapped | src/net/server.cpp:249-264 | the queued output exceeds the limit exactly in the overflow case; closing passes have queued a reply |
| Service.ServeStopsInTime | src/net/server.cpp:244-265 | after QUIT and after the reply that takes the output past the limit no command is executed; a pass quits or overflows for no other reason |
| Service.OnlyQuitCloses | src/cmd/connection.cpp:24-29 | only a well-formed QUIT asks to close |
| Closing.SilentPass | src/net/server.cpp:228-268 | a pass adds no reply if and only if draining its bytes delivers no non-empty command and no error |
| Closing.LastReply | src/net/conn.h:27-30 | over all later reads, with any keyspace, output and clock in between: the reply queued now is the last one if and only if those bytes finish no non-empty command and break no framing |
| Closing.TwoFarewells | src/net/conn.h:27-30 | a concrete client that is refused twice |
| Closing.RefusedLineStays | src/resp/parser.cpp:169-172 | an inline line that is too long is refused without being consumed |
| Closing.RefusedLineGrows | src/net/server.cpp:235-242 | while no newline arrives every read queues the error again and the held input keeps every byte, whatever cap and limits |
| Closing.ClosingIsUnbounded | src/net/server.cpp:235-242 | so for every bound some run of reads passes it, in input and in output |
| Service.ClientReadsPass | src/net/server.cpp:228-268 | a client decodes the queued bytes to exactly one reply per command plus the protocol error, if the unknown commands echo no line end |
| Service.DispatchAllFramed | src/cmd/table.cpp:39-63 | a run of commands keeps the keyspace consistent and gives one well-formed reply each |
| Service.ParsedIsDispatchable | src/cmd/table.cpp:54-55 | what the parser delivers within the limits fits the types of dispatch |
| Chunking.ChunkingIndependence | src/resp/parser.cpp:158-274 | for every parser state, held bytes and list of chunks, feeding the chunks gives the same commands, verdict and leftover as one drain of the concatenation if and only if no boundary separates the `\r` from the `\n` of an inline line of exactly `max_inline_len` bytes |
| Chunking.CutChangesVerdict | src/resp/parser.cpp:170-178 | the exception is real: `a\r` then `\n` fails where `a\r\n` is a command |
| Wording.WordingIndependence | src/resp/parser.cpp:158-274 | feeding chunks gives exactly the result of the whole, the error included, if and only if no boundary is the bad one and none falls inside the overlong header, or between `\r` and `\n` of the full line, in which the stream fails |
| Wording.TokenWording | src/resp/parser.cpp:161-271 | two rejections of one token, with fewer and with more bytes, report the same error if and only if the cut is not such a one |
| Wording.FailureWording | src/resp/parser.cpp:158-274 | the same for a failing prefix of a stream |
| Wording.WordingCutFails | src/resp/parser.cpp:169-232 | a prefix that ends in such a cut fails |
| Wording.WordingCutResumes | src/resp/parser.cpp:158-274 | such cuts of a stream are those of what is left after a prefix |
| Wording.CutChangesWording | src/resp/parser.cpp:193-207 | 65 stars are a too big count string, followed by a line end an invalid length |
| Chunking.DrainResumes | src/resp/parser.cpp:158-274 | after an incomplete drain, appending bytes and draining on gives the commands of the whole |
| Chunking.ParseExtends | src/resp/parser.cpp:158-274 | one call: an incomplete result resumes exactly, a complete one is unaffected by later bytes, an error stays one outside the inline case |
| Chunking.StepStable | src/resp/parser.cpp:161-271 | a token once recognised or rejected stays so when more bytes arrive, except for a full inline line |
| Chunking.StepWithin | src/resp/parser.cpp:161-271 | a token is recognised as soon as its bytes are there |
| Chunking.PrefixStillCompletes | src/resp/parser.cpp:158-274 | cutting behind the first command leaves its result whole |
| Chunking.FailureStays | src/resp/parser.cpp:152-156 | a prefix that fails makes the stream fail at the same command, unless the cut was the bad one |
| Chunking.BadCutFails | src/resp/parser.cpp:170-172 | a bad cut always makes the prefix fail |
| Chunking.BadCutLoses | src/resp/parser.cpp:170-178 | and loses at least one command |
| Parser.RespParser.ParseOne | src/resp/parser.cpp:158-274 | the parse loop on the mutable buffer and fields: verdict, new state and remaining bytes are those of the recursive definition, from every valid state |
| Parser.RespParser.OneStep | src/resp/parser.cpp:159-272 | one turn of the switch |
| Parser.RespParser.StepInline | src/resp/parser.cpp:164-191 | the inline case, including what is consumed on each error |
| Parser.RespParser.StepCount | src/resp/parser.cpp:193-225 | the multibulk header |
| Parser.RespParser.StepArgLen | src/resp/parser.cpp:227-247 | the bulk header |
| Parser.RespParser.StepArgData | src/resp/parser.cpp:249-271 | the payload, taken by length |
| Parser.RespParser.Reset | src/resp/parser.cpp:145-150 | back to the start state |
| Parser.IncompleteIsBounded | src/resp/parser.cpp:169-251 | an incomplete call leaves at most 64 bytes, the inline limit, or the bulk limit plus one |
| Parser.CompleteIsWithinLimits | src/resp/parser.cpp:178-264 | every delivered command respects the limits of the form it came in |
| Parser.FindCrlf | src/resp/parser.cpp:11-21 | the memchr-hopping search finds the first `\r\n` |
| Parser.MemChr | src/resp/parser.cpp:167-168 | the first occurrence, or none |
| Octets.IndexOfCrlf | src/resp/parser.cpp:10-21 | the first position of `\r\n`, or -1 exactly when there is none |
| Inline.SplitInline | src/resp/parser.cpp:39-109 | the two nested index loops compute the recursive quoting grammar, including the refusals; `Grammar.SplittingIsExact` says what that is |
| Inline.SplitWord | src/resp/parser.cpp:46-106 | one word of the grammar and where it ends; what the grammar accepts and means is stated by `Grammar.SplittingIsExact` |
| Grammar.SplittingIsExact | src/resp/parser.cpp:35-109 | a line is split into these words if and only if it is laid out as them: white space around and between, bare bytes, and quoted parts that end their word; every other line is refused |
| Grammar.WordsOfLine | src/resp/parser.cpp:39-109 | every line so laid out is accepted and means its words |
| Grammar.LineOfWords | src/resp/parser.cpp:39-109 | every accepted line is so laid out |
| Grammar.ReadDouble | src/resp/parser.cpp:52-77 | between double quotes: hexadecimal pairs in either case, the five letters, and any other escaped byte for itself |
| Grammar.ReadSingle | src/resp/parser.cpp:78-89 | between single quotes: everything for itself but an escaped quote |
| Grammar.DoubleIsSpelled | src/resp/parser.cpp:52-77 | every body that double quotes accept is so spelled |
| Grammar.SingleIsSpelled | src/resp/parser.cpp:78-89 | every body that single quotes accept is so spelled |
| Grammar.ReadToken | src/resp/parser.cpp:46-107 | one word and what ends it |
| Inline.WordsAfterQuoted | src/resp/parser.cpp:70-74 | a quoted word is read as itself, and then the rest of the line |
| Inline.TurnDouble | src/resp/parser.cpp:52-77 | one turn inside double quotes |
| Inline.TurnSingle | src/resp/parser.cpp:78-89 | one turn inside single quotes |
| Inline.WordsOfQuotedLine | src/resp/parser.cpp:39-109 | splitting inverts quoting with `\xHH` for arguments holding any bytes |
| Inline.ReadQuotedBody | src/resp/parser.cpp:52-77 | a quoted body is read back byte for byte |
| Inline.WordsAreBounded | src/resp/parser.cpp:39-109 | no more words, and no longer ones, than the line has bytes |
| Inline.QuotedLineHasNoNewline | src/resp/parser.cpp:165-168 | a quoted line contains no newline, so it is one inline request |
| RoundTrip.RequestsRoundTrip | src/resp/parser.cpp:193-271 | any list of commands within the limits, encoded and cut into any chunks, is parsed to exactly those commands, and nothing is left over |
| RoundTrip.ParseRequest | src/resp/parser.cpp:193-271 | parsing inverts encoding for one command and takes nothing beyond it |
| RoundTrip.ParseBulk | src/resp/parser.cpp:227-271 | one bulk argument, binary safe |
| RoundTrip.DrainRequests | src/resp/parser.cpp:158-274 | a stream of encoded commands drains to them, and no cut of it is a bad one |
| RoundTrip.InlineAgreesWithMultibulk | src/resp/parser.cpp:164-191 | a quoted line, with or without `\r`, parses to the same arguments as the multibulk encoding |
| RoundTrip.ParseLine | src/resp/parser.cpp:164-191 | a line of balanced words within the limit is a command with either line end |
| Syntax.MultibulkIsExact | src/resp/parser.cpp:193-271 | a multibulk request is accepted as these arguments if and only if it is spelled as a count and that many sized arguments, within the limits, or as a count that says none |
| Syntax.RequestIsRead | src/resp/parser.cpp:193-271 | every request so spelled, in any accepted notation of its numbers, is that command |
| Syntax.RequestIsSpelled | src/resp/parser.cpp:193-271 | every accepted request is so spelled |
| Syntax.CountLine | src/resp/parser.cpp:200-224 | the answer to every count line, its own error included |
| Syntax.SizeLine | src/resp/parser.cpp:233-246 | the answer to every size line |
| Syntax.EmptySizeLine | src/resp/parser.cpp:234-237 | an empty line where a size is due |
| Syntax.Payload | src/resp/parser.cpp:249-271 | the answer to every payload and what ends it |
| Syntax.LongHeader | src/resp/parser.cpp:194-197 | a header too long without a line end |
| Syntax.LineIsRead | src/resp/parser.cpp:175-190 | the answer to every inline line: too long and kept, unbalanced and consumed, or its words |
| Syntax.LineIsAwaited | src/resp/parser.cpp:167-174 | a line without newline is awaited, or refused once too long |
| IntCodec.StringToInt64 | src/resp/parser.cpp:113-143 | accepts exactly an optional minus and digits, at most 20 bytes, whose value fits int64, and returns that value; the 64-bit accumulator never wraps |
| IntCodec.GuardIsOverflow | src/resp/parser.cpp:128-129 | the guard in the loop is exactly the overflow of the next step |
| IntCodec.DigitsValueGrows | src/resp/parser.cpp:125-130 | a longer prefix of digits never has a smaller value, so an early refusal is final |
| IntCodec.ParseFormat | src/resp/parser.cpp:113-143 | parsing inverts formatting for every int64, INT64_MIN included |
| IntCodec.FormatIsCanonical | src/resp/writer.cpp:12-32 | no leading zeros, and a minus only in front of a negative number |
| IntCodec.WriteInt | src/resp/writer.cpp:12-32 | `format_int` writes the decimal notation and stays within its 20- and 24-byte arrays |
| IntCodec.WriteDigits | src/resp/writer.cpp:21-26 | the digits, least significant first, at most 19 of them |
| IntCodec.WriteReversed | src/resp/writer.cpp:28-31 | the digits turned round behind what was already written |
| IntCodec.NegatedWord | src/resp/writer.cpp:17-19 | complement and increment on 64-bit words is negation, also for INT64_MIN |
| IntCodec.Int64Length | src/resp/writer.cpp:21-22 | no int64 has more than 19 digits |
| Buffers.Buffer.EnsureWritable | src/net/buffer.cpp:24-41 | room for n bytes, contents kept, growth only when compaction cannot do, and then to 1024 bytes or below both 2*want and want + 16 MiB |
| Buffers.Buffer.Compact | src/net/buffer.cpp:15-22 | live bytes at the front, contents kept |
| Buffers.Buffer.Append | src/net/buffer.cpp:43-48 | the queue gains exactly these bytes at its end |
| Buffers.Buffer.Consume | src/net/buffer.cpp:50-56 | the queue loses its first n bytes, or all |
| Buffers.Buffer.Commit | src/net/buffer.h:32-33 | the bytes written behind the cursor join the queue |
| Buffers.Buffer.Store | src/net/buffer.cpp:46-46 | writing behind the cursor leaves the queue alone |
| Buffers.Buffer.Peek | src/net/buffer.h:20-46 | exactly the readable bytes |
| Writer.AppendIntCrlf | src/resp/writer.cpp:34-40 | the number in decimal and a line end are appended |
| Writer.Simple | src/resp/writer.cpp:44-57 | one simple string is appended |
| Writer.Error | src/resp/writer.cpp:59-64 | one error line is appended |
| Writer.Integer | src/resp/writer.cpp:66-69 | one integer is appended |
| Writer.Bulk | src/resp/writer.cpp:71-80 | one bulk string is appended, whatever bytes it holds |
| Writer.NullBulk | src/resp/writer.cpp:82-82 | the null bulk string is appended |
| Writer.Array | src/resp/writer.cpp:84-87 | an array header is appended |
| Replies.DecodeEncode | src/resp/writer.cpp:44-89 | a client reads back exactly the reply written and the bytes after it |
| Replies.DecodeAllEncodeAll | src/resp/writer.cpp:44-89 | a pipeline of replies is read back as that list |
| Replies.ErrorIsFramed | src/resp/writer.cpp:59-64 | an error text reaches the client as one reply if and only if it contains no line end |
| Framing.DispatchReplyFramed | src/cmd/table.cpp:39-63 | the reply is one well-formed element if and only if the command is known or neither its name nor the echoed arguments contain a line end |
| Framing.UnknownCommandFramed | src/cmd/table.cpp:41-51 | the same for the text of the unknown-command reply |
| Framing.UnknownCommandText | src/cmd/table.cpp:45-50 | the text names the command in full and at most 32 bytes of each of its first three arguments |
| Framing.EchoedLineEndSplitsReply | src/cmd/table.cpp:45-50 | a concrete command name that splits the reply |
| Framing.ProtocolErrorFramed | src/net/server.cpp:235-240 | protocol-error replies are always one element, whatever byte they quote |
| Keyspace.LookupRefines | src/db/db.cpp:29-38 | the answer is the live view's, the live view stays, the index stays exact |
| Keyspace.LookupCounts | src/db/db.cpp:29-38 | a lookup drops at most the key it was asked for, if dead, and counts it |
| Keyspace.LiveLater | src/db/db.cpp:29-38 | what is live later depends only on what is live now |
| Keyspace.SetStringRefines | src/db/db.cpp:40-54 | acts on the live view as assignment; the index stays exact in both directions |
| Keyspace.EraseRefines | src/db/db.cpp:56-63 | acts as deletion and says whether the key was live |
| Keyspace.SetExpireAtRefines | src/db/db.cpp:65-71 | acts as a deadline update for every nonzero deadline |
| Keyspace.SetExpireAtKeepsIndex | src/db/db.cpp:65-71 | the index stays exact if and only if the deadline is nonzero or the key is not live |
| Keyspace.ZeroDeadlineBreaksIndex | src/db/db.cpp:65-71 | a persistent key given deadline 0 ends up in the index without a deadline |
| Keyspace.PersistRefines | src/db/db.cpp:73-79 | clears a deadline exactly when there is one |
| Keyspace.PttlRefines | src/db/db.cpp:81-87 | the remaining time of a live key, -1 without deadline, -2 without key |
| Keyspace.WriteDataRefines | src/cmd/string.cpp:108-111 | the write in place keeps deadline and index |
| Expiry.SampleIsExact | src/db/db.cpp:105-114 | from any start bucket the wrap-around walk picks exactly min(sample size, index size) keys of the index, none twice |
| Expiry.DoomedIsSubsequence | src/db/db.cpp:107-112 | the doomed are exactly the dead among the sampled, each once |
| Expiry.ReclaimAllRemoves | src/db/db.cpp:116-117 | reclaiming the doomed removes that set from both tables and counts each |
| Expiry.RoundRemovesDead | src/db/db.cpp:94-117 | a round removes only indexed, dead keys and keeps the index exact |
| Expiry.CycleRemovesOnlyDead | src/db/db.cpp:89-126 | a cycle removes only dead keys; the result is the drop of both tables and the rise of the counter, and at most 16 times the sample size |
| Expiry.CycleEndsEarlyOnlyWhenClean | src/db/db.cpp:93-124 | a cycle ends before round 16 only with an empty index or after a sample at most a quarter dead, and no earlier sample was |
| Expiry.CycleDrains | src/db/db.cpp:93-124 | if every indexed key is dead, one cycle reclaims exactly min(index size, 16 times sample size) |
| Database.Db.ActiveExpireCycle | src/db/db.cpp:89-126 | the nested loops on the mutable tables compute the cycle function, for every layout, random numbers and clock |
| Database.Db.WalkBuckets | src/db/db.cpp:105-114 | the bucket loop samples what the wrap-around walk of the layout says |
| Database.Db.CollectFrom | src/db/db.cpp:107-112 | the loop within a bucket |
| Database.Db.CollectDoomed | src/db/db.cpp:96-114 | one round's sample and its doomed keys |
| Database.Db.ReclaimDoomed | src/db/db.cpp:116-116 | all doomed keys are reclaimed in order |
| Database.Db.ReclaimKey | src/db/db.cpp:23-27 | both tables and the counter |
| Database.Db.Find | src/db/db.cpp:29-38 | lookup with lazy reclaim |
| Database.Db.Put | src/db/db.cpp:40-54 | assignment with its index update |
| Database.Db.Overwrite | src/cmd/string.cpp:108-111 | the assignment through the returned reference |
| Database.Db.Remove | src/db/db.cpp:56-63 | erase through lookup |
| Database.Db.ExpireAt | src/db/db.cpp:65-71 | deadline update through lookup |
| Database.Db.ClearDeadline | src/db/db.cpp:73-79 | persist through lookup |
| Database.Db.RemainingMs | src/db/db.cpp:81-87 | the remaining time through lookup |
| Database.Db.Clear | src/db/db.h:67-70 | both tables are emptied, the counter stays |
| Refinement.DispatchRefines | src/cmd/table.cpp:39-63 | every command but DBSIZE replies and changes the live view as the plain table does, for all arguments; the index stays exact; DBSIZE changes nothing and replies the number of entries |
| Refinement.RunRefines | src/cmd/table.cpp:62-62 | the same, handler by handler |
| Refinement.DbSizeRefines | src/cmd/server.cpp:11-13 | DBSIZE replies as the plain table does if and only if no entry is dead |
| Refinement.SizeIsExact | src/db/db.h:56-62 | entries and live keys are equal in number if and only if no entry is dead, and never fewer |
| Refinement.SetRefines | src/cmd/string.cpp:13-67 | SET with its conditions and lifetimes |
| Refinement.PositiveDeadline | src/cmd/string.cpp:57-58 | a lifetime is refused if and only if the deadline lies beyond INT64_MAX |
| Refinement.FlushAllIsExact | src/cmd/server.cpp:15-33 | nothing more than ASYNC or SYNC in any case: both tables are empty; else refused, and both are left alone |
| Refinement.FlushAllRefines | src/cmd/server.cpp:15-33 | FLUSHALL empties the plain table or leaves it alone |
| Refinement.PingRefines | src/cmd/connection.cpp:8-20 | PING answers PONG, its one argument, or the arity error |
| Refinement.CommandRefines | src/cmd/server.cpp:35-46 | COMMAND COUNT answers 16, anything else the empty array |
| Refinement.IncrRefines | src/cmd/string.cpp:84-113 | INCR and DECR: refused exactly when the sum leaves int64 or the value is no integer |
| Refinement.DelRefines | src/cmd/keyspace.cpp:13-19 | DEL removes the set of named keys and counts the live ones once each |
| Refinement.ExistsRefines | src/cmd/keyspace.cpp:21-29 | EXISTS counts occurrences |
| Refinement.ExpireRefines | src/cmd/keyspace.cpp:38-67 | EXPIRE: refused exactly when the deadline leaves int64; a time not in the future deletes |
| Refinement.TtlRefines | src/cmd/keyspace.cpp:69-78 | TTL rounds the remaining time to the nearest second |
| Refinement.TtlToDeadlineExact | src/cmd/commands.h:30-37 | succeeds if and only if product and sum fit int64, and then is the exact sum |
| Refinement.DeadlineIsLater | src/cmd/commands.h:26-37 | a positive amount never yields a deadline in the past |
| Histories.ActiveExpiryIsInvisible | src/db/db.cpp:29-126 | two runs with the same commands and any cycles inserted anywhere give the same replies, DBSIZE excepted |
| Histories.AnswersArePlain | src/db/db.cpp:29-126 | and these are the plain table's |
| Histories.CycleIsInvisible | src/db/db.cpp:89-126 | one cycle leaves the live view as it is |
| Histories.CountersAreExact | src/cmd/string.cpp:84-113 | over any run of INCR and DECR on an unexpired integer key the replies are the exact running value or a refusal that changes nothing; stored bytes parse back; deadline and all other keys stay |
| Histories.BumpOnce | src/cmd/string.cpp:98-112 | one step of it |
| Histories.SetThenTtl | src/cmd/keyspace.cpp:69-78 | after an accepted SET EX or PX, TTL at any later time is the rounded distance to the exact deadline, then -2 |
| Histories.SetThenReadsThenTtl | src/cmd/keyspace.cpp:69-78 | after an accepted SET EX or PX and any run of reads and expiry cycles, TTL is the rounded distance to the exact deadline, then -2 |
| Histories.ExpireThenReadsThenTtl | src/cmd/keyspace.cpp:69-78 | the same after EXPIRE |
| Histories.AgedByRun | src/db/db.cpp:29-126 | any run of reads and cycles leaves exactly what had not expired by its end |
| Histories.AgedByRead | src/cmd/table.cpp:39-63 | one read does |
| Histories.AgedByCycle | src/db/db.cpp:89-126 | one cycle does |
| Histories.AgedByTime | src/db/db.cpp:29-38 | and so does time alone |
| Histories.ExpireThenTtl | src/cmd/keyspace.cpp:38-78 | the same for EXPIRE, with its refusals and deletion |
| Histories.TtlOfDeadline | src/cmd/keyspace.cpp:69-78 | TTL of any key with a deadline; the rounding sum overflows only beyond INT64_MAX - 500 ms, so never once the clock is past half a second |
| Histories.SetStoresDeadline | src/cmd/string.cpp:57-66 | an accepted SET stores the exact deadline |
| Histories.RefusedSetIsInvisible | src/cmd/string.cpp:25-61 | a refused SET leaves the live view unchanged |
| Commands.OptionsAreSound | src/cmd/string.cpp:25-47 | accepted lifetimes are positive and in seconds or milliseconds |
| CommandSyntax.OptionsInAnyOrder | src/cmd/string.cpp:22-47 | well-spelled options in any order and case are accepted with their joint meaning if at most one condition and one lifetime occur, and are a syntax error otherwise |
| CommandSyntax.OptionsAreExact | src/cmd/string.cpp:22-47 | whatever the words, they begin with well-spelled options, at most one of each kind; these are all and accepted, or the next word is refused: a new EX or PX for its number, by what is wrong with it, and anything else as a syntax error |
| CommandSyntax.ReadFirst | src/cmd/string.cpp:25-46 | one word of it |
| CommandSyntax.FindIgnoresCase | src/cmd/table.cpp:34-37 | a word names a command if and only if it is its name, some letters of it capitals |
| CommandSyntax.LowersTheAlphabet | src/cmd/table.cpp:8-14 | each of the 26 capitals becomes its small letter and no other byte changes |
| CommandSyntax.SpellsExactly | src/cmd/table.cpp:8-14 | a word lowers to a name if and only if it is the name with some letters capitals |
| CommandSyntax.NamesInBytes | src/cmd/table.cpp:16-32 | the sixteen names, byte by byte |
| CommandSyntax.ArityInNumbers | src/cmd/table.cpp:54-60 | how many words each command takes |
| CommandSyntax.NamesAreDistinct | src/cmd/table.cpp:30-32 | no registration overwrites another |
| Handlers.DispatchCommand | src/cmd/table.cpp:39-63 | on the mutable database and buffer: the new keyspace and exactly one appended reply are those of the dispatch function, and only QUIT asks to close |
| Handlers.RunHandler | src/cmd/table.cpp:62-62 | the same for each handler |
| Handlers.CmdSet | src/cmd/string.cpp:13-67 | SET on the mutable state |
| Handlers.ReadOptions | src/cmd/string.cpp:25-47 | the option loop computes the recursive reading of the options |
| Handlers.CmdGet | src/cmd/string.cpp:69-80 | GET on the mutable state |
| Handlers.IncrBy | src/cmd/string.cpp:84-113 | INCR and DECR with int64 arithmetic that never overflows |
| Handlers.CmdDel | src/cmd/keyspace.cpp:13-19 | DEL on the mutable state |
| Handlers.DeleteKeys | src/cmd/keyspace.cpp:14-17 | its loop |
| Handlers.CmdExists | src/cmd/keyspace.cpp:21-29 | EXISTS on the mutable state |
| Handlers.CountKeys | src/cmd/keyspace.cpp:24-27 | its loop |
| Handlers.CmdType | src/cmd/keyspace.cpp:31-36 | TYPE on the mutable state |
| Handlers.CmdExpire | src/cmd/keyspace.cpp:38-67 | EXPIRE on the mutable state |
| Handlers.CmdTtl | src/cmd/keyspace.cpp:69-78 | TTL on the mutable state, in int64 arithmetic, whenever the rounding sum fits |
| Handlers.PttlFits | src/cmd/keyspace.cpp:75-77 | the rounding sum fits if and only if the key has no live deadline more than INT64_MAX - 500 ms away; past half a second it always does |
| Handlers.EarlyRoundingOverflows | src/cmd/keyspace.cpp:75-77 | at 499 ms the last possible deadline overflows it |
| Handlers.CmdPersist | src/cmd/keyspace.cpp:80-82 | PERSIST on the mutable state |
| Handlers.CmdPing | src/cmd/connection.cpp:8-20 | PING |
| Handlers.CmdFlushAll | src/cmd/server.cpp:15-33 | FLUSHALL |
| Handlers.CmdCommand | src/cmd/server.cpp:35-46 | COMMAND |
| Handlers.UnknownText | src/cmd/table.cpp:45-49 | the echoing loop |
| Handlers.LowerAscii | src/cmd/table.cpp:8-14 | the lower-casing loop |
| Kqueue.Poller.Coalesce | src/net/poller_kqueue.cpp:89-117 | for every list of per-filter reports: one event per descriptor in order of first appearance, flags the union of its reports with errors and end of file readable, and the slot table all -1 again |
| Kqueue.Poller.Absorb | src/net/poller_kqueue.cpp:90-114 | one report folded in; the slot table maps exactly the descriptors seen to their events |
| Kqueue.FdsAreReported | src/net/poller_kqueue.cpp:89-102 | each nonnegative descriptor reported appears once, and no other |
| Kqueue.CoalescedIsReportable | src/net/poller.h:53-56 | coalesced reports about registered descriptors are what the event loop relies on: at most one event per descriptor, each about the incarnation that is open |
| Kqueue.FoldMerges | src/net/poller_kqueue.cpp:105-114 | the flag updates compute the union |
| Kqueue.AbsorbKnown | src/net/poller_kqueue.cpp:103-114 | a further report about a known descriptor |
| Kqueue.AbsorbNew | src/net/poller_kqueue.cpp:91-102 | a first report, or one about no descriptor |

## Left out

- Real system calls, socket options, peer names and the epoll and kqueue registration code: they are the environment's choices in `Kernel.System`. Poller registration changes other than `add` are taken to succeed; their results are ignored by the source as well.
- Failure of the poller itself (src/net/event_loop.cpp:36), the shutdown flag and `~Server`: the loop is modelled for any number of iterations instead.
- EventLoops.EventLoop.SetWriteInterest: the poller call is taken to succeed; the source ignores its result and sets `write_armed` all the same, so a refused call would leave the flag and the poller disagreeing.
- Servers.Server.constructor: starts with the listener already open and registered, because socket creation is foreign; reserving the spare is modelled.
- Eventual resumption of a paused listener: the code resumes only when a connection closes, so only safety is stated.
- Logging, argument parsing, signal installation and configuration files.
- The WRONGTYPE branches of GET and INCR: the only value type is a string, so they cannot be taken.
- Several clock readings within one command: `lookup`, `pttl` and `ttl_to_deadline` each read the clock; here a command has one reading.
- Overflow of `size_t` sums and exhaustion of memory: buffer sizes are unbounded numbers here.
- `std::to_string` in INCR and DECR: taken to print as `format_int` does.
- `argv_.reserve`, `capacity` and the growth of the kqueue event array: no observable effect.
- Amortised cost of compaction and of the parser, fairness of accepts and reads beyond their fixed bounds.
