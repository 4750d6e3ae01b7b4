# A model of the EQ-3 valve hub

The repository is the firmware of an ESP32 hub that takes commands for EQ-3 radiator
valves over MQTT, HTTP and UART and passes them on over Bluetooth LE. It ships with the
Mongoose 7.4 networking library. This project models the two places where its state is
intricate and proves what they are for.

**The command scheduler** (`main/eq3_main.c`). A linked list of commands with duplicate
suppression per device and three attempts per command; a failed head is relinked to the
tail. Around it an event-driven machine: a one-second timer that is outstanding at most
once, one delayed command, one BLE operation in flight, a deferred reboot.

- `Eq3Commands`: commands, their encoding, the queue discipline on sequences.
- `Eq3Queue`: the heap list, proved against it.
- `Eq3Machine`: the machine as a transition function on a state and a history of what
  the outside world has seen.
- `Eq3Runs`: the invariant every run keeps.
- `Eq3Safety`, `Eq3Completions`: the promises for all runs from boot; which event completes
  or charges which command.
- `Eq3Operations`: how long an operation lasts, what is delayed, and what is asked of the BLE stack.
- `Eq3Hub`: the handlers on shared mutable state; handling any event is the machine's step,
  and a run of events keeps the invariant of all runs.

**Mongoose's codecs and stream machines** (`components/mongoose/src` and the JSON
tokenizer beside it). Each has a specification on byte sequences and an implementation on
buffers that is proved to refine it.

- `Bytes`, `Wrappers`, `IoBuf`: octets and bit operations; optional values; the growable buffer.
- `WsCodec`, `WsFrames`, `WsStream`, `WsEvents`, `WsConnection`: WebSocket frames, their
  in-place forms, streams of frames and what is told of them, the receive loop.
- `Sha1`: streaming SHA-1 over any compression function, and HMAC.
- `Glob`, `GlobStars`, `GlobPatterns`, `GlobMatcher`: the wildcard matcher with a single
  backtrack point; for which patterns it decides by the documented meaning.
- `Mqtt`, `MqttConnect`, `MqttEvents`, `MqttClient`: packets, the CONNECT packet, what is told
  of a stream of packets, the client.
- `HttpChunks`, `HttpHeads`, `HttpConnection`: chunked bodies and their in-place compaction;
  where a head ends and what is told of a message.
- `Mjson`, `MjsonText`, `MjsonGrammar`, `MjsonTokens`: the JSON tokenizer against a grammar, and
  its tokens against the text; JSON strings.
- `Timers`: the timer list, with a clock of 32 bits.
- `Base64`, `Base64Letters`: streaming Base64, and its letters.
- `Dns`, `DnsPointers`: the names in DNS queries; compressed names.

Bytes are the integers 0 to 255 (bit-vectors in `Base64`); `size_t`, `unsigned long` and
`uint32_t` have 32 bits where wrapping matters. What comes from outside is a parameter:
the masking key, the verdict of `calloc`, the compression function, the lengths `strtod`
consumes, what the head of an HTTP message announces, the polls' times.

Findings. Where the code does not keep what its comments or its documentation suggest, lemmas
say when it does, and, where that alone does not show it, give an input on which it does not.
Except for `mg_globmatch` the condition is exact for all inputs.

- An operation is watched by no timer once it has been started: the tick that starts it has
  cleared the timer flag and `run_command` sets no timer. If the BLE stack then stays silent
  the operation is never given up and the queue stands still
  (`Eq3Safety.FirstCommandIsUnwatched`, `Eq3Safety.SilentStackStandsStill`; exactly:
  `Eq3Safety.UnwatchedExactly`, `Eq3Safety.WatchdogGivesUp`).
- Work can be stranded: by a local disconnect after such a start, and by the last tick of a
  WiFi delay, which does not restart the timer
  (`Eq3Safety.LocalDisconnectStrandsTheCommand`, `Eq3Safety.BootDelayStrandsAnEarlyRequest`;
  exactly: `Eq3Safety.ArmedUnlessStranded`).
- The retry after a lost WiFi connection is not scheduled while another delay is running
  (exactly: `Eq3Safety.RetryIsScheduledExactly`).
- Retrying by rotation can make a command repeat the one before it for its device, and changes
  the order of a device's commands (`Eq3Commands.RotationCanDuplicate`; exactly:
  `Eq3Completions.RepeatsComeFromRetries`, `Eq3Commands.RetryKeepsOrderExactly`).
- A second completion event for one BLE operation completes, or charges, the next command
  although it was never sent, and a report can name another valve
  (`Eq3Completions.UnsentCommandIsCompleted`, `Eq3Completions.UnsentCommandIsGivenUp`; exactly:
  `Eq3Completions.UnstartedHeadIsCompletedExactly`, `Eq3Completions.ReportsExactly`; over runs:
  `Eq3Completions.OperationsBalance`).
- Bytes that follow a chunked message are in general not what is parsed next
  (`HttpChunks.AFollowingByteIsReplaced`; exactly: `HttpChunks.FollowingBytesAreReplaced`,
  `HttpChunks.FollowingBytesSurviveExactly`).
- `mg_globmatch` can answer wrongly or loop for ever on a text that contains a wildcard of
  the pattern (`Glob.CanGoRoundForEver`; exactly, pattern by pattern:
  `Glob.DecidesEveryTextExactlyWithoutWildcards`). On all other texts it ends, but it does not
  always decide by the documented rules: it accepts where a `*` in front of a slash or a `?`
  takes a slash, and refuses where a `#` or a `*` has taken too little
  (`GlobPatterns.LostBehindHash`, `GlobPatterns.LostBetweenStars`). Exactly: for patterns
  without `?` behind `*` and `*` behind `#`, `GlobStars.RightExactlyWhenStarsStop`; with one
  star, `GlobPatterns.OneStarIsRightExactly`; with a star behind the last `#`, never
  (`GlobPatterns.NeverRightWithStarBehindLastHash`).
- A timer whose next expiration time does not fit 32 bits is set into the past and fires in
  every poll until the clock has wrapped (`Timers.FiresInEveryPollBeforeTheWrap`; exactly:
  `Timers.NoDrift`, `Timers.PhaseIsKept`).
- `mg_mqtt_login` sends CONNECT packets that section 3.1.2 of MQTT 3.1.1 forbids, such as one
  with a password and no user (exactly: `MqttConnect.FlagsAllowedExactly`,
  `MqttConnect.ConnectReadsBack`).
- A fragmented message whose first frame is missing loses its first octet to the flags
  (exactly: `WsStream.FirstOctetIsKeptExactly`).
- `mg_mqtt_sub` sends the quality in flags that section 3.8.1 of MQTT 3.1.1 reserves (exactly:
  `Mqtt.SubscribeReadsBack`).
- Names with an empty label or one of more than 63 octets are sent but cannot be read back, and
  of names of more than 250 octets only a part is sent (exactly: `Dns.QueryNameRoundTrip`).
- Of a compressed name the labels in front of a pointer are lost (exactly:
  `DnsPointers.ReadWholeExactly`).
- The tokenizer accepts a closing bracket behind a comma
  (`MjsonGrammar.CommaBeforeBracketIsAccepted`; exactly: `MjsonGrammar.StrictExactly`).
- `mg_iobuf_resize` to a nonzero size below the length leaves a length beyond the buffer
  (exactly: `IoBuf.Buffer.Resize`).

## Model

| member | source | states |
|---|---|---|
| `Eq3Safety.CommandsAreConserved` | main/eq3_main.c:916-945 | In every reachable state the accepted requests are, as a bag, exactly the queued, the completed and the exhausted ones, and every queued command has 1 to 3 attempts left. |
| `Eq3Safety.DroppedExactlyWhenPending` | main/eq3_main.c:931-938 | A request is dropped if and only if the last command queued for its device is the same command with the same parameters; otherwise it joins the tail with three attempts. |
| `Eq3Safety.InFlightAgreement` | main/eq3_main.c:1058-1064 | At every reachable moment between run_command and the next completion the queue head is the command that was started, `cmd_bleda` is its address and `cmd_val[..cmd_len]` its encoding, under every interleaving of requests, ticks, WiFi callbacks and GATT events. |
| `Eq3Safety.InFlightUntilCompletion` | main/eq3_main.c:1010-1055 | Any event either leaves the same command in flight at the head or is one completion of exactly that command. |
| `Eq3Safety.WritesCarryTheCommandInFlight` | main/eq3_main.c:463-475 | While a command is in flight something is written to a valve if and only if the registration for notifications has succeeded, and it is that command's encoding. |
| `Eq3Safety.RebootOnlyWhenAllIsDone` | main/eq3_main.c:1306-1311 | A run reboots only on a tick, after a request to, with no operation in progress, an empty queue and every accepted command completed or given up. |
| `Eq3Safety.OnlyTicksReboot` | main/eq3_main.c:1306-1311 | Exactly which event in which state reboots (both directions). |
| `Eq3Safety.DelayFiresOnItsTick` | main/eq3_main.c:1279-1304 | A command delayed by k ticks fires once, on the k-th tick, which is sure to be due, whatever else happens, unless WiFi coming up cancels it. |
| `Eq3Safety.DelayCountsDown` | main/eq3_main.c:1276-1304 | Until then the count falls by one per tick, nothing fires, and exactly one timer is outstanding. |
| `Eq3Safety.DelayUndisturbed` | main/eq3_main.c:103-112 | No event other than a tick or the cancelling WiFi callback changes a running delay, its command or its count: later setnextcmd calls have no effect. |
| `Eq3Safety.ArmedUnlessStranded` | main/eq3_main.c:194-200 | For every event in every reachable state: a hub that moves on by itself (a tick is due, or there is nothing to do and nothing under way) stops doing so if and only if the event is a tick that starts a command, or the last tick of a WiFi delay while there is work or an operation; one that does not starts to if and only if the event is one of those that call runtimer, or a local disconnect when there is no work. |
| `Eq3Safety.UnwatchedExactly` | main/eq3_main.c:1305-1324 | Exactly which events leave an operation in progress with no timer outstanding: the tick that starts it, the last tick of a WiFi delay, and every event that does not touch the timer. |
| `Eq3Safety.StartedIsUnwatched` | main/eq3_main.c:1058-1076 | The tick that starts a command has cleared the timer flag and run_command starts no timer, so in every such state no tick can come. |
| `Eq3Safety.SilentStackStandsStill` | main/eq3_main.c:1274-1324 | From there, whatever requests, reboot requests and successful WiFi callbacks come, a silent BLE stack means that the operation stays as it is for ever: no tick, nothing given up, nothing sent, the queue only grows. |
| `Eq3Safety.FirstCommandIsUnwatched` | main/eq3_main.c:1249-1311 | Witness from boot: the boot delay, a request and the tick that starts it. |
| `Eq3Safety.LocalDisconnectStrandsTheCommand` | main/eq3_main.c:606-616 | Witness from boot: after that a local disconnect leaves the command in the queue with no operation, no timer and no completion. |
| `Eq3Safety.BootDelayStrandsAnEarlyRequest` | main/eq3_main.c:1250-1254 | Witness from boot: a request during the WiFi start delay is left in the queue with no timer and no operation to take it up. |
| `Eq3Safety.WatchdogGivesUp` | main/eq3_main.c:1312-1324 | An operation left alone is given up, its command charged one attempt, on the tick that makes it last 40 (after those of a running delay) and not earlier; these ticks can come if and only if a timer is outstanding and no WiFi delay stands in front. |
| `Eq3Safety.OneTimerAtMost` | main/eq3_main.c:194-200 | In every reachable state at most one tick is pending, one exactly when the outstanding flag says so, and always while a delay runs. |
| `Eq3Safety.RebootRequestStands` | main/eq3_main.c:740-744 | A request to reboot is never withdrawn, and the first tick that finds nothing delayed, in progress or queued carries it out. |
| `Eq3Safety.RetryIsScheduledExactly` | main/eq3_main.c:1119-1124 | When WiFi is lost the retry 300 ticks later is scheduled if and only if no other delay is running (or that very one); a running one is left as it is, so the retry is lost. |
| `Eq3Safety.StationIsRetried` | main/eq3_main.c:1118-1176 | A scheduled retry fires once, on the 300th tick, unless WiFi comes up before. |
| `Eq3Completions.EveryEventIsBooked` | main/eq3_main.c:916-1076 | For every event in every reachable state, what it does to the queue, to the accepted, completed and given-up commands, to the one in flight, to the addresses dialled and reported: told from the state before. |
| `Eq3Completions.QueueMoves` | main/eq3_main.c:916-1055 | Which event makes which move: removal of the head by the two notices of success, a charge by the six failures and the watchdog's last tick, entry by a request, nothing else. |
| `Eq3Completions.RepeatsComeFromRetries` | main/eq3_main.c:916-1055 | From a queue in which no command repeats the one before it for the same device, an event leads to one with a repetition if and only if it is one of those failures, and the head has an attempt left and is pending again behind it. |
| `Eq3Completions.UnstartedHeadIsCompletedExactly` | main/eq3_main.c:1010-1055 | With a command waiting and none in flight: exactly which events take the command off the queue or charge it although it was never started, count it as completed, or give it up. |
| `Eq3Completions.OperationsBalance` | main/eq3_main.c:1010-1076 | Over every run: operations started + completions of commands that were not in flight = completions + operations abandoned for a new start + the change of what is in flight. |
| `Eq3Completions.ReportsExactly` | main/eq3_main.c:230-244 | A failure is reported if and only if it charges a last attempt; the address is that of the last command started (watchdog, failed or lost connection) or of the last peer. |
| `Eq3Completions.AddressesComeFrom` | main/eq3_main.c:1058-1064 | Which events set these two addresses. |
| `Eq3Completions.ReportNamesTheCommandInFlight` | main/eq3_main.c:230-244 | So a command given up by the watchdog or the connection while in flight is reported under its own valve's address. |
| `Eq3Completions.UnsentCommandIsCompleted` | main/eq3_main.c:579-595 | Witness from boot: a second notice of the same success completes the next command, which was never dialled. |
| `Eq3Completions.UnsentCommandIsGivenUp` | main/eq3_main.c:606-616 | Witness from boot: lost connections charge the next command without its being dialled; the third gives it up and reports the address of the one before. |
| `Eq3Operations.OperationTimeExactly` | main/eq3_main.c:1305-1324 | For every event in every reachable state: the time of an operation is 0 at its start, grows by one on each tick that comes while nothing is delayed, and the operation ends on the fortieth of these or with the connection. |
| `Eq3Operations.StartsWithFortyTicks` | main/eq3_main.c:1058-1076 | In the state behind the tick that starts a command the watchdog is 40 ticks away. |
| `Eq3Operations.OperationLasts` | main/eq3_main.c:1312-1324 | Whatever else happens short of a disconnection, an operation goes on as long as it has counted fewer than 40 ticks. |
| `Eq3Operations.GivenUpOnTheFortiethTick` | main/eq3_main.c:1312-1324 | From its start, along every run without a disconnection: an operation is given up, and its command charged, on the fortieth tick that it counts, and on no tick before. |
| `Eq3Operations.FortyTicksFromTheStart` | main/eq3_main.c:1312-1324 | Once an event has armed the timer and nothing is delayed, 39 ticks alone leave a started operation and the queue as they are, and the fortieth gives it up. |
| `Eq3Operations.DelayExactly` | main/eq3_main.c:1279-1304 | What is delayed, and what is fired, after every event in every reachable state: two ticks to the disconnect behind a completion, 300 to the WiFi retry, one fewer with each tick, and WiFi coming up cancels the retry. |
| `Eq3Operations.NoRetryWhileConnected` | main/eq3_main.c:1119-1124 | After WiFi has come up station mode is not retried in any run in which it is not lost again. |
| `Eq3Operations.LinkExactly` | main/eq3_main.c:255-621 | What every event does to the flags for the connection and for the valve's service, and exactly which events start a service discovery or ask for a disconnect. |
| `Eq3Operations.LinkFollowsTheEvents` | main/eq3_main.c:255-621 | Along every run these flags say what the events said last: opened or closed, found or disconnected. |
| `Eq3Runs.StepKeeps` | main/eq3_main.c:1262-1328 | Every event that can happen keeps the invariant: conservation, live attempts, agreement of the command in flight, agreement of timer and delay. |
| `Eq3Runs.RunKeeps` | main/eq3_main.c:1262-1328 | Hence every run keeps it. |
| `Eq3Runs.GattKeeps` | main/eq3_main.c:255-621 | Every GATT event keeps the invariant. |
| `Eq3Runs.GattFrame` | main/eq3_main.c:255-621 | A GATT event fires no delayed command, changes no running delay, never reboots, completes at most one command, and writes only when notifications are ready. |
| `Eq3Runs.CompletionFrame` | main/eq3_main.c:230-244 | A completion, good or bad, changes queue and flight only, asks for a disconnect in two ticks unless a delay is running, and leaves a timer outstanding. |
| `Eq3Runs.DelayTickKeeps` | main/eq3_main.c:1279-1304 | A tick with a delay running counts it down or fires it, and keeps the invariant. |
| `Eq3Runs.IdleTickKeeps` | main/eq3_main.c:1305-1311 | A tick with nothing delayed and nothing in progress starts the head of the queue, or reboots exactly when the queue is empty and a reboot was asked for. |
| `Eq3Runs.WatchdogTickKeeps` | main/eq3_main.c:1312-1324 | A tick during an operation counts or gives up, and keeps the invariant. |
| `Eq3Runs.RequestKeeps` | main/eq3_main.c:870-907 | A request keeps the invariant even while another command is in flight. |
| `Eq3Commands.RoundRobinExhaustion` | main/eq3_main.c:1010-1055 | From n fresh commands under failures only: every n failures charge each command once and restore the order; after 2n none has been given up; after 3n the queue is empty and the commands were given up once each, in queue order. |
| `Eq3Commands.ExhaustedExactlyWhenAttemptsRunOut` | main/eq3_main.c:1026-1047 | A live queue is empty after n failures if and only if n is at least the sum of its attempts. |
| `Eq3Commands.FailureCostsOneAttempt` | main/eq3_main.c:1026-1029 | Each failure lowers the sum of remaining attempts by exactly one and keeps the queue live. |
| `Eq3Commands.Round` | main/eq3_main.c:1031-1043 | As many failures as there are retryable commands in front move them, in order, behind the rest, each charged once. |
| `Eq3Commands.LastRound` | main/eq3_main.c:1026-1029 | As many failures as there are last attempts in front give up on exactly those, in order. |
| `Eq3Commands.RotationRepeatsExactly` | main/eq3_main.c:1026-1043 | A failure makes a command repeat the one before it for its device if and only if the head has an attempt left and the queue behind it ends, for that device, in the same command. |
| `Eq3Commands.EntryKeepsNoRepeats` | main/eq3_main.c:931-938 | Entry never makes a repetition. |
| `Eq3Commands.RemovalKeepsNoRepeats` | main/eq3_main.c:1044-1050 | Nor does removal of the head. |
| `Eq3Commands.RotationCanDuplicate` | main/eq3_main.c:1031-1043 | Witness: boost, unboost and boost for one valve, and one failure. |
| `Eq3Commands.RetryKeepsOrderExactly` | main/eq3_main.c:1031-1043 | A retry keeps the order of each valve's commands if and only if all commands queued for the head's valve are equal to it. |
| `Eq3Commands.EncodingIsUnambiguous` | main/eq3_main.c:948-1002 | From the bytes set up for a request a valve that knows just the nine commands' forms reads back the command and the parameters it uses. |
| `Eq3Commands.IsStillPending` | main/eq3_main.c:916-938 | The backward look at the queue finds a duplicate exactly when the last command for the device is this request. |
| `Eq3Queue.CommandQueue.Enqueue` | main/eq3_main.c:916-945 | The heap list with duplicate suppression: the same nodes in the same order, the new one last or not at all, and no cycle. |
| `Eq3Queue.CommandQueue.Walk` | main/eq3_main.c:924-930 | One walk finds the tail and the last command for the device. |
| `Eq3Queue.CommandQueue.CommandComplete` | main/eq3_main.c:1010-1055 | Relinking and deleting give exactly the sequence specification, with the outcome code. |
| `Eq3Queue.CommandQueue.MoveHeadToTail` | main/eq3_main.c:1032-1043 | The pointer surgery makes the head the tail, loses no node, creates no cycle and changes no command. |
| `Eq3Hub.EventHub.constructor` | main/eq3_main.c:1249-1254 | The state in which the main loop is entered; it satisfies the invariant of all runs. |
| `Eq3Hub.EventHub.Handle` | main/eq3_main.c:1262-1328 | Any event whatever, handled on the heap list, the value array and the shared fields, is one step of the machine. |
| `Eq3Hub.EventHub.Drive` | main/eq3_main.c:1262-1328 | So any possible run of events drives the object along the machine's run, and the invariant holds at its end: what is proved of all runs holds of the object. |
| `Eq3Hub.EventHub.CommandComplete` | main/eq3_main.c:1010-1055 | The handler, on heap list and shared state, makes the machine's step. |
| `Eq3Hub.EventHub.GattcCommandError` | main/eq3_main.c:230-244 | Likewise: failure, report when given up, disconnect later. |
| `Eq3Hub.EventHub.SetupCommand` | main/eq3_main.c:948-1002 | Likewise: the front of the value buffer holds the encoding, the rest is unchanged. |
| `Eq3Hub.EventHub.RunCommand` | main/eq3_main.c:1058-1076 | Likewise. |
| `Eq3Hub.EventHub.HandleRequest` | main/eq3_main.c:870-907 | Likewise, the request text being parsed already: entry on the heap list, and the timer if nothing is in progress. |
| `Eq3Hub.EventHub.TimerEvent` | main/eq3_main.c:1274-1326 | Likewise: the timer branch of the main loop. |
| `Eq3Hub.EventHub.DelayRuns` | main/eq3_main.c:1279-1304 | Likewise: its first part. |
| `Eq3Hub.EventHub.Watchdog` | main/eq3_main.c:1312-1324 | Likewise: its last part. |
| `Eq3Hub.EventHub.GattEvent` | main/eq3_main.c:255-621 | Likewise: all GATT events, service discovery reduced to whether the characteristics were found. |
| `WsStream.EveryMessageIsDeliveredOnce` | components/mongoose/src/ws.c:152-204 | For every well-formed stream of frames (fragmented messages with control frames between the fragments, every masking) and every way of cutting it into reads: each message is delivered exactly once, in order, a fragmented one as the concatenation of its fragments under the first one's flags; each ping is answered; nothing stays behind. |
| `WsStream.CuttingIsIrrelevant` | components/mongoose/src/ws.c:152-204 | For every byte stream, well formed or not, any segmentation has the outcome of one read. |
| `WsStream.DrainThenMore` | components/mongoose/src/ws.c:152-204 | Bytes arriving later find the same frames delivered as if they had been there from the start. |
| `WsStream.DrainWire` | components/mongoose/src/ws.c:152-204 | Draining the wire form of any frames within the limit delivers exactly these frames and leaves nothing. |
| `WsStream.DeliverItem` | components/mongoose/src/ws.c:156-203 | A message or control frame, fragmented or not, comes out whole and leaves nothing gathered. |
| `WsStream.FirstOctetIsKeptExactly` | components/mongoose/src/ws.c:188-203 | A chain of continuation frames is delivered with all its octets if and only if something was gathered before it; otherwise its first octet is taken for the flags, and without any octet the length wraps around. |
| `WsEvents.EverythingIsToldInOrder` | components/mongoose/src/ws.c:156-204 | For every well-formed stream of frames and every cut the whole log is what is told of the items one by one (each control frame with its flags and data, pings after their pong, each message where its last octet stands), and the connection is to be closed if and only if one of the control frames is a close. |
| `WsEvents.FrameClosesExactly` | components/mongoose/src/ws.c:160-186 | Of a single frame the connection is closed if and only if its opcode is neither 0, 1, 2, 9 nor 10. |
| `WsEvents.FrameIsReportedExactly` | components/mongoose/src/ws.c:160-186 | What is told of a single frame, opcode by opcode. |
| `WsCodec.RoundTrip` | components/mongoose/src/ws.c:47-104 | A frame followed by anything is read back with exact length, flags and payload if and only if the payload has at most 2^30 bytes. |
| `WsCodec.WirePrefixIsIncomplete` | components/mongoose/src/ws.c:47-76 | Every strict prefix of a frame reads as nothing. |
| `WsCodec.StrictPrefixesAreIncomplete` | components/mongoose/src/ws.c:47-76 | The same for any byte sequence that starts with a complete frame. |
| `WsCodec.MoreBytesChangeNothing` | components/mongoose/src/ws.c:47-76 | A complete frame stays the same frame when more bytes arrive. |
| `WsCodec.HeaderLengths` | components/mongoose/src/ws.c:47-67 | Every header form is read with the lengths it was written with. |
| `WsCodec.MaskTwice` | components/mongoose/src/ws.c:70-73 | Masking is its own inverse, for any key and length. |
| `WsCodec.MaskAt` | components/mongoose/src/ws.c:106-112 | Byte i is combined with byte i mod 4 of the key. |
| `WsFrames.WsProcess` | components/mongoose/src/ws.c:47-76 | In place: total length, flags and lengths of the frame at the start; a complete frame is unmasked where it lies, everything else, and every byte of an incomplete frame, is left alone. |
| `WsFrames.XorRange` | components/mongoose/src/ws.c:70-73 | The masking loop changes exactly its range, to the masked bytes. |
| `WsFrames.MkHdr` | components/mongoose/src/ws.c:78-104 | The header of section 5.2 of RFC 6455 in its shortest form, key last. |
| `WsFrames.WsMask` | components/mongoose/src/ws.c:106-112 | The last bytes of the send buffer are masked with the four before them. |
| `WsFrames.WsSend` | components/mongoose/src/ws.c:114-123 | One frame is appended, nothing before it changes, and its length is returned. |
| `WsFrames.WsWrap` | components/mongoose/src/ws.c:270-282 | The data already at the end of the send buffer becomes the very frame that mg_ws_send would have sent. |
| `WsFrames.SentHeader` | components/mongoose/src/ws.c:78-104 | Of what either role sends: the first octet is the final bit and the opcode, clients and only they mask, and the length has the shortest of its three forms, big-endian. |
| `WsFrames.SentFramesAreRead` | components/mongoose/src/ws.c:78-123 | What either role sends is read back exactly, up to the limit. |
| `WsConnection.Connection.Dispatch` | components/mongoose/src/ws.c:160-186 | The events of one frame, in order, and whether the connection is to be closed. |
| `WsConnection.Connection.Consume` | components/mongoose/src/ws.c:188-203 | The buffer surgery: an unfragmented frame vanishes, a fragment is gathered behind the first one's flags, the last fragment delivers and removes all that was gathered. |
| `WsConnection.Connection.TakeFrame` | components/mongoose/src/ws.c:152-204 | One turn of the loop is one frame delivered, or nothing. |
| `WsConnection.Connection.OnRead` | components/mongoose/src/ws.c:152-204 | The loop over the shared buffer refines draining on byte sequences and terminates. |
| `WsConnection.Connection.ReceiveAll` | components/mongoose/src/ws.c:125-211 | Any number of reads refines the stream specification. |
| `Sha1.Context.Update` | components/mongoose/src/sha1.c:180-198 | After any updates the state is the fold of the transform over the complete blocks of everything fed, the buffer starts with the remainder, and the two-word count is the bit length mod 2^64. |
| `Sha1.Context.Absorb` | components/mongoose/src/sha1.c:187-197 | The block loop and the buffer refine the fold for every split into pieces. |
| `Sha1.Context.Count` | components/mongoose/src/sha1.c:184-186 | The carry between the two count words is right for every length. |
| `Sha1.Context.PadWithZeros` | components/mongoose/src/sha1.c:211-214 | The padding loop ends, after exactly the zeros of section 5.1.1 of FIPS 180-4. |
| `Sha1.Context.Final` | components/mongoose/src/sha1.c:200-222 | The digest is that of one-shot hashing of everything fed, and the context is wiped. |
| `Sha1.Context.Init` | components/mongoose/src/sha1.c:171-178 | A context that has absorbed nothing. |
| `Sha1.PaddingIsMinimal` | components/mongoose/src/sha1.c:209-215 | The padded message is whole blocks, and no shorter run of zeros makes it so. |
| `Sha1.FoldThen` | components/mongoose/src/sha1.c:190-193 | Hashing whole blocks and then the rest is hashing it all. |
| `Sha1.FoldFromTail` | components/mongoose/src/sha1.c:187-197 | Hashing on needs the state and the incomplete block only. |
| `Sha1.HmacSha1` | components/mongoose/src/sha1.c:224-257 | The nested construction of section 2 of RFC 2104, for every key length, long keys hashed first. |
| `Sha1.Pads` | components/mongoose/src/sha1.c:238-246 | Both pads of a key of at most one block. |
| `Sha1.DigestIsBigEndian` | components/mongoose/src/sha1.c:216-219 | The digest, read as big-endian words, is the state. |
| `Sha1.PaddingEndsInBitLength` | components/mongoose/src/sha1.c:204-215 | The last eight octets of the padding, read as one big-endian number, are the bit length mod 2^64, and the marker is 0x80. |
| `Sha1.InitialState` | components/mongoose/src/sha1.c:171-178 | The octets of the initial state run 01, 23 .. EF, then back from FE to 10, then F0, E1, D2, C3. |
| `Sha1.HmacOfEmptyKey` | components/mongoose/src/sha1.c:224-257 | With no key the pads are 64 octets of 0x36 and of 0x5C. |
| `Glob.TrueMeansMatch` | components/mongoose/src/util.c:81-96 | From any state of the loop, wildcards in the text or not: the answer true means a match from here or from the backtrack point. |
| `Glob.Decides` | components/mongoose/src/util.c:81-96 | On a text without the pattern's wildcards the loop ends, and, where wildcards take any run of characters, the one backtrack point loses no match. |
| `Glob.EndsWhenApart` | components/mongoose/src/util.c:81-96 | So the loop ends on all such texts. |
| `Glob.DecidesEveryTextExactlyWithoutWildcards` | components/mongoose/src/util.c:81-96 | The loop ends with the right answer on every text, those with wildcards in them included, if and only if the pattern contains no wildcard. |
| `Glob.GreedyIsEnough` | components/mongoose/src/util.c:86-89 | Why forgetting all earlier backtrack points loses no match. |
| `Glob.MatchesIffCuttable` | components/mongoose/src/util.c:81-96 | Matching means: the text can be cut so that every pattern character fits its piece. |
| `Glob.CanGoRoundForEver` | components/mongoose/src/util.c:81-96 | Witness: a text containing a wildcard of the pattern keeps the loop going for ever. |
| `GlobStars.RightExactlyWhenStarsStop` | components/mongoose/docs/README.md:2258-2263 | For every pattern with no `?` behind a `*` and no `*` behind a `#`: the loop decides every text without the pattern's wildcards by the documented meaning (`*` takes anything but slashes) if and only if every star is last, or is followed by a wildcard, a literal other than a slash, or a slash and then a wildcard. |
| `GlobStars.DecidesSettled` | components/mongoose/src/util.c:81-96 | Both answers are right for such patterns and texts. |
| `GlobStars.LosesNothing` | components/mongoose/src/util.c:81-96 | From any state of the loop: for a pattern without `?` behind `*` and without `*` behind `#` a match from here or from the backtrack point is never lost, slashes in the text or not. |
| `GlobStars.NoSlashInShifted` | components/mongoose/src/util.c:86-89 | Why: literals found at two places with no slash from one to the other contain no slash. |
| `GlobStars.StarsStopAtSlashes` | components/mongoose/src/util.c:88 | Acceptance means a match in which no star takes a slash, for every pattern whose stars stop, `?` and `#` anywhere. |
| `GlobPatterns.OneStarIsRightExactly` | components/mongoose/docs/README.md:2258-2263 | For every pattern with one star and no other wildcard, `?` anywhere: the loop decides every text without a star by the documented meaning if and only if neither a slash nor `?` follows the star and what follows it does not overlap itself up to a slash that the first copy cannot match. |
| `GlobPatterns.StarCrossesASlash` | components/mongoose/src/util.c:88 | For every pattern with one star and something behind it: some text is accepted that no slash-free star matches if and only if a slash or `?` follows the star. |
| `GlobPatterns.NeverRightWithStarBehindLastHash` | components/mongoose/docs/README.md:2258-2263 | Every pattern with a star behind its last `#`: some text without wildcards is matched and refused. |
| `GlobPatterns.NeverRightWithAnyBetweenStars` | components/mongoose/docs/README.md:2258-2263 | Likewise every pattern with `?` and no slash between its last two stars, the last of which stops. |
| `GlobPatterns.LostBehindHash` | components/mongoose/src/util.c:81-96 | Witness: `#/*x` refuses `a/b/cx`. |
| `GlobPatterns.LostBetweenStars` | components/mongoose/src/util.c:81-96 | Witness: `*a?*b` refuses `axa/b`. |
| `GlobMatcher.GlobMatch` | components/mongoose/src/util.c:81-96 | For every pattern and text on which its loop ends: the answer is that of the loop's turns, true is always a match with wildcards as any runs of characters, and both answers are right by the documented meaning for every pattern that the lemmas above call right, on texts without its wildcards. |
| `Mqtt.PublishRoundTrip` | components/mongoose/src/mqtt.c:84-177 | A published packet followed by any bytes is read back (topic, data, quality, id, exact length) if and only if its remaining length is below 2^28; a longer one is malformed. |
| `Mqtt.Framed` | components/mongoose/src/mqtt.c:20-31 | Any packet is framed exactly when its remaining length is below 2^28. |
| `Mqtt.LengthRoundTrip` | components/mongoose/src/mqtt.c:20-31 | The variable-length integer of section 2.2.3, both directions. |
| `Mqtt.StrictPrefixesAreIncomplete` | components/mongoose/src/mqtt.c:115-133 | Short of its last byte a packet is incomplete. |
| `Mqtt.MoreBytesChangeNothing` | components/mongoose/src/mqtt.c:115-177 | Any other verdict stands when more bytes arrive. |
| `Mqtt.CuttingIsIrrelevant` | components/mongoose/src/mqtt.c:205-245 | For every byte stream the events do not depend on how it is cut into reads. |
| `Mqtt.PublicationsAreDeliveredOnce` | components/mongoose/src/mqtt.c:205-245 | Every publication is delivered once and in order for every segmentation, and nothing is left. |
| `Mqtt.DrainThenMore` | components/mongoose/src/mqtt.c:205-245 | Bytes arriving later find the same packets delivered as if they had been there from the start. |
| `Mqtt.SubscribeReadsBack` | components/mongoose/src/mqtt.c:102-113 | A reader that follows section 3.8 of MQTT 3.1.1 gets topic, id and quality back if and only if quality 1 is asked for (and neither topic nor id is empty): the quality is also sent in the reserved flags. |
| `MqttEvents.EverythingIsToldInOrder` | components/mongoose/src/mqtt.c:205-245 | For every sequence of packets of any kind and every cut: of each the program is told once, in order, by the fields it was sent with (the code of a CONNACK, the id of an acknowledgement, topic and data of a publication), and the connection is closed if and only if a CONNACK refuses or a malformed packet follows. |
| `MqttEvents.MalformedExactly` | components/mongoose/src/mqtt.c:115-177 | A buffer is found malformed if and only if four octets of length all announce another, or a complete packet is too short for what its kind has to hold. |
| `MqttEvents.LengthOctets` | components/mongoose/src/mqtt.c:20-31 | The octets of a remaining length: seven bits each, least significant first, the top bit set on all but the last. |
| `MqttEvents.FirstOctets` | components/mongoose/src/mqtt.c:57-113 | The first octets of the packets sent: kind, quality, retain flag, and the protocol's name and level in CONNECT. |
| `MqttConnect.DeclaredLengthIsExact` | components/mongoose/src/mqtt.c:37-82 | For every combination of client id, user, password and will the declared remaining length is the number of bytes sent behind the fixed header. |
| `MqttConnect.ConnectIsFramed` | components/mongoose/src/mqtt.c:37-82 | So a CONNECT packet followed by anything is framed exactly. |
| `MqttConnect.FlagsAllowedExactly` | components/mongoose/src/mqtt.c:39-56 | The flags sent meet section 3.1.2 of MQTT 3.1.1 if and only if there is no password without a user, no will option without a will, and the quality is not 3. |
| `MqttConnect.ConnectReadsBack` | components/mongoose/src/mqtt.c:57-82 | A reader that follows sections 3.1.2 and 3.1.3 of MQTT 3.1.1 gets back every field and nothing else if and only if the options are an allowed combination; from the other packets, which are sent as well, it gets nothing. |
| `MqttConnect.FlagBits` | components/mongoose/src/mqtt.c:39-56 | The flag bits say exactly what is present, and the reserved bit is 0. |
| `MqttClient.EncodeHeader` | components/mongoose/src/mqtt.c:20-31 | The do-while loop writes the fixed header, four length bytes at most. |
| `MqttClient.ParseLength` | components/mongoose/src/mqtt.c:125-133 | The length loop. |
| `MqttClient.MqttParse` | components/mongoose/src/mqtt.c:115-177 | The parser is the parser on sequences, for every buffer. |
| `MqttClient.ParseFields` | components/mongoose/src/mqtt.c:134-176 | Its switch, moving a position towards the end of the packet with the source's bounds tests, reads the fields of the body. |
| `MqttClient.LoginFlags` | components/mongoose/src/mqtt.c:39-57 | Flags and length as added up. |
| `MqttClient.Client.Pub` | components/mongoose/src/mqtt.c:84-100 | One packet appended; ids run through 1..65535 in a counter all connections share, one per packet that carries one. |
| `MqttClient.Client.Sub` | components/mongoose/src/mqtt.c:102-113 | Likewise. |
| `MqttClient.Client.Login` | components/mongoose/src/mqtt.c:37-82 | Likewise, with the exact length declared. |
| `MqttClient.Client.TakePacket` | components/mongoose/src/mqtt.c:207-240 | One turn of the loop. |
| `MqttClient.Client.OnRead` | components/mongoose/src/mqtt.c:205-245 | The loop over the receive buffer refines draining on byte sequences. |
| `HttpChunks.ChunkedMessageIsDeliveredOnce` | components/mongoose/src/http.c:858-952 | For every list of non-empty chunks and every cut into reads the message is delivered once, its body the concatenation of the chunks, and the buffer ends up empty. |
| `HttpChunks.PlainMessageIsDeliveredOnce` | components/mongoose/src/http.c:898-952 | Likewise a message whose head tells the length of its body. |
| `HttpChunks.PlainMessageIsTaken` | components/mongoose/src/http.c:920-952 | Such a message leaves the bytes that follow it as they are. |
| `HttpChunks.BodyIsCompacted` | components/mongoose/src/http.c:858-893 | A complete body, whatever follows it, is walked to its end and compacted to its data. |
| `HttpChunks.PartIsNotFinished` | components/mongoose/src/http.c:858-893 | An incomplete body is not taken for a complete one. |
| `HttpChunks.ChunkIsRecognised` | components/mongoose/src/http.c:845-854 | A chunk in front of anything has its length and data recognised. |
| `HttpChunks.PartIsNotRecognised` | components/mongoose/src/http.c:845-854 | Part of a chunk is not taken for a chunk. |
| `HttpChunks.HexRoundTrip` | components/mongoose/src/util.c:172-182 | Every size written in hex is read back. |
| `HttpChunks.NothingBeforeTheEnd` | components/mongoose/src/http.c:920-952 | Before the last byte nothing is delivered or removed. |
| `HttpChunks.FollowingBytesAreReplaced` | components/mongoose/src/http.c:858-952 | What is read after a chunked message with bytes behind it: not those bytes but as many from behind the moved data. |
| `HttpChunks.FollowingBytesSurviveExactly` | components/mongoose/src/http.c:884-893 | What is read next is what was sent next if and only if each byte sent equals the one that far behind the moved data. |
| `HttpChunks.AFollowingByteIsReplaced` | components/mongoose/src/http.c:858-893 | Witness: a byte behind a one-chunk message turns into a carriage return. |
| `HttpHeads.HeadLengthExactly` | components/mongoose/src/http.c:145-155 | The length of the head is n > 0 if and only if n is the least length at which the text ends in LF LF or, behind something, in LF CR LF, with no forbidden control octet before; it is -1 if and only if such an octet comes first; else 0. |
| `HttpHeads.TextIsAHead` | components/mongoose/src/http.c:145-155 | A start line and any header lines, not empty and printable, each ended by CR LF, and CR LF behind them are a complete head, and no part of them is. |
| `HttpHeads.TextMessagesAreDeliveredOnce` | components/mongoose/src/http.c:858-952 | So messages with such heads, chunked or with a length, are delivered once however they are cut. |
| `HttpHeads.ChunksAreTold` | components/mongoose/src/http.c:858-893 | A chunked message that arrives at once is told chunk by chunk in order, the empty one included, and then whole. |
| `HttpHeads.CompleteChunksAreTold` | components/mongoose/src/http.c:858-893 | Of an incomplete one every read tells the chunks that are complete, from the first one on. |
| `HttpHeads.PartIsTold` | components/mongoose/src/http.c:920-952 | Of an incomplete body with a length every read tells what there is. |
| `HttpHeads.EndlessBodyIsTold` | components/mongoose/src/http.c:920-952 | Of a body without a length, which only the end of the connection ends, likewise. |
| `HttpHeads.ErrorsAreToldExactly` | components/mongoose/src/http.c:920-952 | An error is reported, and nothing removed, if and only if a forbidden octet comes before the head's end or the head is not understood. |
| `HttpHeads.HexIsReadInEitherCase` | components/mongoose/src/util.c:172-182 | Up to eight hex digits in either case are read for what they are worth. |
| `HttpConnection.WriteChunk` | components/mongoose/src/http.c:276-280 | One chunk is appended. |
| `HttpConnection.Unhexn` | components/mongoose/src/util.c:172-182 | The shift-and-or loop, in 32 bits. |
| `HttpConnection.GetChunkLength` | components/mongoose/src/http.c:845-854 | The two scanning loops, with the comparison of an index to a line feed as in the source. |
| `HttpConnection.GetRequestLen` | components/mongoose/src/http.c:145-155 | The end of the head. |
| `HttpConnection.Connection.MoveTogether` | components/mongoose/src/http.c:870-883 | The in-place compaction: the data of all chunks stands behind the head, everything else where it was. |
| `HttpConnection.Connection.WalkChunks` | components/mongoose/src/http.c:858-893 | Chunk events for what has arrived, and the compaction once everything has. |
| `HttpConnection.Connection.TakeMessage` | components/mongoose/src/http.c:920-952 | One turn of the loop, for any parser of heads: error, wait, chunked or plain message. |
| `HttpConnection.Connection.OnRead` | components/mongoose/src/http.c:920-952 | The message loop refines its specification on byte sequences, for any parser of heads, and terminates. |
| `IoBuf.Buffer.Resize` | components/mongoose/src/iobuf.c:14-39 | For every size: contents survive growing, size 0 empties, a failed allocation changes nothing, bytes past the contents stay zero; the buffer stays valid unless it is shrunk to a nonzero size below its length, which keeps the length. |
| `IoBuf.Buffer.Reserve` | components/mongoose/src/iobuf.c:47-53 | Growth to a whole number of chunks strictly above the need, or nothing at all. |
| `IoBuf.Buffer.Add` | components/mongoose/src/iobuf.c:45-59 | Insertion at an offset, all or nothing: on failed allocation 0 is returned and nothing changes. Beyond the contents the bytes in between join them, zeros if the buffer is clean. |
| `IoBuf.Buffer.AddRoom` | components/mongoose/src/iobuf.c:45-59 | Insertion of zeros at the end. |
| `IoBuf.Buffer.Del` | components/mongoose/src/iobuf.c:61-68 | Removal of a slice clipped to what is there; bytes past the contents stay zero. |
| `IoBuf.Buffer.Aligned` | components/mongoose/src/iobuf.c:49-50 | The size is the least multiple of the chunk above the need. |
| `IoBuf.DelUndoesAdd` | components/mongoose/src/iobuf.c:45-68 | Deleting what was added restores the contents. |
| `IoBuf.Memmove` | components/mongoose/src/iobuf.c:55 | The source bytes arrive intact when the ranges overlap. |
| `Mjson.Tokenize` | components/mongoose/examples/complete/mjson.c:53-157 | A non-negative return is the end of a value of the grammar with at most 20 brackets open, and the callback saw exactly its tokens in order, all brackets matched; a negative one means that the text starts with no such value. |
| `Mjson.PassString` | components/mongoose/examples/complete/mjson.c:39-51 | Finds the first quote with an even number of backslashes in front and no zero before it, or reports that there is none. |
| `Mjson.ClosingQuoteIsTheFirst` | components/mongoose/examples/complete/mjson.c:39-51 | Skipping one octet behind some backslashes only is enough for that. |
| `Mjson.Esc` | components/mongoose/examples/complete/mjson.c:31-37 | The table look-up, both ways. |
| `Mjson.Unescape` | components/mongoose/examples/complete/mjson.c:263-278 | The meaning of the text when it has one that fits with its terminator, else -1. |
| `Mjson.PrintStr` | components/mongoose/examples/complete/mjson.c:481-493 | Writes the quoted string and returns its length. |
| `Mjson.StringRoundTrip` | components/mongoose/examples/complete/mjson.c:31-51 | A printed NUL-free string, wherever it stands, is one string token, and unescaping its text gives the string back. |
| `Mjson.UnescapedEscapes` | components/mongoose/examples/complete/mjson.c:263-278 | Unescaping undoes escaping. |
| `Mjson.QuoteIsFound` | components/mongoose/examples/complete/mjson.c:39-51 | The closing quote of printed text is found whatever follows. |
| `Mjson.OneToken` | components/mongoose/examples/complete/mjson.c:85-153 | The switch, on the nesting array, is one move of the pushdown automaton. |
| `MjsonTokens.TokensTellTheText` | components/mongoose/examples/complete/mjson.c:53-157 | Of every text, accepted or not, the tokens reported account for all octets up to the last of them: in between there is whitespace only; a token is TRUE, FALSE or NULL if and only if its text is that word, a number if and only if it starts as one and then of the length `strtod` gives, a string or key if and only if its text is a quote up to the quote that ends it, a mark if and only if its text is; a string is a key exactly when a colon follows. An accepted text ends with its last token. |
| `MjsonTokens.ScalarIsReported` | components/mongoose/examples/complete/mjson.c:85-127 | Conversely, where a value is expected each of these texts is reported as that scalar, and the run goes on behind it. |
| `MjsonTokens.RefusedExactly` | components/mongoose/examples/complete/mjson.c:53-157 | A refused text is reported as too deep if and only if its tokens leave 20 brackets open and another opening one stands where a value is expected; any other refusal is invalid input. |
| `MjsonTokens.EscapesAre` | components/mongoose/examples/complete/mjson.c:31-37 | Exactly seven octets have an escape, and these are the letters. |
| `MjsonTokens.BackslashMeans` | components/mongoose/examples/complete/mjson.c:263-278 | The first backslash of a string and the octet behind it mean one octet, or spoil the whole; at the very end it stands for itself. |
| `MjsonGrammar.AcceptedExactly` | components/mongoose/examples/complete/mjson.c:53-157 | The automaton accepts a prefix with given tokens if and only if it is the spelling of a tree of height at most 20 with these tokens. |
| `MjsonGrammar.AcceptedMeansNested` | components/mongoose/examples/complete/mjson.c:53-157 | The bracket events of an accepted text are properly nested, at most 20 deep, and end at depth 0. |
| `MjsonGrammar.StrictExactly` | components/mongoose/examples/complete/mjson.c:53-157 | The value found in an accepted text is nested as JSON allows if and only if the callback saw no closing bracket directly behind a comma. |
| `MjsonGrammar.ValueTidy` | components/mongoose/examples/complete/mjson.c:85-127 | Tree by tree: no list ends in a comma exactly when no such pair is reported. |
| `MjsonGrammar.CommaBeforeBracketIsAccepted` | components/mongoose/examples/complete/mjson.c:98-127 | Witness: `[1,]` is accepted. |
| `MjsonGrammar.ValueIsScanned` | components/mongoose/examples/complete/mjson.c:85-127 | The spelling of any tree of fitting height, followed by anything, is consumed and reported in order at any nesting. |
| `MjsonGrammar.ScannedValue` | components/mongoose/examples/complete/mjson.c:85-127 | What is accepted as a value is the spelling of a tree, which is built. |
| `MjsonGrammar.ValueNests` | components/mongoose/examples/complete/mjson.c:58-74 | A value closes what it opens. |
| `Timers.PhaseIsKept` | components/mongoose/src/timer.c:33-43 | Polled at least once a period, a repeating timer has, m whole periods after its first poll, fired m times and is next due m + 1 periods after that poll, if that time fits 32 bits (a longer one cannot be stored). |
| `Timers.StaysCloseToTheClock` | components/mongoose/src/timer.c:33-43 | However the polls come, as long as time goes forward: now <= expire <= now + period after each. |
| `Timers.NoDrift` | components/mongoose/src/timer.c:33-43 | For a new or running timer: one poll leaves now <= expire <= now + period if and only if the next expiration time fits 32 bits. |
| `Timers.SetsAheadExactlyBeforeWrap` | components/mongoose/src/timer.c:35-36 | A timer that is not set yet is set into the future if and only if now + period does not exceed 32 bits. |
| `Timers.FiresInEveryPollBeforeTheWrap` | components/mongoose/src/timer.c:33-43 | From the poll in which its next expiration time does not fit 32 bits a timer, new or running, fires in every poll until the clock has wrapped. |
| `Timers.OneShotsFireOnce` | components/mongoose/src/timer.c:23-44 | In every run of starts, frees and polls, clock going back included: starts of a one-shot timer = callbacks + timers still listed + timers freed. |
| `Timers.RepeatingTimersRunTheirCourse` | components/mongoose/src/timer.c:23-44 | A repeating timer, whatever its expiration time, fires and is rescheduled as if it were alone on the list. |
| `Timers.ClockBackSetsAnew` | components/mongoose/src/timer.c:27-29 | When the clock has gone back every timer, whenever it was due, is put off to one period from now, and no callback comes if and only if all these times fit 32 bits. |
| `Timers.TimerList.Init` | components/mongoose/src/timer.c:9-15 | Pushed in front, not yet set, callback at once if asked for. |
| `Timers.TimerList.Free` | components/mongoose/src/timer.c:17-21 | Unlinks exactly this timer, if it is listed. |
| `Timers.TimerList.Poll` | components/mongoose/src/timer.c:23-44 | On the linked list, with unlinking during the walk: callbacks in list order, one-shots gone, all others in order with their new times; all set anew when the clock has gone back. |
| `Base64.RoundTrip` | components/mongoose/src/base64.c:33-83 | Decoding undoes encoding for every byte string. |
| `Base64.UngroupGroup` | components/mongoose/src/base64.c:3-31 | A group of four letters gives back its octets, whole or cut short by padding. |
| `Base64.StreamedSnoc` | components/mongoose/src/base64.c:33-47 | Feeding one more octet changes the letters and the held bits as if all had been encoded at once. |
| `Base64.StreamedFinishes` | components/mongoose/src/base64.c:49-58 | Padding what is held gives the encoding. |
| `Base64.Update` | components/mongoose/src/base64.c:33-47 | In the buffer: finished letters, and the bits of the unfinished sextet behind them; nothing further is touched. |
| `Base64.Final` | components/mongoose/src/base64.c:49-58 | The encoding of everything fed, padded and terminated. |
| `Base64.EncodeInto` | components/mongoose/src/base64.c:60-65 | Feeding octet by octet equals one-shot encoding, of length 4 * ceil(n / 3). |
| `Base64.DecodeInto` | components/mongoose/src/base64.c:67-83 | Decodes everything, or nothing when any group is bad; a rest of less than a group is ignored. |
| `Base64.BadGroupSpoils` | components/mongoose/src/base64.c:70-73 | One bad group anywhere spoils the whole. |
| `Base64Letters.LettersInOrder` | components/mongoose/src/base64.c:33-65 | The k-th three octets stand as the k-th four letters, with padding for octets that are missing at the end. |
| `Base64Letters.GroupIsBigEndian` | components/mongoose/src/base64.c:33-47 | The six bits of each letter in order, highest first, are the eight bits of each octet in order. |
| `Base64Letters.LettersAreTheAlphabet` | components/mongoose/src/base64.c:3-13 | The alphabet of section 4 of RFC 4648. |
| `Base64Letters.NothingElseIsRead` | components/mongoose/src/base64.c:15-31 | No octet outside it is read as a sextet, and only the equals sign as padding. |
| `DnsPointers.FivePointersAreFollowed` | components/mongoose/src/dns.c:33-68 | A name behind any number of compression pointers, each leading to labels: with at most five it is read, taking what stands up to the first pointer, with more it is refused; the text is that of the last piece only. |
| `DnsPointers.ReadWholeExactly` | components/mongoose/src/dns.c:43-50 | So a compressed name is read as section 4.1.4 of RFC 1035 means it if and only if nothing but one pointer stands in front of the last piece. |
| `DnsPointers.PointerAway` | components/mongoose/src/dns.c:43-50 | A pointer to a pointer, or out of the message, ends the name with the labels in front of it. |
| `DnsPointers.QuestionAsks` | components/mongoose/src/dns.c:192-215 | A query asks for type 1 or 28, by family, in class 1. |
| `Dns.QueryNameRoundTrip` | components/mongoose/src/dns.c:33-68 | The name of a query, anything before and behind it, is read back verbatim with consumed length L + 2 if and only if it has at most 250 octets and every label has 1 to 63. |
| `Dns.CutNamesAreShort` | components/mongoose/src/dns.c:192-215 | Of a longer name at most 252 octets are sent and read. |
| `Dns.LabelsAreRead` | components/mongoose/src/dns.c:33-68 | The same from any label on, whatever the depth of compression. |
| `Dns.ReadName` | components/mongoose/src/dns.c:33-68 | A name never takes octets from beyond the message, compression pointers included, and the reading terminates. |
| `Dns.WriteQuestion` | components/mongoose/src/dns.c:192-215 | Name, zero, type and class, in place in the 256-byte buffer; labels that would end beyond 250 octets are dropped. |
| `Dns.ParseName` | components/mongoose/src/dns.c:33-68 | The recursive reader writes only into its output, which holds the text, terminated, whenever it fits, and ends in a zero whenever a name was read. |

## Left out

- Drivers and platform: ESP-IDF, GATT and GAP stacks, NVS, flash, UART, WiFi, tasks and hardware timers are events of the scheduler; its handlers are atomic steps.
- Eq3Hub.EventHub.HandleRequest: takes the parsed request; the parser of the text (with its floating point) is not modelled, nor is a failing `malloc`, which the source does not handle. No client can ask for EQ3_ECO, which `setup_command` has no case for.
- Eq3Hub.EventHub.GattEvent: attribute counts and handles of the service discovery are reduced to whether the characteristics were found, because nothing but that reaches the scheduler.
- Liveness: that a command is eventually sent depends on the valves and the BLE stack; what is proved is exactly when the hub moves on by itself.
- Event handlers of an application do not touch the receive buffer, do not stop the JSON tokenizer, and do not start or free timers during a poll.
- Running out of memory in `mg_send`, `mg_ws_wrap` and when bytes are received; `IoBuf.Buffer.Add` models it for the buffer itself.
- The WebSocket handshake; the bytes of a pong (an event says that it is owed).
- `Overrun` in `WsStream` stands for what the source does with a final continuation frame that has no data when nothing was gathered: a message whose length wraps around.
- MQTT: the topic list of a received SUBSCRIBE.
- HTTP: `mg_http_parse` is a parameter from a complete head to whether the body is chunked and how long it is; a length that overflows `size_t` when the head is added, `mg_http_delete_chunk`, and the delivery of what is there when the connection closes.
- Wildcards: for patterns with several stars and a `?` behind one of them, and for those with a star between two `#`, there are conditions in one direction only (`GlobStars.StarsStopAtSlashes`, `GlobPatterns.NeverRightWithAnyBetweenStars`); all others are decided exactly.
- SHA-1 rounds, MD5, TLS, sockets, files, logging, the web interface, DNS answers, JSON look-up and number conversion.
- IoBuf.Buffer.Add: at an offset beyond the contents the block must already have room for the data; the source leaves that to its callers.
- WsFrames.WsSend: lengths below 2^32, the size of `size_t` on the hub; of a 64-bit length only the low word is kept when it is read.
- Mqtt.PublishRoundTrip: topic lengths and ids below 2^16, the size of their fields.
- HttpChunks.ChunkedMessageIsDeliveredOnce: chunks are not empty (an empty one ends the body) and their sizes stay 15 below 2^32, so that the size arithmetic does not wrap.
- Mjson.Tokenize: `strtod` is taken not to read beyond the text.
- Dns.ParseName: of an output the text does not fit into only the terminator is promised.
- Sha1.HmacSha1: for any compression function; that this one is SHA-1's is not modelled.
