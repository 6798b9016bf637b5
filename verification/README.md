# The SMS-to-SIP emergency gateway, modelled in Dafny

The gateway takes short messages from an SMSC over SMPP 3.4, looks up the sender's position over HTTP, and passes text and
position on to an emergency server in the multipart body of a SIP INVITE. This project models its five parts that carry
state or formats, in the form the C++ source has them (classes with fields updated in place, loops, gotos), proves each
operation against a specification function, and proves properties of those functions over all inputs, and over all runs of
step systems in which every operation on shared state is one step and steps of different threads interleave freely.

| modules | part | source |
|---|---|---|
| `Pdu`, `Deliver`, `Engine` | the request/response engine: requesters and the receiver over a byte stream, the request store and the request cells | `sms112_smpp.cpp`, `sms112_stor.cpp`, `sms112_tcp.cpp`, `sms112_smpp_cmd.cpp` |
| `Accounting`, `Framing`, `Traces`, `Correlation`, `Matching`, `Exits`, `Paths`, `Stale` | invariants and results over all runs of the engine, and runs built to show what fails | |
| `Handler`, `Gateway` | one call of the handler as a function of the world it finds, and calls in a row; the same operations as methods on one mutable object, composed into the handler and the poll loop; calls of the handler are runs of the step system | |
| `Supervisor` | the goto-structured loop that keeps the connection up | `sms112_smpp_thread.cpp` |
| `SipSync` | the table of semaphore and result per Call-ID | `sms112_sip.cpp` |
| `Multipart`, `MultipartReader` | the body printer, against a reader of section 5.1.1 of RFC 2046 | `sms112_sip.cpp` |
| `Json`, `JsonObject` | in-place escaping and the object printer, against a reader of sections 4, 6 and 7 of RFC 8259 | `sms112_json.cpp` |
| `Geodata`, `Iconv`, `Text`, `Errno` | extraction of the position document, the UCS-2BE to UTF-8 conversion (section 3 of RFC 3629) and its buffer, string search | `sms112_geodata.cpp`, `sms112_iconv.cpp` |

`dafny verify dfyconfig.toml` checks everything.

## What the code does not meet

Properties one would expect of the gateway that fail, each stated exactly:

- Correlation needs that no new request takes an address at which the store or the receiver still points (`NoReuse` in
  `Correlation`). It holds by itself while no send fails and no wait times out. Otherwise the exits at lines 32-37 and 43-53
  of `sms112_smpp.cpp` leave the key in the store (`DepartedKeys`), or leave while the receiver is at work on the request.
  `ReuseMisleads` completes a new request with another's response from every state where the store points at an address that
  is free again and that response comes next, `HeldMisleads` from every state where the receiver holds such an address;
  `TimeoutBreaksCorrelation` and `TimeoutWhileHeld` build such runs from the start, for every response.
- `sms112_smpp_send` returns 0 without data, as long as no pointed-at address is taken, exactly after a recv that came short or
  a header that announced nothing (`EmptySuccess`), and does so for every response and every shorter recv
  (`ShortRecvSucceeds`); where an address is taken, it can also do so without any recv of its own (`HeldMisleads`). A short
  recv also costs the receiver its place in the stream, exactly when it took something: `ShortRecvLosesFrame`.
- A failed recv counts as full when 0xFFFFFFFF bytes were announced, since line 102 of `sms112_tcp.cpp` compares an int with
  a uint32_t. The request then succeeds with length -1 and an empty buffer (`FailedRecvSucceeds`). In every other success
  with data, as long as no pointed-at address is taken, the buffer holds all that was announced (`ResponseIsOwn`).
- The stream stops for good exactly before a request longer than 1024 bytes and before a header that announces 0 bytes
  (`HeadMoves`). Before the former the receiver does nothing any more, and before a response with an unregistered key nothing
  until somebody registers it (`Blocked`). A header of 0 bytes is received in full each time without moving
  (`HandlerMoves`): a request is dispatched anew by every call, so that an UNBIND keeps lowering the SMPP flag
  (`EmptyRequestRepeats`), and a registered response is posted once before it blocks.
- The supervisor does not recover from a session that is bound behind a lowered SMPP flag, which a late BIND response is
  enough to bring about (`LateBindResponse`), nor from one that is open behind two raised flags if the server confirms links
  of unbound sessions. `Converges` shows that these are all.
- `sms112_tcp_connect` reports a refused connect as success when the socket can be made non-blocking (line 46 of
  `sms112_tcp.cpp` overwrites line 42): `RefusedConnect`.
- A call whose result was read returns 0 without a success response to its INVITE before the read exactly when there was none
  and the last response with a code before the read was to a BYE (`OutcomeExact`). Every call that waits unanswered can be
  brought there by one BYE response (`ByeMisleads`), `UnsolicitedBye` being the shortest run. It does not happen when BYE
  responses come only for BYEs sent (`OutcomeSound`).
- The multipart body does not read back when a line of the position document or of the text begins with the dash-boundary
  (`RoundTrip`), and does not fit its 4096-byte buffer when boundary, document and text are too long (`BodyFits`).
- The JSON object does not read back when a name holds a quote, a backslash or a control character, a quoted value a control
  character the table lacks, or an unquoted value no number, the missing one included (`ObjectRoundTrip`).
- The converted text of an empty message has no room for the terminator (`Fits`), and a text that iconv left unfinished is
  handed on without one (`TextToPrint`).

The comment at `sms112_smpp.cpp` line 80 speaks of storing the request where the code stores the response; the code is
followed.

## Model

| member | source | states |
|---|---|---|
| Accounting.RequestsAccounted | src/sms112_smpp.cpp:25-92 | in every run accepted requests split disjointly into those in the store, under their own key, and those handed out; each is handed, filled and posted at most once and in one order, with at most one on its way |
| Accounting.StepKeepsBase | src/sms112_smpp.cpp:20-155 | every step of every thread keeps the accounting, the tiling of the consumed stream by the pieces read, and the receipts, with no hypothesis on schedule, stream or addresses |
| Accounting.RunBase | src/sms112_smpp.cpp:20-155 | so all of that holds in every state of every run |
| Accounting.TakeKeeps | src/sms112_stor.cpp:23-37 | removing an entry hands its owner out for the first and only time |
| Correlation.StepKeepsCorrelated | src/sms112_smpp.cpp:20-95 | while no new request takes an address still pointed at, every step keeps that a live request is alone at its address, that its cell, or what it returned with, is what its one receipt says, and that its semaphore is up exactly from its post until its wake-up |
| Correlation.CheckCorrelated | src/sms112_smpp.cpp:43-53 | what a requester leaves with: data exactly of a full recv made for it, success without data only after a recv that came short or a header of length zero, failure otherwise |
| Matching.RunCorrelated | src/sms112_smpp.cpp:20-95 | the correlation invariant over all such runs |
| Matching.ResponseIsOwn | src/sms112_smpp.cpp:20-95 | whatever the framing, while no pointed-at address is taken: a successful requester has the length announced by a response header in the stream with its own sequence number, and the buffer is the stretch of that length behind it if and only if recv did not fail; if it failed, 0xFFFFFFFF bytes were announced and the buffer is empty |
| Matching.ResponsePdu | src/sms112_smpp.cpp:20-95 | the same over truthful PDUs and full recvs: the buffer is exactly one of the PDUs the server sent, with the bytes of a response to this key |
| Matching.ResponsesApart | src/sms112_smpp.cpp:72-95 | two successful requesters of such a run never share a PDU |
| Matching.CleanRunsCorrelate | src/sms112_smpp.cpp:20-95 | correlation (section 5.1.4 of SMPP 3.4): where no send fails and no wait times out, with no hypothesis on addresses, every return of 0 comes with exactly one inbound PDU whose octets say that it is a response (top bit of octet 4), with the request's own sequence_number (octets 12-15) and its length (octets 0-3), which is the data length as an int |
| Pdu.HeaderIsPut | src/sms112_smpp.cpp:65-70 | the header decoded at a place is h if and only if the sixteen octets of h, most significant first and in the order of section 3.2 of SMPP 3.4, stand there |
| Pdu.HeaderRoundTrip | src/sms112_smpp.cpp:142-144 | decoding an encoded header gives it back, whatever follows it |
| Pdu.ResponseBit | src/sms112_smpp.cpp:146 | a header is a response if and only if the first bit of its fifth octet is set |
| Pdu.IntOfLength | src/sms112_smpp.cpp:85 | a length below 2^31 is stored as it is, and any other 2^32 less |
| Matching.EmptySuccess | src/sms112_smpp.cpp:43-51 | while no pointed-at address is taken: a success has length 0 if and only if its recv did not count as full or the header announced 0 bytes |
| Exits.RunExits | src/sms112_smpp.cpp:25-53 | in every run: who left by a failed send left with the errno of its own send, who left by a failed wait with the code of its own wait and without data, who was turned away with EEXIST; a success without data was woken by its semaphore |
| Exits.WakesWhenPosted | src/sms112_smpp.cpp:43-89 | while no pointed-at address is taken, a waiting requester can get its semaphore if and only if it has been posted |
| Exits.RunFlags | src/sms112_smpp_cmd.cpp:379 | in every run the SMPP flag is up if and only if it was and no UNBIND was operated, unpacked or not; the TCP flag if and only if it was, no requester's send came short (line 85 of sms112_tcp.cpp) and no answer was lost |
| Matching.DepartedKeys | src/sms112_smpp.cpp:32-53 | while no pointed-at address is taken: the key of a request that has gone is in the store if and only if it left by a failed send or wait and was not handed out |
| Stale.ReuseMisleads | src/sms112_smpp.cpp:43-53 | from every state where the store points at an address a new request may take and the response to that key comes next whole, a request under another key at that address succeeds with that response |
| Stale.HeldMisleads | src/sms112_smpp.cpp:78-89 | the same where the receiver holds the address, whatever is in the store: with the response if it is still to be read, with its length and no buffer once it was read, with neither if only the post is left |
| Stale.TimeoutBreaksCorrelation | src/sms112_smpp.cpp:43-53 | for every response PDU and every other key there is a run from the start in which, after one timeout, that key's request succeeds with the PDU |
| Stale.TimeoutWhileHeld | src/sms112_smpp.cpp:43-89 | also when the store is empty at the moment the address is taken again |
| Stale.AnsweredAnyhow | src/sms112_smpp.cpp:20-95 | for every response header and every outcome of recv there is a run without failed send or wait that ends in success with exactly what recv took, and with the announced length if that counted as full |
| Stale.ShortRecvSucceeds | src/sms112_smpp.cpp:83-89 | for every response PDU and every shorter recv, success with length 0 |
| Stale.FailedRecvSucceeds | src/sms112_tcp.cpp:101-108 | for every response header that announces 0xFFFFFFFF bytes, a failed recv makes its request succeed with length -1 and an empty buffer |
| Stale.Blocked | src/sms112_smpp.cpp:72-106 | before a request over 1024 bytes nothing is consumed, dispatched or taken from the store by any further steps of anyone; before a response with an unregistered key neither, as long as nobody registers that key |
| Stale.EmptyBlocks | src/sms112_tcp.cpp:96-111 | before a header that announces 0 bytes the position never changes again, whoever does what |
| Stale.HeadMoves | src/sms112_smpp.cpp:72-128 | head of line, exactly: in every reachable state with the receiver at rest before a header, some steps can still move the position if and only if the header announces more than 0 bytes and is not a request of more than 1024 |
| Stale.Unblocked | src/sms112_smpp.cpp:78-95 | once the key is registered the receiver alone serves the response into the cell of whoever registered it and moves on by what recv took |
| Paths.Serve | src/sms112_smpp.cpp:78-89 | serving a registered response, whatever recv returns: exactly what it took, the length if that counted as full, and the post reach the cell the entry points at; nothing else changes but key and position |
| Framing.RunFramed | src/sms112_smpp.cpp:72-155 | framing (section 3.2 of SMPP 3.4): over truthful PDUs and full recvs the pieces read are after any number of steps exactly the first PDUs sent, none skipped or repeated, and the position is the boundary behind them |
| Framing.ShortRecvLosesFrame | src/sms112_tcp.cpp:96-111 | a recv from a boundary ends on a boundary if and only if it was full or took nothing |
| Framing.RunDispatched | src/sms112_smpp.cpp:78-127 | requests operated are exactly the request PDUs among those read, in order; cells filled belong one by one to the requests the response PDUs among them name |
| Traces.RunAnswers | src/sms112_smpp_cmd.cpp:334-356 | everything sent to the server is the answer to a request operated at the same place in the order; nothing else is |
| Traces.DeliverTrace | src/sms112_smpp_cmd.cpp:212-356 | the DELIVER_SM_RESPs sent are exactly one per operated DELIVER_SM that unpacks and has data coding 0 or 8, in order, with the same 32-bit sequence number, whatever conversion, geodata and SIP came to |
| Traces.PduTrace | src/sms112_smpp.cpp:97-155 | down to the PDUs: of those the server sent the first k were read, of the requests among these all but one in hand were operated, and the DELIVER_SM_RESPs sent are in order exactly those due to the DELIVER_SM PDUs among them that unpack and have a supported coding |
| Traces.RunOwnHeaders | src/sms112_smpp.cpp:97-125 | in every run a request is dispatched on the command_id of the very bytes it was received in, whenever these hold a header |
| Traces.ReportTrace | src/sms112_smpp_cmd.cpp:288-331 | exactly one report for each of the same messages, in order: OK exactly when the page held a document and the SIP call returned 0, the SIP error when it did not, no geodata otherwise; with the document from the first opening through the first closing tag behind it; with the message's own text for coding 0, and for coding 8 one that reads back as the UCS-2BE source as far as iconv came |
| Traces.PayloadIsFirst | src/sms112_smpp_cmd.cpp:247-260 | the payload taken is that of the first parameter with tag 0x0424, and none exactly when there is no such parameter |
| Gateway.Gateway.SmppHandler | src/sms112_smpp.cpp:130-155 | one call leaves the state the handler function gives, and returns 0 exactly when a header was there that can be served and its recv counted as full |
| Handler.HandleIsPath | src/sms112_smpp.cpp:130-155 | that function is a path of the step system |
| Handler.CallsAreRun | src/sms112_smpp_thread.cpp:67-77 | any number of calls in a row is a run from the start, so every result over runs holds of it |
| Handler.CallsFramed | src/sms112_smpp.cpp:130-155 | from any boundary and with any requests registered, over truthful PDUs and full recvs, any number of calls reads exactly as many of the next PDUs as there were calls that could serve what they saw, and ends on the boundary behind them |
| Handler.CallsBlocked | src/sms112_smpp.cpp:78-106 | before a header that cannot be served no number of calls changes anything |
| Gateway.Gateway.MsgReceiver | src/sms112_smpp_thread.cpp:61-80 | the poll loop makes exactly the calls of the handler its script asks for |
| Handler.CalledAre | src/sms112_smpp_thread.cpp:67-77 | which are one for every turn before the first that is stopped on which poll reports POLLIN alone, each in its place |
| Handler.HandlerReads | src/sms112_smpp.cpp:78-106 | a call reads one piece, which may be empty, exactly when the header is a response with a registered key or a request of at most 1024 bytes; every other call changes nothing |
| Handler.HandlerMoves | src/sms112_smpp.cpp:78-111 | a call moves the position if and only if it reads and recv takes something, which it never does when 0 bytes were announced |
| Handler.EmptyRequestRepeats | src/sms112_smpp.cpp:97-125 | before a request that announces 0 bytes every call whose recv does not fail dispatches it once more and stays before it; an UNBIND lowers the SMPP flag each time |
| Handler.CallsRepeat | src/sms112_smpp.cpp:97-155 | so n such calls in a row dispatch it n times |
| Gateway.Gateway.OperResp | src/sms112_smpp.cpp:72-95 | either the registered request is served or only the lookup failed; 0 exactly for a known key and a recv that counted as full |
| Gateway.Gateway.OperReq | src/sms112_smpp.cpp:97-128 | the code tells whether the request was read, and nothing of what became of it |
| Gateway.Gateway.SmppSendTransmit | src/sms112_smpp.cpp:32-37 | a partial send that leaves errno 0 goes on to wait; any other failure leaves with its errno, and both take the TCP flag down |
| Gateway.Gateway.SmppSendWait | src/sms112_smpp.cpp:43 | only a successful wait takes the semaphore; the store is untouched either way |
| Gateway.Gateway.SmppSendCheck | src/sms112_smpp.cpp:44-53 | a filled cell is success however the wait ended, an empty one gives the code of the wait; the store is untouched |
| Gateway.Gateway.ReqStorAdd | src/sms112_stor.cpp:9-21 | an existing key keeps its entry and the caller gets EEXIST; the new cell is empty, without data and not posted |
| Gateway.Gateway.ReqStorGetAndRem | src/sms112_stor.cpp:23-37 | the entry found is the one removed; an unknown key changes nothing |
| Gateway.Gateway.TcpRecv | src/sms112_tcp.cpp:96-111 | 0 exactly for a recv of all that was asked for, or a failed one when 0xFFFFFFFF bytes were; what came is gone from the stream also when the code is not 0 |
| Gateway.Gateway.SmppGetSeqNum | src/sms112_smpp.cpp:157-160 | successive 32-bit numbers that wrap around |
| Gateway.Gateway.FindPayload | src/sms112_smpp_cmd.cpp:247-260 | the walk stops at the first message_payload with its value, and finds none only if there is none |
| Gateway.Gateway.TextToPrint | src/sms112_smpp_cmd.cpp:235-286 | the text by coding and source, whatever iconv left of it if it did not fail, and an unsupported coding refused; it is terminated, inside the buffer, exactly when it was copied, or converted whole, reversibly and not from an empty one |
| Gateway.Gateway.DeliverSmOper | src/sms112_smpp_cmd.cpp:212-371 | a message that does not unpack or has an unsupported coding changes nothing; any other adds one report that tells what came of it, and its answer with the full sequence number if it could be packed and sent; a lost answer lowers the TCP flag, nothing else does |
| Gateway.Gateway.UnbindOper | src/sms112_smpp_cmd.cpp:373-419 | the SMPP flag is down afterwards whatever became of the request; the answer carries the full sequence number, and a lost one lowers the TCP flag |
| Supervisor.Connection.Pass | src/sms112_smpp_thread.cpp:30-55 | the goto-structured body, jump by jump, refines the four-case tick |
| Supervisor.PassLeaves | src/sms112_smpp_thread.cpp:30-55 | flags, socket and session after a pass, for every state and every world: after a failed link check the SMPP flag is up only if a reconnect was reported and its BIND accepted, and the TCP flag only if the BIND was sent, or, where the connect failed, if neither UNBIND nor link check came short nor the close succeeded |
| Supervisor.Connection.DoSmppPing | src/sms112_smpp_thread.cpp:25-56 | the thread makes one tick per timed-out wait until the stop flag or the post is seen |
| Supervisor.PassesAre | src/sms112_smpp_thread.cpp:25-29 | the passes made are one for every timed-out wait up to the first turn that is stopped or ends otherwise |
| Supervisor.Connection.TcpConnect | src/sms112_tcp.cpp:18-57 | success is reported exactly when socket and fcntl succeed, whatever connect returned; the flag goes up with it and never down |
| Supervisor.Connection.TcpDisconn | src/sms112_tcp.cpp:59-71 | the flag goes down only if a socket is open and close succeeds |
| Supervisor.Connection.SmppConnect | src/sms112_smpp_cmd.cpp:75-84 | the SMPP flag goes up on success and is left alone on failure |
| Supervisor.Connection.SmppDisconn | src/sms112_smpp_cmd.cpp:87-149 | the SMPP flag is down afterwards whatever comes of the UNBIND; the TCP flag falls if it came short |
| Supervisor.TickEvents | src/sms112_smpp_thread.cpp:30-55 | ENQUIRE_LINK exactly when both flags read true; every connect reported as success is followed at once by exactly one BIND, the last event of the pass; a failed one ends the pass |
| Supervisor.DeadlineDrift | src/sms112_smpp_thread.cpp:23-56 | after n ticks the deadline is start + span * (n - ticks ended by a failed connect) |
| Supervisor.Converges | src/sms112_smpp_thread.cpp:25-56 | from any flags, socket and session, in a world that behaves, the connection is up and really bound from the second tick on, for ever, if and only if the first state was not one of the two stuck kinds, which are never left |
| Supervisor.TickKeeps | src/sms112_smpp_thread.cpp:25-56 | one tick keeps being up, being stuck, and not being stuck |
| Supervisor.TickProgress | src/sms112_smpp_thread.cpp:30-55 | one tick brings every state that is not stuck up, but for the TCP flag alone over a dead connection, which it takes down |
| Supervisor.SecondPassNeeded | src/sms112_smpp_thread.cpp:52-55 | that exception is exactly where two ticks are needed |
| Supervisor.LateBindResponse | src/sms112_smpp_cmd.cpp:43-84 | a BIND the server accepted but whose response came too late ends in the stuck state, and only that does |
| Supervisor.RefusedConnect | src/sms112_tcp.cpp:38-54 | a refused connect ends the pass with the TCP flag down again, and counts as a whole pass for the deadline |
| SipSync.SyncTable.SyncInit | src/sms112_sip.cpp:572-588 | an existing entry is not replaced; an empty Call-ID makes none |
| SipSync.SyncTable.SyncUlck | src/sms112_sip.cpp:624-642 | result and post reach the entry of this Call-ID and no other; without an entry nothing happens |
| SipSync.SyncTable.SyncDel | src/sms112_sip.cpp:644-663 | the entry of this Call-ID and no other is gone |
| SipSync.SyncTable.SyncLockWait | src/sms112_sip.cpp:590-610 | a lock is had only on a posted entry and takes the post; all other ways give -1 or the error of the lock |
| SipSync.SyncTable.SyncLock | src/sms112_sip.cpp:590-622 | the result read is that of the last effective response, also one processed after the wait ended; without a lock -1 or its error; no other entry is touched |
| SipSync.SyncTable.OnRxResponse | src/sms112_sip.cpp:200-260 | a success to the INVITE gives the waiting call 0 and is answered by ACK and then BYE; another final response to it but 401 and 407 gives its status, any to a BYE gives 0, all others change nothing; no other call's entry is touched |
| SipSync.SyncTable.SipSendReq | src/sms112_sip.cpp:395-401 | one call, with any responses before the wait ends and any between wait and read: it returns -1, the lock's error, or what the last response that is not ignored means, and leaves the table as it was |
| SipSync.StepKeepsInv | src/sms112_sip.cpp:572-663 | for any number of interleaved calls every step keeps that each entry's result is the code of the last effective response processed for it, and is posted only if there was one |
| SipSync.Isolation | src/sms112_sip.cpp:200-260 | a step of one call changes neither entry nor history of another |
| SipSync.TableExact | src/sms112_sip.cpp:395-401 | the table's keys are exactly the calls between sync_init and sync_del |
| SipSync.ResponseReachesEntry | src/sms112_sip.cpp:200-260 | a response between the INVITE and sync_del never misses its entry; a later one changes nothing |
| SipSync.Returned | src/sms112_sip.cpp:590-622 | after a successful lock the call returns the code of the last effective response processed before the read, never the initial -1; otherwise -1 or a lock error |
| SipSync.RunEndedBy | src/sms112_sip.cpp:590-622 | in every run a call that got no lock returns the error its own timed lock ended with, or -1 when it had no Call-ID or no deadline; a call that read its result had got its lock |
| SipSync.ByesFollowSuccess | src/sms112_sip.cpp:219-241 | if BYE responses come only for BYEs sent (section 17.1.3 of RFC 3261), each one in a call's log has a success response to its INVITE before it |
| SipSync.OutcomeSound | src/sms112_sip.cpp:341-405 | then 0 is returned only if a 2xx to this call's INVITE was processed before the result was read, and a status of 300 or more only if an INVITE response of this call processed before the read carried it, neither 401 nor 407 |
| SipSync.OutcomeExact | src/sms112_sip.cpp:341-405 | with no hypothesis on BYE responses: a call whose result was read returns 0 without a 2xx to its INVITE before the read if and only if there was none and the last response with a code before the read was to a BYE |
| SipSync.ResponseDecides | src/sms112_sip.cpp:219-241 | from responses to result: when the last one processed before the read that is not provisional, a challenge or to another method was a success to the INVITE or any to a BYE, the call returns 0, and when it was another final one to the INVITE, its status |
| SipSync.SomethingDecided | src/sms112_sip.cpp:590-622 | every call whose result was read had such a response |
| SipSync.LockWhenDecided | src/sms112_sip.cpp:590-642 | a call that waits can get its lock if and only if such a response was processed for it |
| SipSync.ByeMisleads | src/sms112_sip.cpp:239-241 | from every state in which a call waits without a 2xx, one BYE response and the call's own steps make it return 0 |
| SipSync.UnsolicitedBye | src/sms112_sip.cpp:239-241 | such a run from the start, in which the BYE was never sent, for every Call-ID and every status |
| Multipart.MakeBody | src/sms112_sip.cpp:407-446 | the appends, in order, produce the encapsulation of three parts; a missing text prints as an empty one |
| MultipartReader.RoundTrip | src/sms112_sip.cpp:407-446 | reading the body by section 5.1.1 of RFC 2046 yields exactly the three parts, the second the XML declaration plus the document and the third exactly the text, if and only if no line of document or text begins with the dash-boundary; only a CR in the boundary is excluded |
| MultipartReader.TypesDelivered | src/sms112_sip.cpp:413-439 | the parts delivered are headed application/sdp, application/pidf+xml and text/plain with UTF-8, in this order |
| MultipartReader.DelimiterFound | src/sms112_sip.cpp:433-445 | CRLF--B cannot overlap itself: it is found where it was printed if and only if none lies before |
| MultipartReader.PlainLinesFirst | src/sms112_sip.cpp:413-439 | the constant lines before a text neither make nor hide a boundary line, the text's first line included |
| MultipartReader.ReadClean | src/sms112_sip.cpp:407-446 | any list of parts without a delimiter reads back as itself |
| MultipartReader.ReadDirty | src/sms112_sip.cpp:407-446 | a list whose first part with a delimiter has content never reads back as itself |
| MultipartReader.BodyFits | src/sms112_sip.cpp:507-509 | body and terminator fit the 4096 bytes if and only if 4 times the boundary plus document plus text take at most 3680 |
| MultipartReader.DocumentDelivered | src/sms112_smpp_cmd.cpp:293-295 | from page to receiver: extraction from the second part the reader delivers gives what extraction from the fetched page gave, and the third part is the text |
| Json.EscapeSpecSym | src/sms112_json.cpp:8-29 | the in-place loop ends, never looks at its own output again, and equals the character-by-character map |
| Json.EscapeAt | src/sms112_json.cpp:21-27 | one pass of the table search replaces one character and leaves the index on the last character written |
| Json.EscapeLength | src/sms112_json.cpp:20-28 | the result is longer by exactly the number of special characters |
| Json.EscapedNothingBare | src/sms112_json.cpp:10-28 | no form feed, line break or tab is left in the result, and every quote and slash in it follows a backslash |
| Json.ReadEscaped | src/sms112_json.cpp:8-29 | a reader of section 7 of RFC 8259 gives the text back and stops at the quote printed after it, for every text if lenient about control characters, and if strict exactly when the text has none below U+0020 but form feed, newline, carriage return and tab |
| Json.EscapeInjective | src/sms112_json.cpp:8-29 | different texts escape differently |
| Json.ScanStopsAtQuote | src/sms112_json.cpp:8-29 | a scan for the first quote no backslash takes away stops exactly behind the escaped text, for every text |
| JsonObject.MakeJson | src/sms112_json.cpp:31-60 | the printing loop gives the comma-separated object of the first min(descriptors, parameters) fields |
| JsonObject.PrintField | src/sms112_json.cpp:44-57 | one field, with the value escaped in place in the scratch string and nothing for a null one |
| JsonObject.ObjectRoundTrip | src/sms112_json.cpp:31-60 | reading the output gives exactly min(descriptors, parameters) members in order with the original names and values, null quoted ones as empty, if and only if every printed name is free of quote, backslash and control characters, every quoted value printable and every unquoted one a number token |
| JsonObject.ReadPrintedMember | src/sms112_json.cpp:44-57 | the same for one member: kept exactly, or never read back as itself |
| JsonObject.ReadOtherName | src/sms112_json.cpp:44-46 | a name printed unescaped that holds a quote, backslash or control character is never read back as itself, whatever follows it |
| Geodata.Get | src/sms112_geodata.cpp:8-53 | success exactly when the request succeeded and the page has both tags in order, EINVAL for a missing caller or an overlong URL, the client's code if the request failed and -1 if a tag is missing; the output string is touched only on success |
| Geodata.ExtractBounds | src/sms112_geodata.cpp:33-39 | what is extracted begins at the first opening tag, ends with the first closing tag at or after it, and has at least 20 characters since the tags cannot overlap |
| Geodata.ExtractFails | src/sms112_geodata.cpp:33-49 | extraction fails if and only if no closing tag follows any opening tag |
| Geodata.ExtractIdempotent | src/sms112_geodata.cpp:33-39 | extracting from what was extracted changes nothing |
| Geodata.ExtractIgnoresTail | src/sms112_geodata.cpp:33-39 | text appended to the page does not change what is extracted |
| Iconv.ConvertText | src/sms112_iconv.cpp:5-61 | 0 exactly when iconv did not fail and either converted the whole text or was allowed not to, and either irreversibly nothing or was allowed to; the destination is set whenever iconv did not fail, to what it converted |
| Iconv.CallIconv | src/sms112_iconv.cpp:13-31 | the conversion never leaves the buffer of four bytes a source byte, and fails exactly for a half unit or a surrogate in what it reaches |
| Iconv.EncodeRoundTrip | src/sms112_iconv.cpp:26-31 | what it writes reads back, as well-formed UTF-8 in its shortest form, as the text that was sent |
| Iconv.ConversionKeepsText | src/sms112_iconv.cpp:19-31 | from end to end: a source converts if and only if it has no half unit and no surrogate octet, and the UTF-8 reader gives back the text of which the source is the big-endian two-octet form |
| Iconv.Fits | src/sms112_smpp_cmd.cpp:264-268 | the terminator written behind the text is inside the buffer if and only if the text is not empty |

## Left out

- Data races below one operation on shared state: a map operation, a flag access, a recv with its store into the cell, the operation of one request of the server, and the processing of one SIP response are single steps.
- Life of a request cell: it ends with the return of `sms112_smpp_send`, with what the cell holds at lines 44-53; a receiver that still holds the pointer may write to the address later, which the model shows, but not what the caller reads there afterwards.
- Gateway.Gateway.SmppSendTransmit: `sms112_smpp_send` is three methods, and `ReqStorAdd` before them, cut where other threads can come in between; their order is a matter of the phases of a request in the step system.
- Gateway.Gateway.TcpRecv: malloc is taken to succeed, and the bytes of a buffer that recv did not fill are not part of its content.
- Gateway.Gateway.TextToPrint: texts are byte strings, not cut at a first zero byte, and nothing is said of what follows an unterminated one; the source pointer no branch sets (a message without text and payload) is an input, `stray`.
- Multipart.MakeBody: the character buffer is a growing string; `MultipartReader.BodyFits` says exactly when the buffer would hold it.
- MultipartReader.RoundTrip: does not model a boundary with a carriage return, which RFC 2046 does not allow.
- JsonObject.ObjectRoundTrip: the reader knows neither white space, nested values, literals nor surrogate pairs, none of which is printed.
- Supervisor.Connection.SmppRequest: packing, sending, waiting and checking the response are one exchange with the server, whose outcome is an input; the waits inside it are what the engine's step system is about.
- Supervisor.Converges: the connection's own server closing it at any time, or the receiver thread lowering the SMPP flag on an UNBIND, count as a new first state.
- `libsmpp34`: packing and unpacking give an error code or a message; that an unpacked PDU holds at least a header is assumed, and the message_id the answer to DELIVER_SM leaves unset is not part of this model.
- PJSIP: dialogs, transactions, authentication retries, header construction and the remaining method handlers.
- Engine.DoOperate: the operation of one request of the server, from its dispatch over HTTP, SIP and the report to the answer, is one step, although requesters may lower the TCP flag meanwhile; within one connection both only ever lower it.
- Gateway.Gateway.MsgReceiver: a `sms112_tcp_peek` that fails is a call in which nothing arrived; the calls of one loop are taken in a row, the interleaving with requesters being what the step system is about.
- The HTTP client, the formatting of its URL and of the reports sent, deadlines (`sms112_make_timespec_timeout`), and what the reports look like.
- File descriptors lost when a connection is replaced, failing mutex initialisation, configuration, logging, signal handling, `sms112_xml.cpp`.
