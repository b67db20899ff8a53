# CaligoEngine: a verified model

CaligoEngine is a small web radio: an HTTP and an HTTPS server with CGI programs, a radio
broadcaster, a chat server that speaks XMPP, a WebSocket bridge between browser and chat server, and
the web page that uses them. This project models the parts of it that hold real state and proves what
they keep over all their runs. `dafny verify dfyconfig.toml` checks everything.

How the source's form is kept:

- Routines that change things step by step are methods with loops on arrays, linked nodes and
  objects. Each is proved equal to a function on values, and the properties are proved about these
  functions and about runs of them.
- Threads and peers are state machines whose events are the single steps of the programs. A run is any
  sequence of enabled events, so every interleaving is a run.
- What the kernel, the TLS layer, the disk and the network do is a parameter of each step: any number of
  bytes accepted, any error, any delay.

| files | what they model |
|---|---|
| `TlsStream`, `TlsClient`, `RangeBody` | the HTTPS server's pending-write buffer, static transfers, byte ranges |
| `RadioRing`, `RadioRuns`, `RadioThreads`, `RadioClients`, `RadioListeners`, `RadioStreams` | the broadcast ring, its threads, the senders' client lists, and what a listener reads |
| `Sha1`, `Sha1Example`, `Base64`, `Base64Routines`, `WebSocket`, `WebSocketRoutines` | the bridge's codec, and the web servers' Base64 decoder |
| `XmppSession`, `XmppHandshake`, `XmppTexts`, `XmppPage`, `XmppLogin` | the login handshake of chat server and page, and the join that ends it |
| `Muc`, `MucHistory`, `MucDelivery`, `MucRooms`, `XmppServer` | client table, rooms and delivery of the chat server |
| `TaskQueue`, `Ownership`, `RequestReader`, `Peers`, `PeerEvents` | hand-over of connections between event loop and workers, proxy peers |
| `Router`, `PostForward` | the route table, and forwarding of request bodies to CGI programs |
| `UrlDecode`, `ChunkedReply`, `Hexadecimal` | form decoding and chunked output |
| `Common` | octets, options, minimum, concatenation |

## Findings

Where a property that the design suggests does not hold of the code, the model keeps the code as it is
and the condition under which it does hold is proved exact.

- SHA-1 addresses its blocks with a 32-bit offset, so it meets FIPS 180-4 for inputs shorter than
  2^32 + 64 bytes and compresses other blocks beyond that (`Sha1.BlocksExactly`).
- The HTTPS body loop ignores the end of a range: it sends what it declares, and what was asked for,
  only if the range reaches the end of the file (`RangeBody.RequestedRange`).
- A sender that falls behind by a multiple of 64 broadcasts goes to sleep as if nothing had happened
  (`RadioRing.SleepsExactly`, `RadioRuns.LapHappens`).
- A listener that is registered before its sender looks for the first time, before the first broadcast,
  is sent an empty chunk, which ends its stream (`RadioStreams.ListenerReads`, `RadioStreams.EarlyListener`).
- The page sends what its user does also during the login, and some texts disturb it; which ones depends
  on what the page waits for. While it waits for the bind offer, a session request with "jid" in its id
  makes the page ready before the server is bound (`XmppTexts.TextsExactly`, `XmppTexts.HarmfulDisturbs`).
- Two chat connections whose descriptors are equal modulo 64 share a slot; the table is then no longer
  what the connections' histories say (`MucHistory.StepRefines`, `MucHistory.SharedSlot`).
- A room name of more than 63 characters in the room file can be stored twice
  (`MucRooms.LoadedDistinct`, `MucRooms.LoadRepeats`).
- A complete request that fills the 4095 usable bytes of the buffer is queued and freed
  (`Ownership.BoundIsExact`, `Ownership.FullRequestArrives`, `RequestReader.QueuedWhenComplete`).
- After handing a connection on, or freeing it, the event loop looks at its size once more; a worker may
  hold it by then (`Ownership.CheckAfterPop`, `Ownership.CheckAfterFree`). With short requests that look
  changes nothing (`Ownership.OneOwner`). The look is the owner's exactly if it comes after neither
  (`Ownership.LateLookExactly`).
- A worker of the plain server that fails to forward a request frees the upstream connection, which is
  already registered; if its event is waiting in the event loop's batch, that event points to a freed
  record (`PeerEvents.StaleEvent`). This is the only way (`PeerEvents.PlainEventsAreLive`), and it does
  not exist in the TLS server (`PeerEvents.TlsEventsAreLive`).
- An `AUTH` line in front of its route is ignored (`Router.EarlyAuthIsLost`).
- A NUL in the part of a request body that arrived with the header shifts what the CGI program reads
  (`PostForward.PrefixExactly`).
- An escape cut short by the end of a form value makes the decoder run past its end
  (`UrlDecode.StaysInside`).

## Model

| member | source | states |
|---|---|---|
| TlsStream.SendKeepsOrder | https/request_handler.c:63-122 | whatever TLS answers, a send leaves wire followed by pending as it was plus the buffer, or unchanged with code -1; the wire gains exactly what TLS has room for, and the code tells which |
| TlsStream.FlushKeepsOrder | https/server.c:54-110 | a flush never changes wire followed by pending, and moves their border by exactly what TLS has room for; code 0 exactly when nothing is left pending |
| TlsStream.DepositKeepsOrder | https/server.c:543-585 | the proxy step takes a whole received chunk or nothing, keeps the order, and puts on the wire what TLS has room for |
| TlsStream.ClosesExactly | https/server.c:592-627 | an EPOLLOUT step closes the connection exactly if TLS breaks under its flush or under the send of what it has read |
| TlsStream.StepKeepsOrder | https/server.c:592-627 | the same for every event, including a file read in an EPOLLOUT step |
| TlsStream.StreamIntegrity | https/request_handler.c:63-122 | for every sequence of events and TLS answers, wire followed by pending is what was there plus every accepted buffer in order, and the wire only grows |
| TlsStream.FlushesDrain | https/server.c:54-110 | however TLS splits them, flushes put as many pending bytes on the wire as there is room for in all, and none is left once there is room for every one |
| TlsStream.ServeOutput | https/request_handler.c:286-329 | after the header and the body loop, the output has gained header and file from the seek position to the read position; suspended exactly with a file and pending bytes, refused or aborted only when TLS breaks |
| TlsStream.DrainPrefix | https/server.c:592-627 | at every point of a resumed transfer, also after errors, the output is a prefix of header and rest of the file |
| TlsStream.DrainComplete | https/server.c:592-627 | once the EPOLLOUT steps have closed the file without a read error, the output holds all of its rest |
| TlsStream.StaticTransfer | https/request_handler.c:251-330 | the whole transfer under any suspensions and resumptions: output is header and file up to the read position; closed and drained, the wire is header and the whole rest |
| TlsStream.DrainEnds | https/server.c:592-627 | as many EPOLLOUT steps as bytes can still need, in which TLS takes something and nothing fails, close the file and leave nothing pending |
| TlsStream.TransferEnds | https/request_handler.c:251-330 | so a transfer, wherever it was suspended, ends with header and the whole rest of the file on the wire |
| TlsClient.ClientState.Send | https/request_handler.c:63-122 | the routine on the record and its heap block does exactly the step: appends behind pending bytes or keeps what TLS refused; a block exists exactly when bytes are pending |
| TlsClient.ClientState.Flush | https/server.c:54-110 | the in-place shift of the pending block keeps the unsent bytes in order and frees the block exactly when it is empty |
| TlsClient.ClientState.Deposit | https/server.c:543-585 | the proxy step on the browser's record performs the deposit step |
| TlsClient.ClientState.Epollout | https/server.c:592-627 | the EPOLLOUT branch performs flush, at most one file read and send, and closes the file at its end |
| TlsClient.ClientState.ServeStatic | https/request_handler.c:286-329 | header and body loop on the record, for every TLS and disk behaviour, with status and read position |
| TlsClient.ClientState.ServeBody | https/request_handler.c:296-318 | the body loop alone, entered with nothing pending |
| RangeBody.SendBody | http/request_handler.c:230-246 | the plain HTTP loop sends an initial part of the requested bytes, and all of them if no read or send fails |
| RangeBody.HttpsTransferLength | https/request_handler.c:256-318 | a drained HTTPS transfer has the declared length exactly for the listed ranges |
| RangeBody.HttpDeclaredLength | http/request_handler.c:198-246 | a plain HTTP transfer has the declared length exactly for the listed ranges, with signed bounds and the conversion to size_t |
| RangeBody.RequestedRange | https/request_handler.c:297-318 | for a range inside the file plain HTTP sends exactly the requested bytes; HTTPS if and only if the range ends at the last byte |
| RadioRing.LookKeepsInv | radio_server.c:142-152 | a snapshot is always of a strictly newer broadcast than the sender's last one |
| RadioRing.StepKeepsInv | radio_server.c:112-152 | every step of broadcaster and senders, one byte of the copy at a time, keeps the ring invariant |
| RadioRing.RingIntact | radio_server.c:112-120 | in every reachable state the write index is the number of broadcasts modulo 64 and each of the last 64 chunks is whole in its slot with its size, except the slot being written |
| RadioRing.PassReadsSnapshot | radio_server.c:148-167 | a pass reads exactly the chunk of its snapshot if fewer than 64 broadcasts have begun since, and otherwise, outside a copy, another one |
| RadioRuns.WholePassReadsSnapshot | radio_server.c:148-203 | if fewer than 64 broadcasts have begun by the end of a pass, the sender's slot holds the chunk of its snapshot after every event between snapshot and end, whatever the interleaving |
| RadioRing.SnapshotsIncrease | radio_server.c:144-150 | the broadcast numbers of a sender's snapshots strictly increase |
| RadioRing.NoLostWakeup | radio_server.c:112-145 | a sender blocked although its index differs from the write index finds the broadcaster before its signal, and that signal wakes everybody |
| RadioRing.SleepsExactly | radio_server.c:144-146 | a sender goes to sleep exactly when it has a snapshot and the broadcasts since are a multiple of 64 |
| RadioRuns.LappedSenderSleeps | radio_server.c:114-145 | from every reachable state in which a served sender is about to look, at most 64 broadcasts put it to sleep although they wait for it |
| RadioRuns.LapHappens | radio_server.c:114-145 | a run in which sender 0 sleeps through 64 broadcasts |
| RadioRing.ZeroChunkOnlyFirst | radio_server.c:150-160 | the zero-length chunk is announced exactly by a snapshot taken before the first broadcast |
| RadioThreads.BroadcastRing.Publish | radio_server.c:112-120 | the critical section on the shared arrays is exactly the protocol's acquire, one copy step per byte, and release |
| RadioThreads.BroadcastRing.TakeSnapshot | radio_server.c:142-152 | the sender's critical section is the protocol's test: sleep, or take index and size |
| RadioClients.KeptPositions | radio_server.c:156-201 | the surviving clients are the increasing selection of exactly the positions that did not fail hard |
| RadioClients.SurvivorsExact | radio_server.c:174-200 | a client stays in the list if and only if some visit of it did not fail hard |
| RadioClients.SenderContext.Pass | radio_server.c:154-203 | the prev/curr loop over the linked list visits each node once, leaves a well-formed list of exactly the survivors in order, and marks exactly those served |
| RadioClients.SenderContext.Register | radio_server.c:398-403 | a new client becomes the head, the rest of the list is unchanged |
| RadioClients.SenderContext.Unlink | radio_server.c:180-185 | unlinking removes exactly one node and keeps the list linked |
| RadioListeners.AssignKeepsInv | radio_server.c:383-407 | handing a listener to the next thread keeps the lists disjoint and the counts balanced |
| RadioListeners.PassSplits | radio_server.c:174-200 | a pass leaves exactly the clients whose sends did not fail hard |
| RadioListeners.PassKeepsInv | radio_server.c:154-203 | a pass of one sender keeps them so |
| RadioListeners.ListenersPartitioned | radio_server.c:377-407 | over every run the twelve lists are disjoint, hold together exactly the registered listeners for whom no send failed hard, and no thread was ever given two more than another |
| RadioListeners.RadioMain.Accept | radio_server.c:377-407 | a listener whose header was sent goes to the head of the current list and the turn passes on; otherwise nothing changes |
| RadioListeners.RadioMain.PassOf | radio_server.c:154-203 | a pass changes its own list only |
| Sha1.RoutineMeetsStandard | bridge.c:40-209 | for inputs below 2^32 + 64 bytes the fold over the addressed blocks and the one or two tail blocks is the fold over the padded message of section 5.1.1 of FIPS 180-4 |
| Sha1.BlocksExactly | bridge.c:37-43 | the whole-block loop compresses the message's blocks for every message of a length if and only if the length is below 2^32 + 64 |
| Sha1.LongInputsDiffer | bridge.c:43 | beyond it, the block at 4 GiB is replaced by the first |
| Sha1.BlockLoopEnds | bridge.c:40-42 | the 32-bit counter of the block loop ever reaches the number of blocks if and only if the input is shorter than 2^38 bytes |
| Sha1.ChooseFK | bridge.c:56-69 | the four branches with their or-forms are the functions and constants of sections 4.1.1 and 4.2.1 |
| Sha1.Rotations | bridge.c:33 | the three rotations are those of the word |
| Sha1.ChChooses | bridge.c:57-60 | place by place Ch takes its second operand where the first is set and its third where it is not |
| Sha1.MajAgrees | bridge.c:64-66 | Maj takes what two of the three agree on |
| Sha1.ParityCounts | bridge.c:61-63 | Parity is the third where the first two agree, and its complement where they differ |
| Sha1.RootConstants | bridge.c:56-69 | the constants are the square roots of 2, 3, 5 and 10 in units of 2^-30, rounded down |
| Sha1.InitialDigits | bridge.c:36 | the octets of the five initial words |
| Sha1.Schedule | bridge.c:45-51 | the two loops fill the message schedule of section 6.1.2 |
| Sha1.RoundLoop | bridge.c:55-78 | eighty iterations with the five-variable rotation are the eighty rounds |
| Sha1.CompressBlock | bridge.c:45-84 | the block loop's body is the compression of one block |
| Sha1.CompressTail | bridge.c:87-209 | both sides of the split at 56 compress exactly the padded tail |
| Sha1.FillLength | bridge.c:156-160 | the last eight octets become the big-endian bit length |
| Sha1.Sha1 | bridge.c:35-217 | the routine is the digest of the fold over its blocks, and SHA-1 of the input below 2^32 + 64 bytes |
| Sha1Example.DigestOfAbc | bridge.c:35-217 | the standard's part gives the published digest of "abc", schedule and rounds computed word by word |
| Base64.DecodeEncode | bridge.c:219-249 | for every non-empty byte string the decoder undoes the encoder; the text is canonical, with pads exactly for the missing octets |
| Base64.EncodeDecode | http/request_handler.c:21-63 | encoding the decoding of a canonical text gives it back, so the two are inverse bijections |
| Base64.PaddedShape | bridge.c:244-246 | the padded text has letters, then the pads, and still the value of every sextet |
| Base64.CanonicalShape | http/request_handler.c:25-33 | a canonical text is the padded spelling of its own values |
| Base64.LetterIsTable | bridge.c:220-227 | the letters are the 64 entries of the table in order, and the decoder's table has the place of each |
| Base64.PublishedVectors | bridge.c:219-249 | "fooba" and "foobar" are encoded as RFC 4648 publishes |
| Base64Routines.Base64Encode | bridge.c:219-249 | the loop with the 24-bit accumulator and the pad loop write the encoding, its terminator, and nothing behind it |
| Base64Routines.Base64Decode | http/request_handler.c:11-64 | refuses exactly the lengths that are no multiple of four and otherwise returns the decoding and a zero octet |
| Base64Routines.TripleSextets | bridge.c:236-241 | the accumulator's shifts and masks give the four 6-bit groups |
| Base64Routines.TripleOctets | http/request_handler.c:46-58 | the accumulator's shifts and masks give the three octets back |
| WebSocket.MaskedTwice | bridge.c:440-444 | unmasking undoes masking |
| WebSocket.MaskedBits | bridge.c:440-444 | each bit of octet i is flipped exactly where octet i mod 4 of the key has a 1 |
| WebSocket.ValidLengths | bridge.c:397-426 | each form of the length holds exactly the lengths that fit its field |
| WebSocket.PublishedFrames | bridge.c:397-426 | the frames of section 5.7 of RFC 6455, with each form of the length, masked and not |
| WebSocket.LookFrame | bridge.c:396-448 | a complete frame of any form is found with its payload unmasked; no proper prefix of a frame is |
| WebSocket.ForwardsPayloads | bridge.c:390-451 | for every list of valid frames and an incomplete rest, exactly the payloads are forwarded, in order |
| WebSocket.ForwardedAreFrames | bridge.c:390-451 | whatever the buffer holds, what is forwarded are the payloads of valid frames that make up its start |
| WebSocket.WrapNeedsTopBit | bridge.c:429-431 | the 64-bit frame size wraps around only for a length with the top bit set |
| WebSocketRoutines.UnmaskInPlace | bridge.c:440-444 | the loop unmasks exactly the payload bytes of the buffer |
| WebSocketRoutines.ReadHeaderAt | bridge.c:394-426 | header size, mask bit and payload length as section 5.2 of RFC 6455 lays them out, or none if incomplete |
| WebSocketRoutines.ForwardFrames | bridge.c:390-451 | the loop over the buffer ends and sends exactly what the specification forwards |
| WebSocketRoutines.BuildFrame | bridge.c:470-488 | for 1 to 8182 bytes the built bytes are the encoding of an unmasked final text frame and fit the buffer |
| WebSocketRoutines.ServerFrameMinimal | bridge.c:474-486 | the built frame uses the shortest length form |
| WebSocketRoutines.ServerFrameExamples | bridge.c:470-488 | the built frames for "Hello" and for 256 bytes, octet by octet |
| WebSocketRoutines.ServerFrameBack | bridge.c:470-490 | it parses back to the same bytes in front of anything |
| XmppHandshake.HarmlessAnswers | xmppd.c:360-418 | a harmless text does not move the server, and the page passes over whatever it is answered with |
| XmppHandshake.ServerAnswers | xmppd.c:360-400 | the server's handshake branch takes the joint state exactly one stage further and sends the next handshake message |
| XmppHandshake.ServerServes | xmppd.c:402-527 | any other message leaves both states and the handshake message in flight as they are |
| XmppHandshake.BrowserActs | public_html/index.html:1303-1347 | on the handshake message the page's handler goes exactly one stage further and sends exactly the next handshake message, or at the end session request and presence |
| XmppHandshake.BrowserPasses | public_html/index.html:1300-1349 | on any other message it sends nothing and stays |
| XmppHandshake.OtherStep | xmppd.c:107-134 | room lists, stanzas of others and the user's harmless texts leave the handshake where it is |
| XmppHandshake.HandshakeSafety | xmppd.c:357-400 | in every joint state reachable with harmless texts a ready page has a bound server, the two states go together, and exactly one handshake message is in flight until the page is ready |
| XmppHandshake.HandshakeProgress | public_html/index.html:1288-1347 | the next receipt is always enabled and strictly decreases the measure; no event increases it |
| XmppHandshake.ReadySends | public_html/index.html:1332-1340 | over every run, in the step in which the page becomes ready it sends the session request and then the presence for its room, and the server is bound |
| XmppHandshake.HandshakeCompletes | public_html/index.html:1288-1347 | every reachable joint state can be run by receipts alone to ready and bound and on until the server has handled all that was sent; by then it has, bound, handled the session request and next the room presence |
| XmppLogin.LoginJoins | xmppd.c:402-467 | in the chat server, a connection whose messages do so has its session request answered, and by its presence for room@host/nick is a member of that room under that nickname |
| XmppTexts.HarmfulDisturbs | xmppd.c:370-413 | every harmful text, sent once in the state of the page it is harmful in, leads to a joint state that breaks safety |
| XmppTexts.TextsExactly | public_html/index.html:1424-1429 | for every state of the page and every text, all runs with that text there are safe if and only if it is harmless there |
| XmppPage.ChatPage.OnMessage | public_html/index.html:1300-1349 | the handlers on the global state variable perform the page's receiving step on every joint state |
| XmppPage.ChatPage.OnOpen | public_html/index.html:1288-1298 | the handler performs the protocol's opening step on every joint state, and takes a fresh pair of peers to the first stage, with the invariant and its one message in flight |
| MucHistory.HandleSlot | xmppd.c:357-527 | a message changes only its sender's entry, by phase, address and join |
| MucHistory.JoinFits | xmppd.c:171-173 | room and nickname taken from a presence always fit their fields |
| MucHistory.RoomAndNick | xmppd.c:444-453 | a presence for room@host/nick joins that room under that nickname |
| MucHistory.SlashFirst | xmppd.c:444-453 | with the slash in front of the at sign the part between them is the nickname, and still part of the room |
| MucHistory.GuestAddress | xmppd.c:454-462 | any other address joins the room before its slash as WebGuest |
| MucHistory.DispatchByWords | xmppd.c:357-471 | by the words of the message, exactly when it moves the phase, binds, joins or chats |
| MucHistory.StepRefines | xmppd.c:606-671 | one event keeps table and histories in agreement if and only if it does not connect onto a slot in use |
| MucHistory.TableIsHistory | xmppd.c:606-671 | over every run the table is, per descriptor, the phase, address, latest room and nickname of that connection's own history |
| MucHistory.SharedSlot | xmppd.c:626-643 | with descriptors 5 and 69, closing one loses the other |
| MucDelivery.CastServed | xmppd.c:212-225 | a loop over the table serves every bound client it is meant for once, and nobody else |
| MucDelivery.OthersExact | xmppd.c:227-230 | the second loop of a join meets each other member of the room exactly once |
| MucDelivery.RoomAddress | xmppd.c:478-492 | a message to room@conference or to a name without an at sign is for that room |
| MucDelivery.RoomMessageReaches | xmppd.c:469-513 | by the words of the message and the address, a room message gives one stanza to each other bound connection whose latest join is that room and nothing to anyone else |
| MucDelivery.DecimalBack | xmppd.c:339 | the digits of an address read back as the descriptor |
| MucDelivery.JidInjective | xmppd.c:339 | no two descriptors have the same address |
| MucDelivery.JidIsDirect | xmppd.c:478 | an address handed out at bind time fits the buffer and is not taken for a room |
| MucDelivery.JidExactlyBound | xmppd.c:623 | in every reachable state a connection has an address exactly when it is bound, and it is unique |
| MucDelivery.DirectReaches | xmppd.c:469-525 | by the words of the message and the address, a direct message reaches the bound connection it names, unchanged and once, and nobody else |
| MucDelivery.JoinReaches | xmppd.c:439-467 | by the words of the message, a join tells each other member of the room once, and then sends every bound connection the room list |
| MucDelivery.JoinAnswered | xmppd.c:227-257 | the joiner gets its own announcement, one presence of each other member, the self-presence and the list, in this order |
| MucDelivery.BindAnswered | xmppd.c:392-400 | a bind request makes the connection bound and is answered with its own address and a list that already counts it |
| MucDelivery.AnsweredToSender | xmppd.c:357-437 | whatever is by its words neither a join nor a chat message is answered to its sender only |
| MucDelivery.Answered | xmppd.c:357-437 | the answer to the sender for every phase and every set of words but those of a bind, a join or a chat message, and that nothing else changes |
| MucDelivery.CloseReaches | xmppd.c:635-646 | when a connection ends each other bound connection gets one new list, and nobody else anything |
| MucRooms.AddKeepsDistinct | xmppd.c:41-57 | an addition keeps the rooms distinct if and only if it does not cut a name down to a known one |
| MucRooms.LoadedDistinct | xmppd.c:71-91 | the loaded rooms are distinct if and only if no line is cut down to a known name |
| MucRooms.LoadRepeats | xmppd.c:49-50 | two equal lines of 64 characters are stored as one name of 63 twice, of 63 once, empty ones not at all |
| MucRooms.RosterGrows | xmppd.c:204-208 | in every run the rooms only grow, never past 64, and repeat a name exactly if the loaded list did |
| MucRooms.RoomsAreJoined | xmppd.c:204-208 | the known rooms are exactly those loaded and those ever joined by a bound connection, until 64 are known |
| MucRooms.UsersAreMembers | xmppd.c:93-105 | the count of a room is the number of bound connections whose latest join it is |
| MucRooms.RosterShows | xmppd.c:107-134 | in every reachable state the list sent has one entry for each known room, in order, with the number of its members by history |
| MucRooms.RosterTotal | xmppd.c:107-121 | with distinct rooms the counts of the list add up to the bound connections whose room is known |
| XmppServer.ChatServer.AddRoomToMemory | xmppd.c:41-57 | the loop over the fixed array adds the cut name or leaves it, and says which |
| XmppServer.ChatServer.LoadPersistentRooms | xmppd.c:71-91 | the loading loop stores exactly the loaded rooms |
| XmppServer.Start | xmppd.c:561-565 | the server starts in the initial state of the histories, with the rooms of the file |
| XmppServer.ChatServer.GetUsersInRoom | xmppd.c:93-105 | the loop counts the bound clients of the room |
| XmppServer.ChatServer.BroadcastRoomList | xmppd.c:107-134 | one list with all counts to each bound client, in slot order |
| XmppServer.ChatServer.AnnounceJoin | xmppd.c:212-225 | the first loop of a join sends one presence of the joiner to each bound client of the room |
| XmppServer.ChatServer.IntroduceMembers | xmppd.c:227-245 | the second sends the joiner one presence of each other one |
| XmppServer.ChatServer.HandleMucJoin | xmppd.c:204-257 | fields, room list and the three kinds of presences of a join |
| XmppServer.ChatServer.HandleBind | xmppd.c:334-355 | address and phase of the client, the result and the room list |
| XmppServer.ChatServer.HandleChat | xmppd.c:469-527 | the two loops that send a room or a direct message |
| XmppServer.ChatServer.HandleClientMessage | xmppd.c:357-527 | every branch leaves the table and sends what the specification says, in order |
| XmppServer.ChatServer.Accept | xmppd.c:619-626 | a fresh client takes the slot of its descriptor modulo 64 |
| XmppServer.ChatServer.HangUp | xmppd.c:635-646 | the slot is freed and the others get a new list |
| XmppServer.ChatServer.OnReadable | xmppd.c:653-657 | a stanza is handled by the client in the slot of its descriptor |
| TaskQueue.TaskQueue.QueuePush | http/server.c:28-48 | the linked list with its tail pointer gains the client at its end |
| TaskQueue.TaskQueue.QueuePop | http/server.c:50-71 | the first client leaves the list, which stays well-formed also when it becomes empty |
| TaskQueue.TailReached | http/server.c:37-43 | the tail is the last node reached from the head, and there is none behind it |
| TaskQueue.RunSchedule | https/server.c:120-163 | under every schedule of puts and comers on one queue, the workers get the initial part of what was put in, as far as there are workers; the rest is in the list, which ends with its tail |
| Ownership.QueueIsFifo | http/server.c:28-71 | under every interleaving of the event loop and eight workers what was popped is a prefix of what was pushed, and the queue is the rest |
| Ownership.StepOwners | http/server.c:297-336 | every step of the event loop and of a worker leaves each connection with one owner |
| Ownership.OneOwner | http/request_handler.c:889-904 | in every interleaving with short requests each accepted connection is in exactly one of epoll set, hand-over, queue, one worker, or given up; one being read is in the epoll set, and a late look at the size changes nothing |
| Ownership.CheckAfterPop | http/server.c:326-331 | a run in which a worker holds the connection whose size the event loop is about to look at |
| Ownership.CheckAfterFree | http/server.c:309-331 | a run in which the event loop is about to look at the size of a connection it has freed |
| Ownership.LateLookExactly | http/server.c:300-331 | a step that brings the event loop to its last look leaves the connection in the epoll set if and only if it is neither the hand-over nor the clean-up after a hang-up |
| Ownership.LateLookStays | http/server.c:331 | until the look, nobody takes the connection out of the epoll set |
| Ownership.FirstRead | http/server.c:282-300 | the run of one accepted connection up to its first read, in which the invariant holds |
| Ownership.NextRequest | http/request_handler.c:889-904 | a served connection that is re-armed can be read again, with the whole buffer free |
| Ownership.FullRequestArrives | http/server.c:320-335 | in that run a complete request of 4095 bytes can come, and ownership does not survive it |
| Ownership.BoundIsExact | http/server.c:320-335 | ownership survives every continuation if and only if the request is not complete with 4095 bytes |
| RequestReader.Connection.ReadRequest | http/server.c:300-335 | the receive loop appends what it takes to the buffer and ends queued, waiting, cleaned up, or both |
| RequestReader.QueuedWhenComplete | http/server.c:320-335 | the buffer holds what came, in order; a connection is queued exactly when the blank line has come, and cleaned up as well exactly when that filled the buffer |
| RequestReader.ReadsUntil | http/server.c:300-335 | the loop takes one delivery after the other and stops for one of four reasons, the first that arises: blank line, full buffer, nothing more, connection gone |
| RequestReader.BlankLineCompletes | http/server.c:320-326 | a blank line completes a request whatever follows it |
| RequestReader.NulHides | http/server.c:320-326 | behind a NUL it is not seen |
| RequestReader.NotYetComplete | http/server.c:320-326 | without line ends, and with a blank line that lacks its last octet, a request is not complete |
| Peers.StepKeepsPeers | http/request_handler.c:545-570 | set-up, its failure, a failed send and both clean-ups keep live peers symmetric and free nothing twice |
| Peers.StepLosesNothing | http/server.c:117-150 | a step neither loses a state nor makes one up: allocated is live or freed |
| Peers.SetUpUndone | http/request_handler.c:545-570 | after a failed set-up or a failed send everything is as before but for the freed upstream; in between the two states point at each other |
| Peers.PeersStaySymmetric | http/server.c:117-150 | in every reachable heap a live state's peer is live and points back, none refers to a freed state, and every state ever allocated is live or was freed exactly once |
| PeerEvents.QuietTurn | http/server.c:254-336 | waiting, handling, handing off and re-arming free nothing and keep registered, waiting and held states live and apart |
| PeerEvents.CustodyMoves | http/server.c:254-336 | who has a state after a turn about it: epoll, queue and workers, or, given up, neither |
| PeerEvents.TlsTurn | https/server.c:208-236 | every turn of the TLS server keeps them so, and at most one end of a proxied connection registered |
| PeerEvents.TlsEventsAreLive | https/request_handler.c:492-516 | over every run of the TLS server, whatever its batches, each event handled is for a live state, workers hold live states, and no batch has both ends of a proxied connection |
| PeerEvents.PlainTurn | http/server.c:117-150 | one turn of the plain server keeps all waiting events live if and only if it is not a failed send whose upstream is waiting |
| PeerEvents.PlainEventsAreLive | http/request_handler.c:820-837 | the runs of the plain server in which all waiting events are always live are exactly those without such a failed send |
| PeerEvents.StaleEvent | http/request_handler.c:820-829 | a run from the empty server with one, ending with an event for a freed state |
| Peers.Connections.CleanupClient | http/server.c:117-150 | the plain server unlinks the peer and frees the client only |
| Peers.Connections.CleanupClientAndPeer | https/server.c:208-236 | the TLS server frees both |
| Peers.Connections.LinkUpstream | http/request_handler.c:545-570 | both states point at each other, or after a failed registration neither is left linked |
| Peers.Connections.DropUpstream | http/request_handler.c:820-834 | the peer is freed and the client reads requests again |
| Router.LoadedExactly | http/request_handler.c:587-636 | the loaded rules are exactly the routes of the file, each protected exactly when an AUTH line for its path follows it |
| Router.LineParsed | http/request_handler.c:587-626 | a line's words, whatever blanks are around them, are its kind, path and target in this order, or AUTH and a path |
| Router.SpaceCodes | http/request_handler.c:589 | the six characters that separate words |
| Router.RulesBounded | http/request_handler.c:590-594 | there are never more than 32 rules, and 32 when the limit is met |
| Router.LimitEnds | http/request_handler.c:590-594 | with 32 routes loaded the next line of three words ends the loading, whatever follows it |
| Router.OrderDoesNotMatter | http/request_handler.c:587-636 | for distinct paths within the limit, with AUTH lines behind their routes, no permutation of the lines changes the rule chosen for any request or its protection |
| Router.EarlyAuthIsLost | http/request_handler.c:625-635 | for every route the two orders of route and AUTH line load different tables |
| Router.BestIsUnique | http/request_handler.c:724-736 | at most one rule is the first of the longest matching ones |
| Router.LongerWins | http/request_handler.c:724-736 | of two paths that begin the request the longer one wins, and of two equal ones the first |
| Router.RouteTable.ProtectRoutes | http/request_handler.c:627-633 | exactly the loaded rules with the path become protected |
| Router.RouteTable.LoadLine | http/request_handler.c:588-635 | one line adds a route, protects, does nothing, or meets the limit |
| Router.RouteTable.LoadConfigFile | http/request_handler.c:573-636 | the table holds the rules of the file up to the line that meets the limit |
| Router.RouteTable.Match | http/request_handler.c:724-736 | returns the first of the rules with the longest path that begins the request, and none exactly if no path does |
| PostForward.ForwardRest | http/request_handler.c:373-427 | the loop writes what the socket delivers, in order, until all is written or a timeout, close or error |
| PostForward.ForwardBody | http/request_handler.c:345-435 | the pipe gets the text of the buffered part, at most the declared length, and then the socket's bytes |
| PostForward.DrainEnds | http/request_handler.c:389-427 | the loop gives up only on a timeout, close or error, and without one completes after at most as many deliveries as bytes are missing |
| PostForward.DrainedExactly | http/request_handler.c:373-427 | the loop forwards exactly what the rounds before the first fatal one deliver, at most 4096 bytes each, up to the declared length, and ends accordingly |
| PostForward.PipeGetsBody | http/request_handler.c:345-437 | without a NUL in the buffered part of the body the pipe gets a prefix of the body, and all of it if nothing fails |
| PostForward.PrefixExactly | http/request_handler.c:353-366 | the pipe gets a prefix of the body for every behaviour of the socket if and only if the buffered part of the body has no NUL |
| UrlDecode.UrlDecode | cgi_bin/request_song.c:7-31 | the in-place decoder writes the decoded octets and a NUL into a destination as large as the source, or leaves the source buffer |
| UrlDecode.DecodeEncoded | cgi_bin/request_song.c:7-31 | decoding any percent-encoding of any octets, each written in any permitted style, returns them |
| UrlDecode.CodeIsStrtoul | cgi_bin/request_song.c:17-19 | for every pair of characters, hexadecimal or not, the octet is the low eight bits of what strtoul in base 16 returns |
| UrlDecode.Example | cgi_bin/request_song.c:13-28 | "%2Fb+%e9" is decoded octet by octet |
| UrlDecode.EncodeDecoded | cgi_bin/request_song.c:13-28 | every well-formed text is a percent-encoding of what it decodes to |
| UrlDecode.EncodedWellFormed | cgi_bin/request_song.c:13-28 | and every percent-encoding is a well-formed text |
| UrlDecode.StaysInside | cgi_bin/request_song.c:14-20 | the decoder stops at the end of its string, whatever lies behind, if and only if no escape is cut short |
| Hexadecimal.DigitTable | cgi_bin/request_song.c:14-20 | the sixteen digits in either case |
| Hexadecimal.OnlyDigits | cgi_bin/request_song.c:17 | and nothing else is a digit |
| ChunkedReply.TakeFrame | cgi_bin/request_song.c:105 | a chunk with its hexadecimal size is read back by the decoder of section 7.1 of RFC 9112, whatever follows |
| ChunkedReply.Reply | cgi_bin/request_song.c:98-112 | the output loop sends one chunk per non-empty line and the last chunk |
| ChunkedReply.Examples | cgi_bin/request_song.c:98-112 | a line of 26 octets, the last chunk and two of the radio's chunks, octet by octet |
| ChunkedReply.ReplyDecodes | cgi_bin/request_song.c:98-112 | the reply decodes to the concatenation of the lines' texts and ends exactly at the last chunk |
| ChunkedReply.NothingLost | cgi_bin/request_song.c:99-105 | that is the child's output unchanged if and only if no line holds a NUL |
| ChunkedReply.RadioDecodes | radio_server.c:159-172 | with complete sends, chunks that are not empty decode by section 7.1 to their concatenation, in front of whatever follows |
| ChunkedReply.RadioEndsAt | radio_server.c:160 | at the first empty chunk the decoder stops and returns what came before |
| ChunkedReply.RadioDecodesExactly | radio_server.c:159-172 | the decoder gets all chunks and is still reading behind them if and only if none is empty |
| RadioStreams.HeardEmpty | radio_server.c:148-160 | of the sizes announced to a listener one is 0 exactly if its first pass is the sender's first and that pass's snapshot precedes the first broadcast |
| RadioStreams.ListenerReads | radio_server.c:140-172 | whatever octets the passes send under the announced sizes, lapped or not, a listener has read all of them and goes on reading if and only if that is not so |
| RadioStreams.PassSends | radio_server.c:148-167 | a pass, each octet read at any moment of it, sends as many octets as announced, and exactly the snapshot's chunk if fewer than 64 broadcasts begin before its end |
| RadioStreams.PassesSend | radio_server.c:140-204 | so the passes of a run send chunks of the announced sizes, and the broadcast chunks themselves if none is lapped |
| RadioStreams.EarlyListener | radio_server.c:140-172 | a run in which it is so: the stream ends before any sound |

## Left out

- Sockets, epoll, the TLS library, processes, clocks and the file system: their results are parameters.
- Whether epoll reports the HTTPS server's sockets again: its re-arming is irregular, so transfers are shown to end given the events, not that the events come.
- HTTPS CGI responses, and request bytes that arrive during a transfer.
- Sends of an empty buffer on the HTTPS path: `SSL_write` of nothing is not modelled, and no caller does it.
- Ownership and RadioRing are state machines on values: the program counters of several threads have no
  single object to update; `TaskQueue`, `RequestReader`, `RadioThreads` and `RadioClients` hold the code of their steps.
- Ownership.OneOwner: proxied connections are not covered, because two threads use them by design.
- Ownership.CheckAfterFree: what a read of a freed record gives is undefined; the model, here and in `RequestReader`, takes the value it had.
- Peers.PeersStaySymmetric: steps are atomic and act on live states; `PeerEvents` proves that those of the event loops do, except after a failed send of the plain server, after which the handling of the stale event is not modelled.
- PeerEvents.TlsEventsAreLive: requests are short, as in Ownership; in a run a handshake that fails before its connection is registered is left out.
- Proxied bytes that a partial or refused send loses (`http/server.c:343-346`, `https/server.c:518-522`).
- RadioStreams.ListenerReads: a listener whose socket fails in the middle of a chunk with EAGAIN stays in the list with a broken chunk; only complete sends are framed.
- WebSocketRoutines.ForwardFrames: one receive buffer at a time; a frame split over two receives is dropped by the bridge.
- Sha1.Sha1: no result for inputs of 2^38 bytes or more, on which the routine never ends (`Sha1.BlockLoopEnds`); the three copies of the loop body are one method.
- Base64Routines.Base64Decode: text has at least one character and only characters below 123, the size of the table.
- Muc: fixed-size text buffers (a long room list overruns 4096 bytes), stanzas that arrive joined in one receive, and the text of stanzas beyond their parts.
- XmppHandshake.HandshakeSafety: each message arrives whole and alone; a message is the set of the words looked for in it, and a session answer repeats any of the words of its request.
- The bridge's own HTTP upgrade, user counts, disco answers' contents, and the CGI programs and pages that only move JSON.
- Header parsing, parsing of proxy targets, URL rewriting to `/index.html`, and the 404 paths of `handle_work`.
