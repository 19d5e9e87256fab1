# Verified model of a WiFi throttle gateway for BiDiB

A Dafny model of the firmware's protocol code, with proofs. The node sits on a BiDiB bus, lets WiFi throttles drive
locomotives, hands out addresses over DHCP and keeps settings in a NOR flash. `dafny verify dfyconfig.toml` checks all of it.

**The bus link** (`Bus`, `Line`, `LineSafety`, `EndToEnd`). A bus state steps by events: a message is sent, a word is heard,
the transmit interrupt fires, a logon is acknowledged or refused, the polls time out. `Line` adds a record of what was
accepted and what went over the wire. The invariant of `LineSafety` ties both together; `EndToEnd` composes it with the
receiver (`Assembler`, `Reception`) and the CRC (`Crc8`) into the round trip from `send_bidib_message` to the dispatcher of
a receiver that gets each frame behind word 0x100, where this parser expects a packet. On the bus itself a transmission stands
behind the prompt or poll that asked for it, and peers with the same parser pass it over (`EndToEnd.PeersPassOver`).
`HalfDuplex` and `Numbering` hold what is true of runs without any guard. `TxLink`, `RxBuffer` and `Client` are the code
itself, as classes whose methods are proved to take the steps of the value model.

**Guards.** A guarded run is one in which an accepted message also leaves room for the frame on the wire, an acknowledgement
comes after a logon has ended since the last flush, and the poll timeout does not fire while the driver is on. The code does
not enforce the first two; an interface that acknowledges only applications meets the second
(`LineSafety.CourteousIsGuarded`). `FifoLimits` proves for each of them, and for the flush, exactly when it is needed, and
`FifoRuns` gives the runs from power-on in which a frame goes out damaged because one of them does not hold.

**DHCP** (`Dhcp`, `DhcpOptions`, `DhcpServer`): lease slots on a clock that wraps, exclusivity over runs on an unbounded time
axis, and the option list both ways. **Flash** (`FlashStore`, `UserString`): read-modify-erase-program refined to a byte array.
**Log** (`LogRing`), **features** (`Features`) and **throttle** (`Throttle`): state against history.

Where comments and code disagree the model follows the code:

- `flash_store.c:116-118` promises that uncovered bytes are preserved and, by being a write, that covered ones are replaced;
  the loop skips the head of every further sector of an unaligned range (`FlashStore.WriteSplicesExactly`).
- `withrottle_if.c:293-302` skips the release only of a lockable function; one with a label that is not lockable toggles on
  press and on release alike, though its log line calls it lockable (`Throttle.StateIsHistory` counts both).
- `bidib_client_parser.c:913` allows speeds 0 to 126 and -1 for an emergency stop; the byte of the latter is also that of
  speed 1 in reverse (`Throttle.EmergencyStopByte`).
- `include/withrottle_if.h:17` calls `throttle_stop` an emergency stop. It, a release and a quit set the slot's speed to 0 and send
  no drive message, so that a command station drives on (`Throttle.StationKnowsSpeedExactly`).
- `dhcpserver/dhcpserver.c:146-154` reads a PAD option as if it had a length; two of them read as an option without
  data, so that runs of even length do no harm (`DhcpOptions.PaddedFoundExactly`).
- Size bytes of some replies (`bidib_client_parser.c:139`, `:146`, `:407`) disagree with the bytes written. A message is
  whatever its size byte says, as in `bidib_tx_fifo_put`.

## Model

| member | source | states |
|---|---|---|
| Crc8.TableIsRegister | crc_8bit.c:25-60 | all 256 table entries are eight clocks of the reflected shift register of x^8+x^5+x^4+1 |
| Crc8.UpdateIsAbsorb | include/crc_8bit.h:28-30 | the table lookup equals clocking the register once per data bit, least significant first |
| Crc8.Crc8Update | include/crc_8bit.h:28-30 | the inline update returns the register after one more byte, defined bit by bit and not by the table |
| Crc8.FoldIsBitFold | bidib_client_parser.c:853 | the running CRC of a byte string is one bit-serial run over all its bits |
| Crc8.FoldLinear | bidib_client_parser.c:853 | the CRC of the XOR of two strings is the XOR of their CRCs |
| Crc8.AppendedFoldCancels | bidib.c:71-81 | a string followed by its own CRC leaves residue zero, for every string and start value |
| Crc8.ErrorResidue | bidib_client_parser.c:866-867 | what a receiver computes on a damaged frame is the CRC of the damage alone |
| Crc8.OddErrorsDetected | bidib_client_parser.c:866-868 | any odd number of flipped bits, at any length, leaves a nonzero residue |
| Crc8.BurstsDetected | bidib_client_parser.c:866-868 | any burst within eight consecutive bit positions, aligned or not, leaves a nonzero residue |
| Crc8.IdleIsPeriodic | crc_8bit.c:2-16 | the register fed with zeros shows 1 again first after 127 clocks, and then every 127 |
| Crc8.DoubleErrorsDetected | bidib_client_parser.c:866-868 | two flipped bits go unnoticed if and only if their distance is a multiple of 127 bits |
| Ring.StoreCells | bidib_client_if.c:180-186 | the copy loop changes exactly the cells it is to store to, through the wrap of the index |
| Ring.StoreKeeps | bidib_client_if.c:180-186 | bytes that end where the store begins survive it when both fit into the ring together |
| Ring.StoreAppends | bidib_client_if.c:174-188 | after a put the pending bytes are the old ones followed by the message |
| TxLink.Link.FifoPut | bidib_client_if.c:156-190 | the method with its copy loop takes exactly the step Put of the abstract bus: refused only when connected and pending + size exceed 128, dropped silently when not connected |
| TxLink.Link.SendMessage | bidib_client_parser.c:95-119 | builds the header, draws the number and puts the message: one Send step of the run model |
| TxLink.Link.PrepareTxLogon | bidib_client_if.c:207-227 | fills the reserved cells with the logon message and its CRC and touches nothing else |
| TxLink.Link.FlushTx | bidib_client_if.c:239-248 | one Flush step: pending bytes forgotten, write index behind the reserved cells |
| TxLink.Link.PrepareLogonBuf | bidib.c:60-85 | the 13 buffered words are the frame of the logon message, CRC included |
| TxLink.Link.TxIsr | bidib.c:92-155 | the transmit interrupt is the Irq step, word for word: logon, NAK, and frame with running CRC |
| TxLink.Link.OnPrompt | bidib.c:223-249 | a LOGON prompt: back-off, collision test, logon start |
| TxLink.Link.OnPoll | bidib.c:252-273 | a poll: everything pending is captured as one frame, or the NAK word is sent |
| TxLink.Link.RxIsr | bidib.c:202-277 | for any number of waiting words the interrupt runs the Hear steps in order, ignores echoes while DE is high, and hands on exactly the others to the receive ring |
| LineSafety.PutKeepsRing | bidib_client_if.c:174-188 | write stays read + ahead modulo 128 and the pending bytes grow by the message |
| LineSafety.PutKeepsInFlight | bidib_client_if.c:174-188 | with room counted for the frame on the wire, a put leaves that frame intact |
| LineSafety.CaptureStartsFrame | bidib.c:256-267 | a poll turns the whole queue into the frame in flight, which ends exactly at the read index |
| LineSafety.EmitKeepsFlight | bidib.c:127-133 | each interrupt moves one byte of the payload from the ring to the wire |
| LineSafety.EndedTransmission | bidib.c:96-153 | whatever lowers DE was a whole logon, a NAK, or a frame closed by its own CRC |
| LineSafety.NextKeepsInv | bidib.c:92-277 | every guarded step keeps the ring refinement, the record of messages and the state of the driver |
| LineSafety.RunKeepsInv | bidib.c:92-277 | so does every guarded run, in any interleaving of puts, words, interrupts, acknowledgements, rejections and timeouts |
| LineSafety.CourteousIsGuarded | bidib_client_parser.c:632-655 | acknowledgements that reach the node while it waits for the answer to a logon that is over, or is connected, meet the guard, over every run |
| LineSafety.StartHasInv | bidib_client_parser.c:894-901 | the state after start-up satisfies the invariant |
| FifoLimits.PutFaithfulExactly | bidib_client_if.c:175 | an accepted message keeps frame and queue intact for every ring content if and only if in-flight + pending + size is at most 128; the code counts only pending + size |
| FifoLimits.PutAnswers | bidib_client_if.c:156-190 | a put is refused if and only if the node is connected and pending + size exceed 128, and changes nothing then or when not connected |
| FifoLimits.FlushSparesFlightExactly | bidib_client_if.c:239-248 | a flush spares the frame on the wire if and only if none of its bytes lies in the cells reserved for the logon |
| FifoLimits.AckServesExactly | bidib_client_parser.c:634-655 | after an acknowledgement to an idle node the next message put arrives with the next poll, whatever message and ring content, if and only if the node was connected already, or a logon has ended since the last flush and none is under way; the code asks for neither |
| FifoLimits.AckDuringLogonLosesMessage | bidib.c:107-116 | after an acknowledgement while the logon still goes out, any message accepted meanwhile is dropped unsent by the end of the logon, and the poll is answered with a NAK |
| FifoLimits.EarlyAckLosesMessage | bidib.c:107-116 | a run in which an acknowledgement before the first logon makes the end of a NAK discard an accepted message unsent |
| IrqRuns.SendsFrame | bidib.c:127-153 | undisturbed interrupts send whatever the ring then holds, closed by a CRC that fits it |
| IrqRuns.SendsLogon | bidib.c:96-116 | undisturbed interrupts send the buffered words and reset the ring to the reserved cells |
| FifoRuns.CleanFrame | bidib.c:252-267 | a connected node sends a message put and polled as its frame and is ready again, the ring turned by its length |
| FifoRuns.SentMessageIsDispatched | bidib_client_parser.c:95-119 | what a connected node sends is dispatched by a receiver of the polled frame as size, address 0, the number drawn, type and data |
| FifoRuns.PutDamagesFrame | bidib_client_if.c:175 | a put of 100 bytes while a frame of 60 goes out is accepted and overwrites its beginning, and the CRC sent covers the damage |
| FifoRuns.PutMisleadsReceiver | bidib_client_parser.c:867-869 | a receiver fed that frame behind word 0x100 parses it, and does not get the message it should have carried |
| FifoRuns.PutDamageIsReached | bidib_client_if.c:156-190 | the run exists from power-on: prompt, logon, acknowledgement, put, poll, put, interrupts |
| FifoRuns.FlushDamageIsReached | bidib_client_if.c:239-248 | so does one in which a poll timeout flushes the logon image into the frame on the wire, again with a fitting CRC |
| FifoRuns.StaleAckSendsImage | bidib.c:256-262 | after a poll timeout and an acknowledgement without a logon between, the next message is accepted, and its poll sends bytes of the logon image in its place |
| HalfDuplex.BootIsSettled | bidib_client_parser.c:894-901 | the state after start-up is settled |
| HalfDuplex.AlwaysSettled | bidib.c:223-249 | in every run from a settled state, guarded or not: back-off at most 1, APPLIED implies back-off 0, not connected implies no address |
| HalfDuplex.DriverRaisedExactly | bidib.c:209-273 | a step raises DE if and only if it is word 0x17E heard by a disconnected node without back-off on a free bus, or the word made of the id bit and the address of a connected node with bit 6 clear |
| HalfDuplex.OtherWordsIgnored | bidib.c:209-273 | every word but 0x17E and the own address leaves the node as it is and puts nothing on the wire; so does every word while DE is high |
| HalfDuplex.PromptExactly | bidib.c:223-249 | what 0x17E does to a node in each connection state, with and without back-off, on a free and on a busy bus |
| HalfDuplex.PollExactly | bidib.c:252-273 | a poll raises DE with the length of everything waiting, which is then captured, or else with the NAK word |
| HalfDuplex.StillDriving | bidib.c:209-212 | while DE is high no word, put, acknowledgement or timeout shortens or prolongs the transmission |
| HalfDuplex.DriverReleased | bidib.c:96-153 | DE goes down with exactly the announced number of interrupts, whatever happens between them |
| HalfDuplex.PromptsAlwaysDecide | bidib.c:223-249 | without an answer the prompts heard alone decide when a logon goes out |
| HalfDuplex.FirstAndEveryThird | bidib.c:223-249 | after power-on, on a free bus, p prompts cause exactly (p + 2) / 3 logons: the first and every third after it |
| HalfDuplex.TimeoutDisconnects | bidib_client_parser.c:787-796 | a missed poll leaves a connected node disconnected, with address 0xFF and an empty ring; back-off and DE stay |
| HalfDuplex.LogsOnAgain | bidib_client_parser.c:355-397 | recovery over every run after a missed poll, unanswered on a free bus: p prompts cause exactly (p + 2) / 3 logons, or (p + 1) / 3 if a back-off was owed |
| HalfDuplex.RefusalRejects | bidib_client_parser.c:391-397 | a refusal takes the address and keeps ring, back-off, driver and numbers |
| HalfDuplex.RefusedStaysSilent | bidib_client_parser.c:391-397 | a refused node puts no word on the wire over any run, until it is acknowledged |
| HalfDuplex.AcknowledgedExactly | bidib_client_parser.c:632-655 | an acknowledgement stores the seven granted bits and in bit 7 their parity, or the granted bit; a connected node only restarts its numbers |
| HalfDuplex.StoredAddressParity | bidib_client_parser.c:635-641 | the stored address keeps the low seven bits; its parity is even if and only if bit 7 was free to take it or not needed |
| HalfDuplex.PollableExactly | bidib_client_parser.c:634-641 | an acknowledged node can be polled if and only if bit 6 of the granted address is clear |
| Numbering.SequenceCycles | bidib_client_if.c:194-198 | the numbers drawn are 0 once and then 1 to 255 round and round |
| Numbering.NumbersFollowDraws | bidib_client_if.c:194-198 | in every run between two acknowledgements the n-th draw yields the n-th number |
| Numbering.AcceptedAreConsecutive | bidib_client_parser.c:95-119 | as long as no message is refused, the accepted messages carry consecutive numbers |
| Numbering.DeliveredAreConsecutive | bidib_client_parser.c:95-119 | and so do the messages of the frames that went out, in every guarded run |
| Dispatch.InStepExactly | bidib_client_parser.c:464-486 | over any messages of a connection, broadcasts and others' included, the dispatcher finds every message for this node in step if and only if their numbers are the sender's sequence |
| Dispatch.DrivenIsRun | bidib_client_parser.c:498-757 | whatever words arrive, dispatching moves the connection by a run of acknowledgements and refusals of the bus model, so that what holds of every run holds of the receiver |
| Assembler.FeedConcat | bidib_client_parser.c:809-889 | feeding the assembler in pieces dispatches the same messages as feeding it at once |
| Reception.FrameChecked | bidib_client_parser.c:840-882 | a complete frame leaves the assembler idle and is parsed if and only if its residue is zero |
| Reception.ParsesMessages | bidib_client_parser.c:762-777 | a packet made of messages is split into exactly that list, in order |
| Reception.BadLengthEndsPacket | bidib_client_parser.c:762-777 | messages in front of an impossible size byte are dispatched, and nothing behind it |
| Reception.SplitterStaysInside | bidib_client_parser.c:762-777 | the splitter stays inside the packet array for every content if and only if P_LENGTH is at most 64 |
| Reception.DeliversFrame | bidib_client_parser.c:809-889 | round trip: a frame of messages of at most 63 bytes behind the start word is dispatched as exactly those messages |
| Reception.DeliversExactly | bidib_client_parser.c:847-849 | a frame of messages with P_LENGTH 1 to 254 is dispatched as those messages if and only if P_LENGTH is at most 63 |
| Reception.CorruptedFrameDropped | bidib_client_parser.c:862-881 | a frame damaged behind its length byte by an odd error, a burst or a double error is dropped whole |
| Reception.AlwaysBounded | bidib_client_parser.c:823-883 | whatever is heard, the index of a collecting assembler with P_LENGTH below 255 lies between 1 and the place of the CRC |
| Reception.Resynchronises | bidib_client_parser.c:840-882 | an assembler that collects a frame with P_LENGTH below 255 is idle after exactly the words announced, whatever they are, and delivers the next frame once and unchanged |
| Reception.FirstWordDecides | bidib_client_parser.c:823-838 | one that waits for the length is idle after one word if that is none, else after the words it announces and the CRC, unless it is 255 |
| Reception.LengthWaiterLosesFrame | bidib_client_parser.c:823-838 | a frame that finds the assembler waiting for a length is lost whole, and the one behind it is delivered |
| Reception.IdBitsIgnored | bidib_client_parser.c:840-882 | inside a frame the id bits of the words do not count: words with the same data lead to the same state and messages |
| Reception.WrappedIndexStarves | bidib_client_parser.c:845-854 | with P_LENGTH 255 the 8-bit index wraps and 0xFF words keep the assembler busy for ever |
| Reception.ResyncExactly | bidib_client_parser.c:814-888 | from any reachable state, return to idle in a bounded number of arbitrary words is certain if and only if the assembler is idle, or collects with a P_LENGTH other than 255 |
| EndToEnd.ReceiverFollows | bidib_client_parser.c:809-889 | a receiver fed a sequence of transmissions, each behind word 0x100, dispatches what they announce, transmission by transmission |
| EndToEnd.TransmissionLengths | bidib.c:92-155 | every DE-high period of a guarded run is 13 words, 1 word, or P_LENGTH + 2 words |
| EndToEnd.LogonOnTheWire | bidib.c:60-85 | the 13 words of a logon, byte by byte, the last being the CRC of the others |
| EndToEnd.MessagesConserved | bidib_client_if.c:156-190 | every accepted message is delivered in a frame, on the wire, or waiting: once, in order, never split over two frames |
| EndToEnd.RecordIsWire | bidib.c:92-277 | over every run, guarded or not, the bytes recorded are the bytes the interrupt routines emit, and what other nodes hear is each recorded transmission behind the prompt or poll that asked for it |
| EndToEnd.RoundTrip | bidib.c:92-277 | over every guarded run the bytes emitted are those of the transmissions, and a receiver fed each finished one behind word 0x100 dispatches exactly our logons and the delivered messages |
| EndToEnd.TakenBehindStartExactly | bidib_client_parser.c:815-838 | an idle parser takes a frame of messages if and only if the word in front of it is 0x100 |
| EndToEnd.PeersPassOver | bidib_client_parser.c:815-821 | over every run in which address 0 is never granted, an idle peer with the same parser dispatches nothing of what it really hears of the node: behind a prompt or poll no packet starts |
| EndToEnd.AcceptedMessagesArrive | bidib.c:127-153 | the messages of a receiver fed each data frame behind word 0x100 + messages on the wire + messages waiting = messages accepted, as sequences |
| EndToEnd.PollDelivers | bidib.c:252-267 | progress: once polled, exactly the queued messages go out as one frame after their bytes and a CRC, whatever is put, heard or acknowledged meanwhile |
| RxBuffer.Buffer.Put | bidib_client_if.c:107-115 | appends a word; the 64th waiting word is dropped silently |
| RxBuffer.Buffer.Read | bidib_client_if.c:98-103 | removes and returns the oldest word |
| RxBuffer.DrainedRingIsTransparent | bidib_client_parser.c:809-889 | however interrupt and main loop interleave, a drained ring has dispatched what direct feeding of the words taken would |
| RxBuffer.LosslessExactly | bidib_client_if.c:107-115 | no word is lost if and only if none arrives while 63 wait |
| RxBuffer.EnqueueExactly | bidib_client_if.c:107-115 | a word goes behind those waiting if fewer than 63 wait, and is lost if 63 do |
| RxBuffer.EnqueueAllTakes | bidib_client_if.c:107-115 | of any number of words the ring takes exactly the first ones, as many as there is room for |
| RxBuffer.ArrivalsAreEnqueued | bidib_client_if.c:107-115 | the arrivals of the runs these results speak of are those stores |
| TxLink.PassingWordsAreHeard | bidib.c:202-277 | while DE is low, any words but prompts and own polls change nothing on the bus and are all handed to the receive ring, in order |
| TxLink.RingAfterInterrupt | bidib.c:202-277 | so one receive interrupt leaves in the ring the words that waited and the first of those heard, as many as 63 allow |
| Dispatch.LogonAckConnects | bidib_client_parser.c:632-655 | the acknowledgement of our logon, taken from its bytes, is the Ack step of the run model and restarts both counters |
| Dispatch.BroadcastExactly | bidib_client_parser.c:632-665 | a broadcast changes the connection if and only if it is an acknowledgement or a refusal that names this unique id, and then as the Ack or Refuse step |
| Dispatch.RefusalRefuses | bidib_client_parser.c:657-665 | the refusal, taken from its bytes, is the Refuse step |
| Dispatch.AnswerBytes | bidib_client_parser.c:628-664 | the two messages these results speak of, byte by byte |
| Dispatch.OtherNodesIgnored | bidib_client_parser.c:464-489 | a message for another node changes neither connection nor numbers |
| Dispatch.OwnAddressExactly | bidib_client_parser.c:464-475 | a node granted address g, 1 to 63, takes exactly the messages with address byte g for its own, whatever the parity bit |
| Dispatch.FrameIsProcessed | bidib_client_parser.c:809-889 | a frame of messages, heard word by word by an idle receiver, is processed message by message, each with its own bytes |
| Dispatch.LogonCompletes | bidib_client_parser.c:632-655 | the frame of an acknowledgement, heard word by word, is the Ack step of the bus |
| Dispatch.AcceptedNumberAdvances | bidib_client_parser.c:464-486 | every message for this node, behind an address stack of any depth, makes the successor of its number expected, which is not 0; only our logon acknowledgement restarts the count |
| Client.Parser.Disconnect | bidib_client_parser.c:355-374 | losing the connection flushes both rings and idles the assembler; nothing happens when disconnected already |
| Client.Parser.Acknowledge | bidib_client_parser.c:634-655 | stores the address with its parity bit and restarts both counters |
| Client.Parser.SkipAddressStack | bidib_client_parser.c:469-474 | finds the end of an address stack of at most four levels |
| Client.Parser.ProcessMessage | bidib_client_parser.c:443-757 | reports 128 for a bad length and the bytes consumed otherwise, and moves connection and counters as the abstract dispatcher |
| Client.Parser.ParsePacket | bidib_client_parser.c:762-777 | the loop dispatches exactly the abstract splitter's messages, ends as it does, and moves the connection message by message |
| Client.Parser.TakeWord | bidib_client_parser.c:814-883 | the state machine takes exactly the abstract step, 8-bit index and 64-cell array included |
| Client.Parser.DrainRing | bidib_client_parser.c:809-889 | empties the ring: messages, assembler and connection are those of feeding its words in order |
| Client.Parser.RunClient | bidib_client_parser.c:783-890 | a pass of the main loop: a missed poll disconnects and flushes, otherwise the ring is drained |
| Features.ValueIsLastSet | bidib_client_parser.c:204-225 | over every run each feature has the last value set, clamped to its range, and GET tells it |
| Features.ToldInOrder | bidib_client_parser.c:227-235 | streaming, GETNEXT and other messages may interleave: features are told in table order, each once |
| Features.StreamTellsAll | bidib_client_parser.c:799-806 | after GETALL with streaming, four passes or GETNEXTs have told the whole table, each feature once |
| Features.RepliesExactly | bidib_client_parser.c:204-225 | after any history SET of features 251 to 254 echoes the value kept and GET tells it; any other number is answered by NA and changes nothing |
| Features.RangesExactly | include/features.h:28-33 | what each of the four features makes of any value set, and what it starts with |
| Features.CursorReplies | bidib_client_parser.c:799-806 | a pass tells the next feature exactly while streaming is on and features are left, and is silent otherwise; GETNEXT then answers NA of 255 |
| Features.FeatureStore.SetFeature | bidib_client_parser.c:214-225 | clamps, stores and echoes, or reports the feature as unknown |
| Features.FeatureStore.Handle | bidib_client_parser.c:522-540 | each message, main-loop pass or reset takes the abstract step |
| Dhcp.SeenExpiredExactly | dhcpserver/dhcpserver.c:229-230 | across every wrap of the clock, a lease is seen expired if and only if the moment lies less than 2^31 ms behind its end, modulo 2^32, the 16-bit truncation included |
| Dhcp.ExpiryWindow | dhcpserver/dhcpserver.c:271 | a lease is never seen expired in its 24 hours, and always from 65.535 s later on for 2^31 ms |
| Dhcp.ScanFinds | dhcpserver/dhcpserver.c:216-236 | the scan finds the lowest slot with the client's MAC, else the lowest free or expired one |
| Dhcp.UnansweredExactly | dhcpserver/dhcpserver.c:237-240 | DISCOVER goes unanswered if and only if all eight slots are other clients' unexpired leases |
| Dhcp.DiscoverChanges | dhcpserver/dhcpserver.c:223-235 | DISCOVER changes a slot only by clearing an expired lease |
| Dhcp.DiscoverChangesOne | dhcpserver/dhcpserver.c:223-235 | DISCOVER changes at most one slot |
| Dhcp.NextKeepsInv | dhcpserver/dhcpserver.c:214-278 | every step keeps: a slot's owner has a running lease, and everyone ACKed for it before had the full one |
| Dhcp.RunKeepsInv | dhcpserver/dhcpserver.c:214-278 | so does every orderly run |
| Dhcp.AddressesAreExclusive | dhcpserver/dhcpserver.c:214-278 | in every run in time order of clients with nonzero MACs, if an address is ACKed to one client and later to another, more than 24 h lie between any ACK of the first and that |
| Dhcp.AckBindsExactly | dhcpserver/dhcpserver.c:261-271 | an ACK keeps the next client away if and only if the MAC it went to is not zero |
| Dhcp.OfferHonoured | dhcpserver/dhcpserver.c:246-278 | a REQUEST for the slot offered is ACKed, whatever happens between, unless another client was ACKed for it first |
| Dhcp.AddressNamesSlotExactly | dhcpserver/dhcpserver.c:247-260 | four requested bytes name slot k if and only if they are the network of the server and 16 + k with k below 8; any others, and no address, name none |
| DhcpServer.LeaseServer.OnDiscover | dhcpserver/dhcpserver.c:216-240 | the scan loop leaves the table and offers the slot of the abstract DISCOVER |
| DhcpServer.LeaseServer.OnRequest | dhcpserver/dhcpserver.c:261-271 | renews, binds or refuses as the abstract REQUEST |
| DhcpServer.LeaseServer.FindRequestedSlot | dhcpserver/dhcpserver.c:247-260 | the slot a REQUEST names, or none for each of the three ignored cases |
| DhcpServer.LeaseServer.Process | dhcpserver/dhcpserver.c:183-282 | a request of any bytes changes the leases and is answered as the abstract server says |
| DhcpServer.LeaseServer.WriteReply | dhcpserver/dhcpserver.c:241-289 | the reply's option bytes are those of the option list, closed by END |
| DhcpServer.ReplyReadable | dhcpserver/dhcpserver.c:284-289 | a client reading the reply with the same search finds the message type and the 24 hours |
| DhcpServer.DiscoverIsOffered | dhcpserver/dhcpserver.c:214-245 | a DISCOVER, read from any options that carry type 1, is answered by an OFFER of the address of the slot found |
| DhcpServer.RequestIsAcked | dhcpserver/dhcpserver.c:246-278 | a REQUEST for 16 + k in the network of the server is answered by an ACK for that address if and only if slot k is the client's or free |
| DhcpServer.RequestElsewhereIgnored | dhcpserver/dhcpserver.c:247-260 | a REQUEST for an address outside those eight, or for none, is not answered and changes nothing |
| DhcpServer.OthersIgnored | dhcpserver/dhcpserver.c:202-288 | no other message type is answered or changes anything |
| DhcpServer.OfferedAddressIsAcked | dhcpserver/dhcpserver.c:214-278 | a client that requests the address of the offer it got, in any option list, is answered by an ACK for that address |
| DhcpServer.ReplyOptionBytes | dhcpserver/dhcpserver.c:283-289 | the option bytes of the reply, literally |
| DhcpServer.LeaseKeptIsLeaseTold | dhcpserver/dhcpserver.c:271-288 | the lease kept in the table is as long as the one told in the reply |
| DhcpOptions.OptFind | dhcpserver/dhcpserver.c:146-154 | the walk ends on every content and returns what the recursive definition says |
| DhcpOptions.WriteN | dhcpserver/dhcpserver.c:156-162 | the buffer holds the encoded option at the position and is unchanged elsewhere |
| DhcpOptions.WriteU8 | dhcpserver/dhcpserver.c:164-170 | the same for a one-byte option |
| DhcpOptions.WriteU32 | dhcpserver/dhcpserver.c:172-181 | the same for a big-endian 32-bit option |
| DhcpOptions.FindReadsWritten | dhcpserver/dhcpserver.c:146-181 | in any written option list closed by END the search finds exactly the first option with the code, and nothing if and only if there is none |
| DhcpOptions.FindReadsPadded | dhcpserver/dhcpserver.c:146-181 | the same with PADs between the options, in runs of even length |
| DhcpOptions.FoundBehindPadsExactly | dhcpserver/dhcpserver.c:151 | behind a run of PADs the option that follows is found if and only if the run is even (section 3.1 of RFC 2132 makes PAD one byte) |
| DhcpOptions.PaddedFoundExactly | dhcpserver/dhcpserver.c:146-154 | in a padded list of options with different codes every option is found at its place if and only if every run in front of one is even |
| DhcpOptions.PadHidesOption | dhcpserver/dhcpserver.c:151 | the shortest input: one PAD in front hides the message type |
| FlashStore.Chip.Erase | flash_store.c:137-145 | a sector becomes all ones, the rest is unchanged |
| FlashStore.Chip.Program | flash_store.c:147-158 | programming only clears bits: each byte of the page is ANDed |
| FlashStore.Store.Rewrite | flash_store.c:137-158 | erase and sixteen page programs make the sector equal to the buffer |
| FlashStore.Store.WriteSector | flash_store.c:127-158 | one turn of the loop replaces its part of the range and preserves every other byte of the chip |
| FlashStore.Store.Write | flash_store.c:119-162 | every byte of the chip after a write, aligned or not, with the 32-bit wrap of the range test |
| FlashStore.CoveredWriteIsSplice | flash_store.c:116-162 | an aligned or single-sector write replaces exactly the range |
| FlashStore.WriteSplicesExactly | flash_store.c:126 | a write is an exact splice for every content if and only if it starts on a sector boundary or stays in one sector |
| FlashStore.Store.WriteRepaired | flash_store.c:119-162 | with the loop stepping to the next sector base instead, every write in range is an exact splice, and a range that wraps still writes nothing |
| UserString.StringSurvivesRebootExactly | bidib_client_parser.c:262-281 | a string set is the one loaded after a reboot if and only if something of it is kept (1 to 24 characters before a NUL) |
| UserString.StringIsLoaded | bidib_client_parser.c:262-281 | the string loaded after a reboot is what came in front of the first NUL, at most its first 24 characters, or the string before if that is empty |
| UserString.StoreTouchesRecordOnly | flash_store.c:191-199 | storing a string changes nothing behind its record |
| UserString.StringStore.WriteRecord | flash_store.c:191-199 | writes length and characters, or nothing for an empty string |
| UserString.StringStore.SetString | bidib_client_parser.c:272-281 | RAM and flash after a string message |
| UserString.StringStore.LoadAtStart | flash_store.c:176-189 | loads the record, or reports an erased, empty or overlong one |
| LogRing.Ring.Used | log.c:29-31 | the number of bytes waiting |
| LogRing.Ring.Push | log.c:38-48 | the ring holds the newest 2047 bytes of what it held and what was pushed |
| LogRing.Ring.Poll | log.c:76-93 | sends the oldest bytes in order: as many as the UART takes, at most 512 |
| LogRing.RingIsWindow | log.c:38-48 | over every run the ring is a contiguous window that ends at the last byte pushed |
| LogRing.StepExactly | log.c:38-93 | in the history a push keeps the newest 2047 bytes, and a poll sends the oldest: all, or as many as the UART takes, or 512 |
| LogRing.DrainedInOrder | log.c:76-93 | over every run the bytes sent are pushed bytes at ascending positions: in order and none twice |
| LogRing.LosslessExactly | log.c:43-45 | the bytes sent followed by those in the ring are all bytes ever pushed, if and only if no push overran the ring |
| Throttle.FunctionsRoundTrip | bidib_client_parser.c:938-946 | a station that unpacks a drive message gets back the 29 functions |
| Throttle.FunctionPlaces | bidib_client_parser.c:938-946 | the bit of the message each of the 29 functions travels in |
| Throttle.SpeedRoundTrip | bidib_client_parser.c:937 | speeds 0 to 127 and the direction are read back |
| Throttle.EmergencyStopByte | bidib_client_parser.c:937 | the emergency stop byte is sent if and only if the speed is negative, or step 1 in reverse: the two cannot be told apart |
| Throttle.StationStaysInStep | withrottle_if.c:343-355 | a station in step stays in step when one function changes |
| Throttle.StateIsHistory | withrottle_if.c:284-322 | after any history a lockable or unlisted function is on if and only if its button went down an odd number of times since the locomotive was added; a labelled one that is not lockable, if it moved an odd number of times; F2 of an unlisted one is as its button was last seen |
| Throttle.ButtonExactly | withrottle_if.c:293-322 | which button events change and send, by press or release, roster label and lock |
| Throttle.SendsExactly | withrottle_if.c:261-447 | after any history a command sends a drive message if and only if a locomotive is in use and the command sets speed or direction, idles, or is a button that counts |
| Throttle.MessageShowsHistory | withrottle_if.c:343-355 | every drive message after any history shows the functions its buttons tell, the last speed, direction and address set; its mask is the speed bit, with the group of the function if one caused it |
| Throttle.StationFollows | withrottle_if.c:343-355 | a station that hears every message agrees on each function whose group was named since the locomotive was added |
| Throttle.StationKnowsSpeedExactly | withrottle_if.c:385-447 | the speed byte a station last heard is that of the slot if and only if no loss, release or quit came since, or the locomotive stood still then |
| Throttle.LostThrottleLeavesRunning | withrottle_if.c:60-66 | a throttle lost while it drives leaves the station at its last speed |
| Throttle.Engine.ThrottleStop | withrottle_if.c:60-66 | sets the slot's speed to 0 and nothing else; no message is sent |
| Throttle.Engine.LocoAdd | withrottle_if.c:164-168 | resets the 29 states, speed and direction |
| Throttle.Engine.LocoRelease | withrottle_if.c:223-257 | frees the slot and stops |
| Throttle.Engine.SendDrive | bidib_client_parser.c:926-946 | packs the state array bit by bit into the message of the abstract state |
| Throttle.Engine.LocoAction | withrottle_if.c:261-447 | each action moves the slot and sends the message of the abstract step; nothing without a locomotive |
| Throttle.Engine.SetFunction | withrottle_if.c:284-322 | toggles, follows or skips, by roster label, lock and button |

## Left out

- TxLink.Link.FifoPut: requires a size byte below 255; with 255 the 8-bit loop counter never passes it and the copy loop does not end.
- TxLink.Link.SendMessage: takes the message as type and data with a true size byte; which replies the program composes is not modelled.
- TxLink.Link.TxIsr: the chaining branch `bidib.c:142-148` is dead, because `bidib_tx_fill` is never raised, and is not modelled; nor is `bidib_start_parser_tx`, which has no caller.
- Client.Parser.RunClient: the outcome of the poll supervision is a parameter, and replies to dispatched messages are Send steps of the run model instead of calls.
- Client.Parser.ParsePacket: a message that starts behind the 64-cell packet array ends the loop as Overrun; the memory behind the array that a message inside may reach into is a parameter.
- Reception.CorruptedFrameDropped: the length byte is taken as undamaged, since a damaged one changes where the frame ends.
- RxBuffer.Buffer.Read: one step; that the index is 64 for an instant before it wraps is not visible. The counter `bidib_rx_fill` is never read.
- EndToEnd.RoundTrip: the interface that polls takes the answer for a packet without a word 0x100 in front; its code is not part of this model, and the receiver is this repository's parser fed behind that word. For frames with P_LENGTH up to 63; the sender's ring would allow 128, but no longer frame reaches the dispatcher whole (`Reception.DeliversExactly`).
- DhcpOptions.PaddedFoundExactly: for options with different codes; behind a second option of the same code nothing is looked for.
- FifoLimits.AckServesExactly: for a granted address that can be polled at all (`HalfDuplex.PollableExactly`).
- LineSafety.RunKeepsInv: a poll timeout while DE is high is excluded as an assumption on the environment.
- FlashStore.Chip.Program: one whole page at a page boundary, the only way it is called; SPI transfers, status polling, JEDEC probing and the whole-chip erase are not modelled.
- UserString.StringStore.LoadAtStart: the record lies at address 0, as configured.
- Features.FeatureStore.Handle: the replies as values, not their bytes; the test for FIFO room in front of streaming is always true in the code.
- DhcpServer.LeaseServer.Process: the UDP layer, packet buffers and the magic cookie; the ignored cases send nothing, as in the code.
- DhcpServer.LeaseServer.WriteReply: the option bytes; of the fixed header of the reply only `yiaddr` is modelled, as part of the abstract reply, and the bytes copied from the request are not.
- Throttle.Engine.LocoAction: a function number above 28 is outside the state array in the original and is excluded; text replies and number parsing are not modelled.
- Throttle.Engine.SendDrive: the message while connected, enabled and subscribed; otherwise the program drops it. The constant format byte is not modelled.
- Throttle.StationFollows: drive messages reach the station in order; how they travel is the subject of the bus link.
- LogRing.Ring.Poll: how many bytes the UART takes is a parameter; the formatting of log lines is not modelled.
- State machine programs, pins, busy waits, word timing and the collision test itself: hardware. Whether the bus is free is a parameter of a heard word.
- WiFi, TCP and mDNS callbacks, the HTTP server, the roster table, welcome and heartbeat texts: plumbing and strings; the roster is a parameter of the throttle.
- One-line responders (magic, version, pong, capacity) and guest responses that are only logged: easy members.
