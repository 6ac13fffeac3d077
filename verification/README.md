# EMS bus collector: a verified model

This project models the three stacked state machines through which the collector talks to a Buderus EMS
heating bus, and proves what they promise each other.

* **Framing.** The bus adapter firmware queues whole bus frames into a 250-byte ring from an interrupt and
  drains it byte by byte in a loop that the interrupt can cut anywhere (`Framer`, `EndToEnd`, `Crc`). The
  collector rebuilds messages from the serial bytes with a four-state automaton (`Deframer`, `Recovery`);
  `Frames` and `Messages` hold the frame and message formats, `Protocol` their numbers byte by byte.
* **Requests.** One scheduler serves several clients; each client's parser reassembles a piece of device
  memory from partial replies, with retries and chains of follow-up requests. `Scheduler` and `Requests`
  give both as functions on values, `Commands` as the objects they are, calling each other and updating
  themselves in place, each method proved to do what those functions say. `System` runs any number of
  clients against any sequence of events; `Connections` is one sender with its connections, proved to be
  such a system and to keep its invariant. `Service`, `Progress`, `Reassembly` and `Dialogue` say what
  clients can rely on.
* **Decoding, cache, history.** `Numbers` and `Decode` turn the window of parameter memory a message carries
  into values and keep the latest of each; `WriteThrough` follows an acknowledged setting from the typed
  number to the cache; `History` is the run-length encoded sensor history; `Texts` are switching times and
  holidays as text.

Messages, timers and answers of the database come in any order: a run is any sequence of events that can
happen. The response timeout may fire in any state, which covers a completion that was already queued when
the timer was cancelled; only the results on order and spacing assume that timers fire when set and that
the clock never goes back. A call reads the clock once. Device replies are arbitrary bytes unless a lemma asks
for honest devices. Proofs hide the definitions they do not need, to stay cheap.

Some expectations turn out to hold only under a condition, which is then proved exact:

* Decoding what was encoded gives the payload back exactly for payloads of 1 to 255 bytes
  (`Recovery.RoundTripExactly`); an empty payload silences the line for good (`Recovery.ZeroLengthSilences`).
* After garbage without a second sync mark, the next frame is received exactly if the garbage ends with an
  even number of first sync marks (`Recovery.ResyncExactly`).
* A client that is waiting is left busy for ever exactly when a message for the PC reaches it that does not
  answer its request, or answers it with too short a holiday or a type no command asks for
  (`Service.StrandedExactly`, `Service.StrandedForever`, `Service.ShortAnswerStrands`).
* OK after a write means that it was acknowledged, unless a reply fits an older read that was given up
  (`Progress.EchoedExactly`, `Progress.LateReplyEndsWrite`).
* A raw read is answered exactly if it asks a device address for offsets up to 255
  (`Dialogue.AnswerMatches`).
* A history row shows a sample exactly if the value was unchanged or its insert succeeded
  (`History.SampleShownExactly`).
* A switching time survives printing and parsing exactly if it is in the form the parser makes
  (`Texts.SchedulePrintParse`).
* The limits of a setting are checked after its fraction was dropped; `WriteThrough.AcceptedExactly` says
  which numbers pass.

## Model

| member | source | states |
|---|---|---|
| Crc.CalcChecksum | framer/main.c:41-58 | the register loop computes the buffer, read as a polynomial, modulo x^8+x^4+x^3+1 |
| Crc.CrcLinear | framer/main.c:41-58 | the checksum of a buffer with flipped bits is the checksum xor that of the flips, for any length |
| Crc.UndetectedExactly | framer/main.c:147-152 | a damaged frame is accepted exactly if the error pattern is itself an accepted frame |
| Crc.SingleByteRejected | framer/main.c:147-152 | any change of one data byte or of the checksum byte is rejected |
| Crc.CrcParity | framer/main.c:41-58 | the checksum's bit parity is that of all data bits |
| Crc.OddFlipsRejected | framer/main.c:147-152 | any odd number of flipped bits in data and checksum is rejected |
| Framer.Firmware.CopyToTxBuffer | framer/main.c:60-66 | one byte goes to the write position, which wraps at 250 |
| Framer.Firmware.AddTxData | framer/main.c:74-85 | length, payload and xor checksum follow what was put before |
| Framer.Firmware.EnoughTxSpace | framer/main.c:87-99 | there is enough space for a frame exactly if the unread bytes, its payload and five more fit into the ring together |
| Framer.Firmware.ReceiveInterrupt | framer/main.c:129-179 | handling all ready bytes is the run of single receive steps |
| Framer.Firmware.FinishFrame | framer/main.c:143-165 | a frame with a correct checksum is queued whole if there is room, otherwise nothing is |
| Framer.Firmware.MainLoopStep | framer/main.c:211-228 | test, read, write and advance are separate steps between which an interrupt may come |
| EndToEnd.PutAllExtends | framer/main.c:60-66 | bytes put into the ring extend the queue of unread bytes, across the wrap, while fewer than 250 |
| EndToEnd.FrameFits | framer/main.c:87-99 | an accepted frame goes in whole, the byte being read is not overwritten, and full is never empty |
| EndToEnd.MainStepKeepsLine | framer/main.c:211-228 | every step of the drain loop keeps the line and the ring two parts of the queued stream |
| EndToEnd.ReceiveKeepsInv | framer/main.c:129-179 | so does every received byte, at any point of the drain loop, and the frames queued are those heard that had room |
| EndToEnd.RunHears | framer/main.c:129-179 | the firmware takes in every byte of the bus, in order, whatever the main loop does in between |
| EndToEnd.VerdictsAreRooms | framer/main.c:143-165 | in every run, a valid bus frame is queued exactly if, when it ends, the bytes queued and not yet out of the ring leave room for it and five more |
| EndToEnd.BusToDeframer | framer/main.c:129-228 | for every interleaving and every cut into reads, the frames queued are the valid frames among the bytes the bus delivered that had room when they ended, and the messages delivered are a prefix of them, all of them once drained |
| EndToEnd.DrainsUnlessInterrupted | framer/main.c:211-228 | left alone, the loop empties the ring in four steps a byte |
| Frames.SendMessageImpl | collector/SendingSerialHandler.cpp:43-47 | the bytes sent are the frame of the message: marks, size modulo 256, payload, xor |
| Deframer.IoHandler.ReadComplete | collector/IoHandler.cpp:60-97 | a read leaves the state and delivers the messages of the automaton run over its bytes, and keeps buffer, position and checksum consistent |
| Deframer.IoHandler.HandleByte | collector/IoHandler.cpp:63-96 | one byte does what one step of the automaton does |
| Deframer.RunKeepsConsistent | collector/IoHandler.cpp:74-88 | in Data the buffer length is the position and the checksum the xor of the buffer, after any bytes |
| Deframer.ChunkingIrrelevant | collector/IoHandler.cpp:39-100 | the result does not depend on how the stream is cut into reads |
| Deframer.RunIsScan | collector/IoHandler.cpp:60-97 | the byte automaton delivers exactly the frames that reading the stream by whole frames finds |
| Recovery.DeliveredMessagesOccur | collector/IoHandler.cpp:60-97 | on any input, delivered messages occur in it as disjoint complete frames, in order |
| Recovery.ScanFits | collector/IoHandler.cpp:60-97 | the delivered frames together are not longer than the input |
| Recovery.RoundTrip | collector/SendingSerialHandler.cpp:43-47 | any sequence of encoded payloads of 1 to 255 bytes comes back exactly, and the rest of the stream is read in sync |
| Recovery.RoundTripExactly | collector/SendingSerialHandler.cpp:43-47 | a payload comes back exactly if its size is 1 to 255 |
| Recovery.ZeroLengthSilences | collector/IoHandler.cpp:80-87 | after a frame with length byte 0 nothing is ever delivered |
| Recovery.CorruptionContained | collector/IoHandler.cpp:80-95 | a changed payload or checksum byte costs that frame and no other |
| Recovery.GarbageScan | collector/IoHandler.cpp:64-73 | garbage without a second mark leaves only the parity of its trailing first marks |
| Recovery.ResyncExactly | collector/IoHandler.cpp:64-73 | the frame after such garbage is received exactly if that parity is even |
| Recovery.ResyncAll | collector/IoHandler.cpp:64-73 | then all frames that follow are |
| Messages.ParseSerialized | collector/EmsMessage.cpp:144-197 | the constructor from bytes undoes the serialisation |
| Messages.Layout | collector/EmsMessage.cpp:144-197 | sender, destination, type, offset, data, in this order; fewer than four bytes are no message |
| Messages.WireRoundTrip | collector/EmsMessage.cpp:144-197 | messages sent over the line come back as they were, whatever the cut into reads |
| Commands.EmsCommandSender.HandlePcMessage | collector/CommandScheduler.cpp:23-32 | note the contact, let the current client react, even re-enter, go on with the queue |
| Commands.EmsCommandSender.HandleResponseTimeout | collector/CommandScheduler.cpp:44-56 | let the current client repeat or give up, go on with the queue |
| Commands.EmsCommandSender.SendMessage | collector/CommandScheduler.cpp:34-42 | queue, and start if idle |
| Commands.EmsCommandSender.ContinueWithNextRequest | collector/CommandScheduler.cpp:87-98 | the first entry becomes current and is dispatched; none makes the scheduler idle |
| Commands.EmsCommandSender.Dispatch | collector/CommandScheduler.cpp:58-77 | send now, or by timer if the device was contacted within 100 ms |
| Commands.EmsCommandSender.HandleCancelledSend | collector/CommandScheduler.cpp:68-72 | the handler of a cancelled delayed send transmits all the same |
| Commands.ApiCommandParser.OnIncomingMessage | collector/ApiCommandParser.cpp:1033-1095 | state, messages sent, lines, simulated broadcast and verdict for every message |
| Commands.ApiCommandParser.HandleResponse | collector/ApiCommandParser.cpp:1097-1248 | continuation, follow-up or result for every message type |
| Commands.ApiCommandParser.LoopOverResponse | collector/ApiCommandParser.cpp:1250-1275 | whole records are numbered and printed up to the first empty one, then more is requested if needed |
| Commands.ApiCommandParser.OnTimeout | collector/ApiCommandParser.cpp:1277-1291 | one retry less, the same request again, or giving up at none |
| Commands.ApiCommandParser.ContinueRequest | collector/ApiCommandParser.cpp:1455-1469 | asks for the missing bytes, or says that there are none |
| Commands.ApiCommandParser.StartRequest | collector/ApiCommandParser.cpp:1436-1453 | a fresh transaction; the list counter restarts only for new requests |
| Commands.ApiCommandParser.HandleSingleByteValue | collector/ApiCommandParser.cpp:719-744 | sends the truncated, range-checked number as one byte, or nothing |
| Connections.CommandHandler.StartConnection | collector/CommandHandler.cpp:61-66 | adds a client without a request and keeps the ownership invariant of the objects |
| Connections.CommandHandler.HandleRequest | collector/CommandHandler.cpp:98-131 | a command on one connection is one submission step of the whole system, other clients unchanged |
| Connections.CommandHandler.HandlePcMessage | collector/CommandScheduler.cpp:23-32 | with all re-entrant calls of the objects, one message step of the whole system; the ownership invariant holds of the objects again |
| Connections.CommandHandler.HandleResponseTimeout | collector/CommandScheduler.cpp:44-56 | the same for an expired response timeout |
| Connections.CommandHandler.Run | collector/main.cpp:180 | the objects follow any possible run of the system and output to each client what it is told there, so every result about runs is one about them |
| Scheduler.ContinueOrderly | collector/CommandScheduler.cpp:58-98 | taking the next request keeps order, 100 ms from every earlier transmission to the device, and at most one timer |
| Scheduler.DispatchExactly | collector/CommandScheduler.cpp:58-85 | a message waits exactly if its device was contacted within 100 whole milliseconds, until 100 ms after that contact; sending sets a timeout of one second |
| System.StepKeepsOwned | collector/CommandScheduler.cpp:23-98 | every event keeps the ownership invariant, moves entries up by at most one and appends at most one |
| System.RunSubmits | collector/CommandScheduler.cpp:34-42 | the scheduler is handed exactly what clients send, in order |
| System.SentAtItsEvent | collector/CommandScheduler.cpp:79-85 | every transmission happens in an event, at its time, and none is ever taken back |
| System.TimeoutAfterASecond | collector/CommandScheduler.cpp:44-56 | in every run the response timeout, if set, is one second after the last transmission |
| System.NextCommandQueued | collector/CommandScheduler.cpp:23-42 | a client that hears OK and sends its next command from the callback has it queued last in the same event |
| Service.EveryRunSafe | collector/CommandScheduler.cpp:23-98 | in every run: one entry per client, equal to its active request; no current client, no queue; a timer is set while someone is current; every message a client sends is on the wire, waiting or queued exactly once |
| Service.QueueBounded | collector/CommandScheduler.cpp:34-42 | there are never more entries than clients |
| Service.QueueAdvances | collector/CommandScheduler.cpp:87-98 | a request at place k is current after exactly k responses, whatever other clients do |
| Service.CompletionBounded | collector/CommandScheduler.cpp:23-77 | if messages for the PC answer the request in flight, every accepted command is decided within a bounded number of responses, and of scheduler events of any kind, send timers included |
| Service.ReadCompletes | collector/CommandScheduler.cpp:23-77 | for a read, at most ten events per client and byte of its chain, one per client, and one per message left to send |
| Service.NeverStuck | collector/CommandScheduler.cpp:44-77 | while anyone waits, some timer is set and can fire |
| Service.TimersDecide | collector/CommandScheduler.cpp:44-77 | with a dead bus, timers alone bring every waiting client to a result, in a bounded number |
| Service.SendsWithinBudget | collector/ApiCommandParser.cpp:1455-1482 | until its result, all a client sends is within the budget of its request, whatever the bus does |
| Service.ReadSendsBounded | collector/ApiCommandParser.cpp:1455-1482 | a read command sends at most five messages per byte of its chain |
| Service.StrandedExactly | collector/ApiCommandParser.cpp:1060-1095 | a waiting client loses its turn for good exactly on a message that does not answer it, a holiday answer that is too short, or one of a type no command asks for |
| Service.StrandedForever | collector/ApiCommandParser.cpp:59-63 | such a client's parser never changes again, so it refuses every command |
| Service.ShortAnswerStrands | collector/ApiCommandParser.cpp:1197-1203 | a vacation query answered with no data does it |
| Service.HonestRunsCorrect | collector/ApiCommandParser.cpp:1060-1086 | from the start, loss, delay, repetition, reordering and other clients never spoil what is collected from honest devices; raw reads and contact queries that end with OK show the whole slice asked for, and other lines what the memory holds |
| Service.ReadCommandInRun | collector/ApiCommandParser.cpp:1076-1239 | in any run with honest devices, a command with one answer that a reply ends with OK shows the piece of memory it is for: raw data and contact texts cut only at the end, holidays whole, the others as far as received |
| Service.VersionsInRun | collector/ApiCommandParser.cpp:1100-1129 | in any run with honest devices, a version command that ends with OK has told its client three lines: boiler, base controller and room controller |
| Service.ListCommandInRun | collector/ApiCommandParser.cpp:1130-1275 | in any run with honest devices, a list command tells its client the records of the piece it is for, counted from one, up to an empty record, the whole length or the end |
| Service.ListInRun | collector/ApiCommandParser.cpp:1250-1275 | the same from any point of a list on, so also for the second list of a chain |
| Service.DisciplinedRunsAreOrderly | collector/CommandScheduler.cpp:58-98 | from the start, while no message for the PC meets an armed delayed send, messages go out in the order clients sent them, each once, at least 100 ms after every earlier transmission to their device and after every message from it |
| Progress.MessagePays | collector/ApiCommandParser.cpp:1033-1095 | a relevant message decides or is answered by one message its bytes pay for; any other changes nothing |
| Progress.TimeoutPays | collector/ApiCommandParser.cpp:1277-1291 | a timeout costs one retry or ends the request |
| Progress.GivesUpExactly | collector/ApiCommandParser.cpp:1277-1291 | without an answer a request is repeated until its retries are used up, and given up exactly then |
| Progress.CommandPays | collector/ApiCommandParser.cpp:1436-1482 | a read starts with five transmissions per byte of its chain; a write with five plus what an unfinished read can still set off |
| Progress.FailsExactly | collector/ApiCommandParser.cpp:1197-1244 | which replies make the client hear FAIL |
| Progress.EchoedExactly | collector/ApiCommandParser.cpp:1045-1094 | a message ends a command with OK and its simulated broadcast exactly if it is an acknowledgement that is no refusal; any other OK needs a reply that fits the last read |
| Progress.RawReplyEndsExactly | collector/ApiCommandParser.cpp:1066-1086 | a reply ends a raw read exactly if it fits and completes it or says that there is no more |
| Progress.LateReplyEndsWrite | collector/ApiCommandParser.cpp:1060-1094 | so the late reply to a given-up read can end a write with OK, unacknowledged |
| Reassembly.ReassemblySafe | collector/ApiCommandParser.cpp:1060-1072 | the response is always the memory slice from the requested offset on |
| Reassembly.RawReadCorrect | collector/ApiCommandParser.cpp:1076-1086 | a raw read that ends with OK prints a slice inside the memory, which has the length asked for or reaches the end |
| Reassembly.ContactCorrect | collector/ApiCommandParser.cpp:1227-1239 | a contact query that ends with OK prints such a slice, a line for every 21 bytes, up to its first zero |
| Reassembly.AnswersExactly | collector/ApiCommandParser.cpp:1097-1217 | every reply for a version, maintenance state, schedule name, vacation or holiday is shown as exactly the lines its bytes in the device's memory make; data that is only passed on shows nothing |
| Reassembly.LoopIsMaximalRun | collector/ApiCommandParser.cpp:1250-1268 | the records printed are the maximal run of whole non-empty ones, consecutively numbered, the position a whole number of records |
| Reassembly.ListReply | collector/ApiCommandParser.cpp:1250-1275 | after each reply, the lines so far are those of the whole buffer parsed at once |
| Reassembly.ListCorrect | collector/ApiCommandParser.cpp:1130-1147 | through any conversation with honest devices a list prints one memory slice, reaching an empty record, the requested length or the end when a reply ends it |
| Reassembly.ListCommandCorrect | collector/ApiCommandParser.cpp:1130-1217 | the same for the list commands, counting from one |
| Reassembly.NextListStarts | collector/ApiCommandParser.cpp:1130-1147 | an error list that ends without a result is followed by the next list of the device, counted on, with everything above true of it again |
| Dialogue.KeepsAsking | collector/ApiCommandParser.cpp:1455-1469 | an undecided parser always asks for exactly the bytes still missing |
| Dialogue.AnswerMatches | collector/ApiCommandParser.cpp:1060-1065 | a direct answer is taken exactly if a device address was asked and the offset fits into a byte |
| Dialogue.CommandAsksForItsPieces | collector/ApiCommandParser.cpp:1076-1226 | answered in full, every read command, raw reads included, asks for exactly its pieces of memory in order and ends with OK |
| Dialogue.PartialReplyGoesOn | collector/ApiCommandParser.cpp:1153-1161 | raw reads, circuit settings and contact texts go on with a request for exactly the rest |
| Dialogue.AnyReplyMovesOn | collector/ApiCommandParser.cpp:1097-1244 | the other answers are taken as they come and the next piece is asked for, or the command ends |
| Protocol.CommandOnWire | collector/ApiCommandParser.cpp:1436-1482 | the first message of every command, byte by byte |
| Protocol.EchoOnWire | collector/ApiCommandParser.cpp:1047-1054 | the simulated broadcast of a write, byte by byte |
| Protocol.EmptyRecordExactly | collector/ApiCommandParser.cpp:1293-1334 | a record ends a list exactly if it prints as nothing: time 0x90 or more, first error byte zero |
| Protocol.ErrorLetters | collector/ApiCommandParser.cpp:1134-1139 | error lists are marked L, B, S and D |
| Numbers.DecodeNumber | collector/EmsMessage.cpp:34-79 | the loop and sign handling give two's complement or unsigned numbers, with the reserved patterns invalid |
| Numbers.SignedRoundTrip | collector/EmsMessage.cpp:47-58 | every signed number of the field comes back; only the smallest means no reading |
| Numbers.UnsignedRoundTrip | collector/EmsMessage.cpp:59-62 | every unsigned number comes back; only the largest means no reading |
| Numbers.TemperatureValidExactly | collector/EmsMessage.cpp:28-32 | a temperature is invalid exactly for -32768, 32000 and -32000 tenths |
| Decode.MessageParser.ParseNumeric | collector/EmsMessage.cpp:352-362 | adds the field to those parsed, with its own patterns for no reading |
| Decode.FieldShown | collector/EmsMessage.cpp:343-372 | whatever window of a device's memory a message carries, a field inside it has the value of its own place in the memory, and a field outside has none |
| Decode.MessageParser.ParseUBAErrorMessage | collector/EmsMessage.cpp:482-501 | emits the records of the window from the first aligned one on |
| Decode.ErrorWindow | collector/EmsMessage.cpp:482-501 | those are exactly the records of 12 bytes lying fully inside the window, in increasing index, each with the bytes of its own place in the device's memory |
| Decode.MessageParser.ParseRCHKOpmodeMessage | collector/EmsMessage.cpp:550-603 | emits the settings of a heating circuit in order, by room controller and floor heating |
| Decode.MessageParser.Handle | collector/EmsMessage.cpp:225-295 | dispatch by source and type; invalid messages and polls give nothing |
| Protocol.BoilerParameters | collector/EmsMessage.cpp:503-515 | what every byte of the boiler parameters means |
| Protocol.ControllerParameters | collector/EmsMessage.cpp:542-547 | what every byte of the room controller parameters means |
| Protocol.CircuitSettings | collector/EmsMessage.cpp:550-603 | what every byte of a heating circuit's settings means, by circuit, controller and floor heating |
| Protocol.OtherMessages | collector/EmsMessage.cpp:225-252 | which messages are error lists, and which say nothing |
| Decode.ValueCache.HandleValue | collector/ValueCache.cpp:31-37 | replaces the entry of that type and subtype and no other |
| Decode.IncomingMessageHandler.HandleIncomingMessage | collector/IncomingMessageHandler.cpp:35-43 | under the key of each value of the message the cache holds the last one with that key, every other key is as before; messages for the PC are passed on |
| WriteThrough.AcceptedExactly | collector/ApiCommandParser.cpp:727-741 | which typed numbers pass the range check |
| Protocol.SettingLimits | collector/ApiCommandParser.cpp:517-714 | the numbers each setting takes |
| Protocol.SettingOnWire | collector/ApiCommandParser.cpp:719-744 | the bytes each setting is written with |
| WriteThrough.Int8Lossless | collector/ApiCommandParser.cpp:737-742 | the byte sent decodes to the number, without loss |
| WriteThrough.SettingDecoded | collector/EmsMessage.cpp:550-603 | the simulated broadcast of a setting decodes to that setting and nothing else |
| WriteThrough.SettingWaits | collector/ApiCommandParser.cpp:1277-1291 | a setting stays the active request through up to four timeouts |
| WriteThrough.AcknowledgedSettingIsCached | collector/ApiCommandParser.cpp:1045-1058 | a setting acknowledged while it is active, at once or after repetitions, is in the cache under its own name, less than one step from the typed number, every other entry unchanged |
| WriteThrough.RefusedSettingIsNot | collector/ApiCommandParser.cpp:1045-1058 | a refused one gives FAIL and nothing for the cache |
| History.Database.CheckAndUpdateRateLimit | collector/Database.cpp:285-306 | lets a sample pass if the limit is off or has elapsed, and remembers it then |
| History.Database.AddNumericValue | collector/Database.cpp:444-473 | under the rate limit, extends the newest row and inserts on change; the other tables and the shared ids of their sensors do not change |
| History.Database.AddBooleanValue | collector/Database.cpp:475-504 | the same without limit |
| History.Database.AddStateValue | collector/Database.cpp:506-535 | the same for state texts |
| History.TablesApart | collector/Database.cpp:444-535 | any mixture of readings of the three kinds does to each table what its own samples do |
| History.AlwaysNamesNewestRow | collector/Database.cpp:444-535 | for every mixture of readings, on top of any rows, however queries fail: the remembered id names the newest row of every sensor of every kind, the remembered value is that row's, and earlier rows stay as they were |
| History.SampleShownExactly | collector/Database.cpp:453-472 | the newest row shows a sample exactly if it was unchanged or its insert succeeded |
| History.DatabaseFaithful | collector/Database.cpp:444-535 | for every mixture of readings, on top of any rows, when all queries succeed: earlier rows stay; new rows of every sensor are gapless, adjacent ones differ, every sample taken in lies in a row of its value and every row begins with one |
| History.WritesApart | collector/Database.cpp:285-306 | in every mixture of readings, numeric samples taken in are at least the limit apart, and the next is taken in exactly if those of its sensor are that far back |
| History.Unlimited | collector/Database.cpp:285-306 | without a limit every numeric sample is taken in, in order; without a connection nothing changes |
| History.EarlierRowsUntouched | collector/Database.cpp:459-472 | in every run, whatever the answers, rows of earlier processes stay as they are and make no difference |
| Texts.ParseScheduleEntry | collector/ApiCommandParser.cpp:1335-1394 | accepts exactly the texts that are, between blanks, the word for unset or a day name, a clock time in whole tens of minutes and on or off, and returns what they say |
| Texts.ParseScheduleExactly | collector/ApiCommandParser.cpp:1335-1394 | the same of the specification function that the round trips are about |
| Texts.SchedulePrintParse | collector/ApiCommandParser.cpp:1320-1394 | printing and parsing a switching time gives its normal form, the same entry exactly if it was normal |
| Texts.ScheduleText | collector/ApiCommandParser.cpp:1320-1331 | the text of a switching time, letter by letter |
| Texts.HolidayText | collector/ApiCommandParser.cpp:1396-1403 | the text of a date, letter by letter |
| Texts.NumberTexts | collector/ApiCommandParser.cpp:1379-1381 | digits with an optional sign are numbers of 32 bits, a minus counts down from 2^32 |
| Texts.NotNumberTexts | collector/ApiCommandParser.cpp:1379-1381 | no other text is a number |
| Texts.Blanks | collector/ApiCommandParser.cpp:1335-1350 | words are separated by spaces and the control characters 9 to 13 |
| Texts.ScheduleParsePrint | collector/ApiCommandParser.cpp:1320-1394 | a parsed text is normal or unset; printing it gives a text that parses to the same entry |
| Texts.ParseHolidayExactly | collector/ApiCommandParser.cpp:1405-1434 | the texts accepted as dates are exactly year, month and day inside the calendar, between two hyphens |
| Texts.HolidayPrintParse | collector/ApiCommandParser.cpp:1396-1434 | a date comes back exactly if it is inside the calendar the parser accepts |
| Texts.HolidayParsePrint | collector/ApiCommandParser.cpp:1405-1434 | a parsed date is inside that calendar and prints to a text with the same date |
| Texts.BeginAcceptedExactly | collector/ApiCommandParser.cpp:765-776 | the begin/end check is the order of the calendar |

## Left out

- Sockets, serial ports, watchdog, signals, daemon and pid file: input and output only; a read is a byte buffer, a write a byte sequence.
- MQTT client, web pages, graphs, options: an MQTT client appears only as a client that submits its next command inside the callback of a result.
- Command texts: commands start where they are recognised; on/off, mode and enumeration settings are the one command that writes given bytes.
- Formatting of output lines: lines carry the record, not its text, except switching times and holidays; the greeting line of `getversion` is not there.
- Bytes read behind the end of a short version, maintenance or schedule reply: shown as absent in the output line, since their value is undefined.
- Decode.MessageParser.Handle: covers errors, boiler parameters, room controller parameters and heating circuit settings; of every other message type it says only that it does not cover it, because each would be one more fixed list of fields.
- Database connection and table creation: tables are given; the database is asked for its answers.
- Values shown to the database by message decoding: the mapping from value types to sensors is a finite table.
- Floating point: readings are an integer and a divider, typed settings and numeric samples are exact numbers.
- Clock: a handler sees one time; times in the scheduler are microseconds, in the history seconds.
- Closing of connections: clients may be added, but stay for the whole run.
- Service.DisciplinedRunsAreOrderly: does not cover runs where a message for the PC meets an armed delayed send, because the cancelled send then goes out at once and out of order; conservation still holds there.
- Decode.MessageParser.ParseRCHKOpmodeMessage: floor heating is looked up in the cache as it was when the handler was made, as in the source, not in the live one.
- Splitting of `readComplete`, `loopOverResponse`, `parseRCHKOpmodeMessage` and the receive interrupt into smaller methods follows their blocks and changes nothing they do.
