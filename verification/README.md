# The Megasquirt serial link, modelled and proved

A Dafny model of the "newserial" link between a Megasquirt ECU (here the simulator in `ecuSim/`) and the polling
daemon `ms2d`, with what surrounds it: the CRC that guards each frame, the configuration pages behind the commands,
the codecs and files around those pages, the daemon's shared OUTPC block, and the INI sections that tell it which
fields there are. `dafny verify dfyconfig.toml` checks everything.

| module | what it models | main results |
|---|---|---|
| `BitOps`, `Bytes`, `PythonInt` | exclusive or on words, octets and slices, Python's unbounded two's-complement integers | bit-by-bit laws the rest builds on |
| `Crc32`, `CrcDetection`, `CrcPolynomial` | the loops of `ms2d_crc32` | it is the V.42 frame check sequence; affine; every burst of up to 32 bits is seen |
| `Framing` | one-byte `F` commands mixed with checksummed frames | progress, resumable parsing, round trip, containment of damage |
| `PageStore`, `WireCommands` | the commands and the configuration pages | over every run the pages are a plain byte memory; upload, read and checksum agree; every command by the bytes of request and reply |
| `Protocol` | `SerialProtocol` and `RequestBuffer` as classes, and sessions over them | independence of chunking; a page uploaded over an arbitrarily cut stream |
| `PageFile`, `Simulator` | the saved-pages file, start, drain loop and exit | save/load round trip, truncation, when a restart keeps the tune |
| `SerialComm`, `Poll` | the C client's exact reads and writes, one exchange, one poll | when exactly an exchange succeeds; what a poll leaves in the block |
| `Exchange`, `Dialogue` | client and ECU joined by two pipes, stepping in any order; commands one after the other | each command its own reply, nothing left over, no deadlock, completion |
| `LateReplies` | exchanges that fail, and the ones after them | waiting replies shift all later ones; when replies stay matched |
| `Codec`, `PageBuilder`, `TuneFile` | raw values, tune constants written into pages, a whole tune file | best approximation, order independence, read back |
| `Decoder`, `OutpcBuilder` | the daemon's decoder and the simulator's realtime block | what decodes to what was meant, and when it does not |
| `Snapshot` | poll thread and RPC readers under one mutex | no torn replies |
| `IniLines`, `Conditions`, `IniText`, `DeepNesting` | raw INI lines and the `#if` stacks | from the text on, the stack machine is block semantics; which deeper documents are read right |
| `CustomFields` | the custom field merge | lookups after a merge |
| `Capture` | capture files | every prefix loads to its whole frames |

Conventions: a byte is an integer 0..255. Python exceptions that escape are outcomes (`Raised`, `None`). Code that
updates objects, bytearrays or C arrays is a method proved equal to a function of the old state; the laws are lemmas
about that function. The operating system enters as a script: for each wait-and-transfer, a timeout, an error, an
interruption, or some number of bytes.

Findings: promises the code keeps only under a condition. Each has an input at which it fails and the exact condition,
both proved.

| finding | source | holds exactly when | input where it fails |
|---|---|---|---|
| The simulator's inner loop answers every waiting command. `get_next_response` also returns `None` after it dropped junk, so commands may wait for later turns (`Simulator.TurnsServeEverything`). | ecuSim/simulator.py:219-229 | the waiting commands stand at the front of the buffer without junk before or between (`Simulator.DrainServesAllExactly`, unless an error escapes) | one junk byte before an `F` (`Simulator.JunkDelays`) |
| `r` answers every range. | ecuSim/src/protocol.py:253 | at most 65534 bytes are to be sent (`PageStore.ReadAndCheckAgree`) | 65535 bytes of a table without a page (`PageStore.LongReadRaises`) |
| The daemon can fetch any block the simulator frames. | work-ms2d-daemon/ms2d/src/serial_comm.c:219-222 | the block has at most 4095 bytes (`Poll.PollFetchesBlock`) | 4096 bytes (`Poll.LongBlockRefused`) |
| A command over 1024 bytes has no effect. The ECU skips its length bytes one at a time and reads the rest as a stream (`Framing.OversizeUnwraps`). | ecuSim/src/protocol.py:115-117 | it yields no command: exactly when its first length byte is no `F` and none comes of the second and what follows (`Framing.OversizeSilentExactly`); the commands sent behind it are all that is seen exactly when it moreover leaves nothing waiting, or one byte above 4 (`Framing.HarmlessExactly`, for any bytes) | 1030 bytes of `F`, each of them answered (`Framing.OversizeOfQueries`) |
| A restart under any tune brings the pages back. | ecuSim/simulator.py:253-262 | they came from the pages file or were modified (`Simulator.RestartPreservesTune`) | two tunes filled with different bytes (`Simulator.RestartFrom`) |
| The daemon decodes unsigned 32-bit fields. | work-ms2d-daemon/ms2d/src/decoder.c:57-63 | the raw value is below 2^31 (`Decoder.ScalarDecodes`) | 2^31 (`Decoder.HighBitDecodesNegative`) |
| The daemon decodes what the simulator puts into its block. The two use different formulas. | ecuSim/src/outpc_builder.py:262-265 | for values that some raw value stands for: no translation, or scale 1 (`OutpcBuilder.ChannelDecodesExactly`); for any value: a raw value that decodes to it survives the difference of the formulas (`OutpcBuilder.AnySurvivesExactly`) | scale 0.05555 and translation -320, the Celsius temperatures (`OutpcBuilder.TemperatureDecodesWrong`); a value between two steps (`OutpcBuilder.BetweenStepsIsLost`) |
| Every bit field of a tune reads back. The encoder rewrites one byte only. | ecuSim/src/page_builder.py:158-166 | the value's window stays inside the first byte, else the encoder raises (`PageBuilder.MergedIsByte`), and the bits of its range beyond that byte are clear in the page (`PageBuilder.ReadsBackExactly`) | 16 in bits 4 to 11 raises (`PageBuilder.WideValueRaises`); 15 next to a byte of ones is written and does not read back (`PageBuilder.WideMisread`) |
| The daemon reads nested conditions as they are meant. The 65th nested `#if` is ignored, its `#endif` is not. | work-ms2d-daemon/ms2d/src/ini_parser.c:315-321 | its stack is the true one throughout exactly up to depth 64 (`Conditions.DepthIsExact`), and no greater depth is safe for every document (`DeepNesting.BoundIsExact`); a given document without `#else` is read right exactly when one pass over its blocks, with two numbers for the stack, says so (`DeepNesting.ReadRightExactly`) | a document of depth 65 (`DeepNesting.DeepNestingDiffers`) |
| A reply belongs to the command it is returned for. Frames carry no number, and `tcflush` at reopening drops only what has come by then. | work-ms2d-daemon/ms2d/src/serial_comm.c:206-252 | whatever is asked and answered: nothing is waiting on the port (`LateReplies.AlwaysMatchedExactly`); for given replies: the queue of waiting and new ones begins with the new ones (`LateReplies.MatchedExactly`) | the signature asked for in vain, then the realtime block (`LateReplies.LateSignature`) |
| A refused merge leaves the field table alone. | work-ms2d-daemon/ms2d/src/ini_parser.c:468-471 | the first definition of every name has no custom one, or is already the last custom one (`CustomFields.RefusedMergeKeepsExactly`) | a full table, one replacement and one new name (`CustomFields.RefusedMergeReplaces`) |

## Model

| member | source | states |
|---|---|---|
| `Crc32.ComputeCrc32` | work-ms2d-daemon/ms2d/src/util.c:12-28 | the nested loops, step for step, compute the checksum of exactly the first `len` bytes |
| `Crc32.RunIsFeed` | work-ms2d-daemon/ms2d/src/util.c:16-25 | the byte-wise register equals one fed the message bit by bit, least significant bit first |
| `Crc32.StepLinear` | work-ms2d-daemon/ms2d/src/util.c:19-23 | the conditional shift distributes over exclusive or |
| `CrcPolynomial.ChecksumIsFrameCheckSequence` | work-ms2d-daemon/ms2d/src/util.c:12-28 | a 32-coefficient polynomial is the frame check sequence ITU-T V.42, section 8.1.1.6.2 defines for the message if and only if it is the reflected checksum |
| `CrcPolynomial.DivisionUnique` | work-ms2d-daemon/ms2d/src/util.c:12-28 | division by the generator over GF(2) has one quotient and one remainder |
| `CrcPolynomial.FeedDivides` | work-ms2d-daemon/ms2d/src/util.c:16-25 | the register after any message is the remainder of start value and message divided by the generator |
| `CrcDetection.ChecksumAffine` | work-ms2d-daemon/ms2d/src/util.c:12-28 | crc(a) xor crc(b) xor crc(c) is crc(a xor b xor c) for equal lengths |
| `CrcDetection.FeedInjective` | work-ms2d-daemon/ms2d/src/util.c:16-25 | different registers stay different under any common message |
| `CrcDetection.WindowInjective` | work-ms2d-daemon/ms2d/src/util.c:16-25 | from one register, different windows of at most 32 bits leave different registers |
| `CrcDetection.BurstDetected` | work-ms2d-daemon/ms2d/src/util.c:12-28 | messages that differ only within 32 consecutive bits have different checksums |
| `CrcDetection.ByteBurstDetected` | work-ms2d-daemon/ms2d/src/util.c:12-28 | the same for any change within four consecutive bytes |
| `Framing.TakesFromFront` | ecuSim/src/protocol.py:348-368 | a call leaves a suffix of the buffer, never other bytes |
| `Framing.QuiescentIsShort` | ecuSim/src/protocol.py:109-134 | a call shortens the buffer or changes nothing; a buffer no call changes holds at most 1029 bytes and no command |
| `Framing.CallsReachQuiescence` | ecuSim/src/protocol.py:348-368 | as many calls as there are bytes reach a fixed point from any contents, and it is what a parse of the whole leaves |
| `Framing.TakenIsEncoded` | ecuSim/src/protocol.py:348-368 | what a call takes as a command is exactly that command's encoding |
| `Framing.FrameBytes` | ecuSim/src/protocol.py:96-100 | a frame's size and checksum are written high byte first, around the data |
| `Framing.AcceptsExactly` | ecuSim/src/protocol.py:102-134 | a call takes an `F` if and only if byte 0x46 comes first, and a payload if and only if it has 1 to 1024 bytes and its frame comes first; exactly these bytes go |
| `Framing.SkipsExactly` | ecuSim/src/protocol.py:102-134 | a call without a command drops one byte of a bad size, drops a whole frame with a bad checksum, and otherwise waits for bytes that are missing |
| `Framing.OversizeUnwraps` | ecuSim/src/protocol.py:112-117 | every frame of more than 1024 bytes parses as its second length byte, data and checksum read as a stream, behind an `F` if its first length byte is one |
| `Framing.ByteInFront` | ecuSim/src/protocol.py:102-134 | that length byte is an `F`, or with the next byte a length of at most 1024 whose frame is complete and then accepted or dropped by its checksum, or skipped |
| `Framing.OversizeSilentExactly` | ecuSim/src/protocol.py:102-134 | such a frame yields no command if and only if neither its first length byte nor the second with what follows does |
| `Framing.OversizeExecutes` | ecuSim/src/protocol.py:102-134 | every command encoded at the front of such data is accepted, in order, unless second length byte and first data byte make a length of 1 to 1024 |
| `Framing.OversizeOfQueries` | ecuSim/src/protocol.py:102-134 | 1030 bytes of `F` in one frame give at least 1030 `F` commands, first of all |
| `Framing.HarmlessExactly` | ecuSim/src/protocol.py:102-134 | whatever bytes went before, any commands sent behind are parsed as if alone if and only if those bytes yield no command and leave nothing waiting, or one byte above 4 |
| `Framing.TakeIsStable` | ecuSim/src/protocol.py:102-134 | once a call makes progress, later bytes cannot change what it took |
| `Framing.StreamResumes` | ecuSim/src/protocol.py:102-134 | parsing a stream equals parsing any front of it and going on from the waiting bytes |
| `Framing.RoundTrip` | testingTools/capture_ecu_outpc.py:41-45 | the encodings of any list of `F`s and 1..1024-byte payloads parse back to that list, and whatever follows is parsed as if alone |
| `Framing.RoundTripAlone` | ecuSim/src/protocol.py:102-134 | with nothing following, exactly the list and an empty buffer |
| `Framing.EncodingInjective` | testingTools/capture_ecu_outpc.py:41-45 | different command lists have different encodings |
| `Framing.DamageTaken` | ecuSim/src/protocol.py:125-134 | a frame whose checksum no longer matches yields no command and is dropped whole |
| `Framing.DamageIsContained` | ecuSim/src/protocol.py:102-134 | a frame hit by a burst of up to 32 payload bits yields nothing, while every command before and after it is delivered |
| `PageStore.RequestEffect` | ecuSim/src/protocol.py:136-180 | for every byte of every table: a fitting write changes exactly its range, nothing else changes anything, page sizes stay, and when the flag rises |
| `PageStore.StoreIsMemory` | ecuSim/src/protocol.py:136-334 | after any run every byte is that of the last write covering it, else the initial one; pages exist where they did or were written, and never change size |
| `PageStore.UnmodifiedRequest` | ecuSim/src/protocol.py:276-295 | a request that is no write, or a write past its page's end, changes nothing at all |
| `PageStore.ModifiedExactly` | ecuSim/src/protocol.py:276-295 | the flag is up exactly when some request of the run was a write that fits or names a new table; while it is down the store is the initial store |
| `PageStore.ReadAndCheckAgree` | ecuSim/src/protocol.py:200-322 | `r` and `k` of one range of a table that is not shadowed speak of the same memory bytes; `r` raises exactly when they exceed 65534, `k` never |
| `PageStore.LongReadRaises` | ecuSim/src/protocol.py:200-257 | 65535 bytes of a table without a page: `r` raises, `k` answers |
| `PageStore.RunSplits` | ecuSim/src/protocol.py:136-180 | a run of requests may be cut anywhere |
| `PageStore.UploadLands` | ecuSim/src/protocol.py:259-297 | consecutive chunk writes put exactly their concatenation at the offset of the page |
| `PageStore.PageSynchronised` | ecuSim/src/protocol.py:200-322 | any image of a page, written in any chunks, is what a full read returns and what a full check confirms |
| `WireCommands.RealtimeRead` | ecuSim/src/protocol.py:226-234 | whatever the pages hold, `r` of table 0x07 answers flag 1 and the selected bytes of the realtime block |
| `WireCommands.SignatureRead` | ecuSim/src/protocol.py:212-224 | whatever the pages hold, `r` of tables 0x0F and 0x0E answers flag 0 and the selected bytes of the signature filled with zeros to 20 and to 60 bytes |
| `WireCommands.PageRead` | ecuSim/src/protocol.py:236-257 | `r` of any other table answers flag 0 and the selected bytes of its page, or so many zeros without one |
| `WireCommands.ShadowedIgnoresWrites` | ecuSim/src/protocol.py:200-234 | no run of requests changes what `r` answers for the three tables |
| `WireCommands.Writes` | ecuSim/src/protocol.py:259-297 | by the bytes of the request, every byte of every table after a `w`, the sizes, the flag and the empty reply; a new page has 1024 zeros |
| `WireCommands.Checks` | ecuSim/src/protocol.py:299-322 | `k` answers the checksum, high byte first, of the selected bytes of the page or of so many zeros |
| `WireCommands.OtherCommands` | ecuSim/src/protocol.py:136-198 | the replies of `Q`, `S`, `A` and `b`, and flag 0x83 for everything else, requests that are too short included |
| `WireCommands.CommandsAnswered` | ecuSim/src/protocol.py:358-366 | an unframed `F` is answered with the version's bytes alone, a payload as the request it is |
| `WireCommands.RealtimeReadOfTwo` | ecuSim/src/protocol.py:226-234 | the request for two bytes of the realtime block 7, 8 is answered with them |
| `Protocol.SerialProtocol.HandleCanRead` | ecuSim/src/protocol.py:200-257 | the reply, shadowed tables first, and the object unchanged |
| `Protocol.SerialProtocol.HandleCanWrite` | ecuSim/src/protocol.py:259-297 | the whole new state: one page patched or created, or nothing |
| `Protocol.SerialProtocol.HandleCrcCheck` | ecuSim/src/protocol.py:299-322 | the checksum of the bytes the range names, and the object unchanged |
| `Protocol.SerialProtocol.HandleRequest` | ecuSim/src/protocol.py:136-180 | new state and reply are those of the request function, for every byte string |
| `Protocol.RequestBuffer.AddData` | ecuSim/src/protocol.py:344-346 | the bytes are appended |
| `Protocol.RequestBuffer.GetNextResponse` | ecuSim/src/protocol.py:348-368 | the buffer advances even if the reply raises; the protocol serves the taken command or stays as it was |
| `Protocol.SessionFaithful` | ecuSim/src/protocol.py:337-368 | at every moment of every interleaving received bytes are consumed bytes plus buffer, and commands done plus those waiting are a parse of all that arrived |
| `Protocol.ChunkingIndependence` | ecuSim/src/protocol.py:337-368 | a session no call changes any more has served exactly the commands of the whole stream, in order, with the store and replies of serving them directly |
| `Protocol.AcceptedAreSendable` | ecuSim/src/protocol.py:112-117 | whatever arrives, no payload but one of 1 to 1024 bytes is accepted |
| `Protocol.UploadOverTheWire` | ecuSim/src/protocol.py:102-368 | an image sent in frame-sized chunks, then read and checked over an arbitrarily cut stream: the last two replies are the image and its checksum, and no byte waits |
| `PageFile.SavePagesToFile` | ecuSim/src/page_builder.py:303-341 | the loop writes header and pages in table order; it raises exactly for a page over 65535 bytes |
| `PageFile.LoadPagesFromFile` | ecuSim/src/page_builder.py:344-390 | every malformed file gives nothing, every other the pages it lists |
| `PageFile.SaveLoads` | ecuSim/src/page_builder.py:303-390 | saving succeeds exactly when all pages fit; loading the file, whatever follows it, returns the saved map |
| `PageFile.PrefixFails` | ecuSim/src/page_builder.py:361-390 | no strict prefix of a saved file loads |
| `PageFile.LoadsExactly` | ecuSim/src/page_builder.py:361-390 | a file loads if and only if it is "MS2P", version 1, a count and as many whole records, whatever follows; later records of an id replace earlier ones |
| `PageFile.IdsAscend` | ecuSim/src/page_builder.py:331 | the saved ids are all the ids, ascending |
| `Simulator.InitialStorable` | ecuSim/simulator.py:108-133 | from a file, a storable tune or neither, the initial pages are not empty and can be saved |
| `Simulator.FinalStorable` | ecuSim/src/protocol.py:259-297 | no run of requests makes the pages impossible to save or empties the store |
| `Simulator.FirstPages` | ecuSim/simulator.py:108-133 | without a loadable file that holds a page, the pages are the tune's, table by table, or seven pages of 1024 zeros |
| `Simulator.SavedPagesFirst` | ecuSim/simulator.py:113-119 | a saved file with a page comes before any tune and is taken as it is |
| `Simulator.InitialisePages` | ecuSim/simulator.py:108-133 | a new protocol object holds exactly the initial pages, unmodified, for every file and tune |
| `Simulator.SaveIfModified` | ecuSim/simulator.py:253-262 | the file is the encoding of the pages if they were modified, else what it was |
| `Simulator.RestartPreservesTune` | ecuSim/simulator.py:108-133 | after any session and exit, restarting with the same tune restores the pages; with every tune of seven full pages it does exactly when they came from the file or were modified |
| `Simulator.RestartFrom` | ecuSim/simulator.py:253-262 | the same for any final store that is unchanged when unmodified; two filled tunes tell the other case apart |
| `Simulator.DrainBuffer` | ecuSim/simulator.py:219-229 | the loop sends exactly the replies up to the first call that returns nothing, and says whether an error escaped |
| `Simulator.DrainServesPart` | ecuSim/simulator.py:219-229 | a drain answers a first part of the waiting commands in order and takes bytes unless there is nothing to take |
| `Simulator.DrainServesAllExactly` | ecuSim/simulator.py:219-229 | a drain that raises nothing leaves no command waiting if and only if the buffer starts with the encodings of all its commands |
| `Simulator.JunkDelays` | ecuSim/simulator.py:219-229 | one junk byte before an `F`: the drain drops the byte and the command waits |
| `Simulator.TurnsServeEverything` | ecuSim/simulator.py:200-229 | as many turns as there are waiting bytes answer every waiting command in order, up to the first that raises |
| `SerialComm.Port.WriteExact` | work-ms2d-daemon/ms2d/src/serial_comm.c:42-66 | for every schedule: verdict, and the exact front of the buffer that went out |
| `SerialComm.Port.ReadExact` | work-ms2d-daemon/ms2d/src/serial_comm.c:68-92 | for every schedule: verdict, the front of the incoming bytes in the buffer, the rest still incoming |
| `SerialComm.SerialSend` | work-ms2d-daemon/ms2d/src/serial_comm.c:179-252 | bytes written, bytes taken, verdict and reply, for every schedule and every incoming stream; on error the caller's buffer is untouched |
| `SerialComm.TransferBounds` | work-ms2d-daemon/ms2d/src/serial_comm.c:42-92 | a transfer succeeds exactly when everything was moved and never moves more than there is |
| `SerialComm.ReceivesExactly` | work-ms2d-daemon/ms2d/src/serial_comm.c:215-252 | a reply is returned if and only if it is 1..4096 bytes, fits the caller, its frame comes first and its three reads complete; then only its frame is taken |
| `SerialComm.FailureIsReported` | work-ms2d-daemon/ms2d/src/serial_comm.c:206-234 | whichever of the four transfers fails, its own error is returned, and the bytes moved until then are gone |
| `SerialComm.PatienceSuffices` | work-ms2d-daemon/ms2d/src/serial_comm.c:42-92 | one successful transfer per byte is enough however small the pieces |
| `SerialComm.PatientExchange` | work-ms2d-daemon/ms2d/src/serial_comm.c:179-252 | without timeouts the client writes exactly the framed command, takes exactly the reply frame and returns its data, whatever follows |
| `Poll.OutpcBlock.PollOutpc` | work-ms2d-daemon/ms2d/src/serial_comm.c:285-329 | the block becomes the reply without its flag, or, for every failure, stays as it was; the port is left as the one exchange leaves it |
| `Poll.PollFetchesBlock` | work-ms2d-daemon/ms2d/src/serial_comm.c:285-305 | over any such link the daemon obtains exactly the ECU's realtime block when it has at most 4095 bytes and refuses it otherwise; the ECU's pages are unaffected |
| `Poll.PollExactly` | work-ms2d-daemon/ms2d/src/serial_comm.c:285-305 | with any legal reply first and whatever follows, a poll yields the reply behind its first byte if that is 1 and is a parse error otherwise |
| `Poll.LongBlockRefused` | work-ms2d-daemon/ms2d/src/serial_comm.c:219-222 | a block of 4096 bytes, delivered byte by byte, is refused |
| `Exchange.EveryCommandFramed` | ecuSim/src/protocol.py:96-180 | whatever the non-empty command and the pages, the reply is one frame of flag and payload unless an error escapes |
| `Exchange.AnswerableExactly` | work-ms2d-daemon/ms2d/src/serial_comm.c:215-252 | the exchange results below cover exactly the replies of at most 4096 bytes that fit the caller, whose buffer has at least 2 bytes |
| `Exchange.ExchangeSafe` | work-ms2d-daemon/ms2d/src/serial_comm.c:179-252 | from any session with an empty buffer, in every reachable state of every schedule: nothing or exactly the one command accepted, and the frames spread without loss over client, pipes and buffer |
| `Exchange.FinishedExactly` | work-ms2d-daemon/ms2d/src/serial_comm.c:206-252 | a finished client holds exactly the reply, the server did exactly the command once, and no byte remains in either direction |
| `Exchange.StepsWork` | ecuSim/src/protocol.py:348-368 | every step that changes a reachable state brings the end closer by a fixed measure |
| `Exchange.SomeStepWorks` | ecuSim/src/protocol.py:348-368 | in a reachable state that is not the end some step always does: no deadlock |
| `Exchange.ExchangeCompletes` | work-ms2d-daemon/ms2d/src/serial_comm.c:179-252 | every run in which three times the command frame's length plus the reply frame's steps take effect is over, with the reply |
| `Exchange.BeginIsSend` | work-ms2d-daemon/ms2d/src/serial_comm.c:185-196 | the client machine starts writing exactly when the C function passes its argument check; refused, nothing is sent or read |
| `Exchange.VerdictIsReceive` | work-ms2d-daemon/ms2d/src/serial_comm.c:206-252 | on the bytes the C function took the machine still waits exactly when that timed out or failed to read; else its verdict is the reply, or none for a bad size, a bad checksum or a reply too large |
| `Dialogue.DialogueSafe` | work-ms2d-daemon/ms2d/src/serial_comm.c:179-252 | for any list of answerable commands sent one after the other over the same pipes, in every reachable state the replies so far are those of the commands so far, in order, and only the one in progress is under way |
| `Dialogue.DialogueExactly` | work-ms2d-daemon/ms2d/src/serial_comm.c:179-252 | with all replies in, they are exactly the commands' replies; the server served exactly the commands as if there were no link; no byte remains anywhere |
| `Dialogue.SomeMoveWorks` | work-ms2d-daemon/ms2d/src/serial_comm.c:179-252 | until then some move changes the state |
| `Dialogue.DialogueCompletes` | work-ms2d-daemon/ms2d/src/serial_comm.c:179-252 | every run in which as many moves take effect as the frames' bytes call for ends with all replies |
| `LateReplies.GivesUp` | work-ms2d-daemon/ms2d/src/serial_comm.c:206-214 | a client that wrote its command and waits in vain reports a timeout and takes no byte |
| `LateReplies.LateReplyAnswersNext` | work-ms2d-daemon/ms2d/src/serial_comm.c:206-252 | if the ECU's reply to it comes after all, the next command returns that reply, with success, and its own goes on waiting |
| `LateReplies.LateSignature` | work-ms2d-daemon/ms2d/src/serial_comm.c:206-252 | the client takes the signature, asked for before, for the realtime block |
| `LateReplies.ReplyBehindExactly` | work-ms2d-daemon/ms2d/src/serial_comm.c:212-252 | behind any waiting bytes a call returns its own reply if and only if these bytes and its reply's frame begin like that frame |
| `LateReplies.AlwaysMatchedExactly` | work-ms2d-daemon/ms2d/src/serial_comm.c:212-252 | every command gets its own reply, whatever they are, if and only if no byte is waiting |
| `LateReplies.RepliesAreAQueue` | work-ms2d-daemon/ms2d/src/serial_comm.c:179-252 | for any waiting replies and any calls after them: no call fails, the calls return the oldest replies in order, and as many as waited at first wait in the end |
| `LateReplies.MatchedExactly` | work-ms2d-daemon/ms2d/src/serial_comm.c:179-252 | every call gets its own reply if and only if the queue of waiting and new replies begins with the new ones |
| `LateReplies.CutReplyLeavesNothing` | ecuSim/simulator.py:225-229 | a reply whose `os.write` is cut short anywhere makes its call time out with every byte of it taken, so that nothing is waiting |
| `LateReplies.PollsInstallTheQueue` | work-ms2d-daemon/ms2d/src/serial_comm.c:285-329 | behind any queue of waiting replies each poll takes the oldest one; those that begin with 1 become the block and all others leave it |
| `LateReplies.LateSignatureRefused` | work-ms2d-daemon/ms2d/src/serial_comm.c:300-302 | a late signature is refused, and the next poll installs the block |
| `LateReplies.VerdictByBytes` | work-ms2d-daemon/ms2d/src/serial_comm.c:217-252 | for any incoming bytes, all transfers in time: parse error for a size of 0 or over 4096 and for a bad checksum, timeout for too few bytes, out of memory for a reply too large for the caller, else the reply |
| `PythonInt.BitOfAnd` | ecuSim/src/page_builder.py:162-164 | `&` is bitwise on every pair of integers, negative ones included |
| `PythonInt.BitOfOr` | ecuSim/src/page_builder.py:164 | the same for `\|` |
| `PythonInt.BitOfShl` | ecuSim/src/page_builder.py:160-164 | `<<` moves every bit up and clears those below |
| `PythonInt.SameBits` | ecuSim/src/page_builder.py:158-166 | integers with the same bits at all places are equal |
| `Codec.UnpackInverts` | ecuSim/src/ini_parser.py:54-66 | in the layouts of `struct_format` every raw value of every type comes back from its big-endian bytes |
| `Codec.PackInverts` | ecuSim/src/page_builder.py:189-201 | every byte string of the right length is the encoding of the raw value it decodes to |
| `Codec.RoundIsNearest` | ecuSim/src/page_builder.py:197-198 | no integer is nearer than Python's `round`, which is within a half |
| `Codec.HalvesGoToEven` | ecuSim/src/page_builder.py:197 | a half is rounded to the even neighbour |
| `Codec.ClampIsNearest` | ecuSim/src/page_builder.py:197-198 | clamping the rounded value keeps it nearest among the values of the type |
| `Codec.BestApproximation` | ecuSim/src/page_builder.py:168-201 | for every value, scale other than 0 and translate, no raw value of the type decodes closer than the encoder's |
| `Codec.WithinHalfStep` | ecuSim/src/page_builder.py:168-201 | when nothing is clamped the error is at most half of the scale |
| `Codec.RawSurvives` | ecuSim/src/page_builder.py:168-201 | encoding what a raw value decodes to gives the raw value back |
| `Codec.UnscaledIsItself` | ecuSim/src/page_builder.py:191-198 | with scale 0 the value itself is rounded and clamped |
| `PageBuilder.EncodeBitsInto` | ecuSim/src/page_builder.py:134-166 | the page's bytes afterwards, or, when Python raises, the page unchanged |
| `PageBuilder.EncodeArrayInto` | ecuSim/src/page_builder.py:203-257 | elements are written until the values or the page end, each where and as the source puts it |
| `PageBuilder.EncodeConstantInto` | ecuSim/src/page_builder.py:113-132 | the page afterwards for each kind of constant, out-of-bounds ones leaving it alone |
| `PageBuilder.LoadInto` | ecuSim/src/page_builder.py:91-109 | success exactly when no constant raises, and the page afterwards in both cases: all constants in file order, or those before the one that raises |
| `PageBuilder.LoadedPartIsAll` | ecuSim/src/page_builder.py:91-109 | when nothing raises, what was written is the whole load |
| `PageBuilder.RaiseStops` | ecuSim/src/page_builder.py:91-109 | the first constant that raises ends the load, those before it staying written |
| `PageBuilder.NoRoomKeeps` | ecuSim/src/page_builder.py:122-124 | a constant whose whole field, all elements counted, reaches past the page writes nothing |
| `PageBuilder.NothingSaidKeeps` | ecuSim/src/page_builder.py:138-139 | bits without a range and scalars without a number write nothing |
| `PageBuilder.MergedIsByte` | ecuSim/src/page_builder.py:158-166 | the rewritten byte is storable exactly when the value's window stays inside the byte |
| `PageBuilder.WideValueRaises` | ecuSim/src/page_builder.py:158-166 | in bits 4 to 11 the value 16 raises and 15 does not, whatever the page |
| `PageBuilder.EncodeOverwrites` | ecuSim/src/page_builder.py:113-257 | a constant raises exactly by its own data, and otherwise sets exactly its own bits, whatever the page held |
| `PageBuilder.LoadBits` | ecuSim/src/page_builder.py:80-111 | loading fails exactly when some constant raises; otherwise every bit is its last writer's |
| `PageBuilder.OrderIrrelevant` | ecuSim/src/page_builder.py:80-111 | constants with disjoint footprints give the same page, or fail alike, in every order |
| `PageBuilder.LoadedBit` | ecuSim/src/page_builder.py:80-257 | after loading disjoint constants each footprint bit is its constant's own |
| `PageBuilder.UntouchedBit` | ecuSim/src/page_builder.py:80-257 | bits outside all footprints are as they were |
| `PageBuilder.ReadsBackExactly` | work-ms2d-daemon/ms2_ini_dash.py:339-355 | after any load that raises nothing, the dashboard reads any bit field as its value modulo 2 to its width if and only if the bits of its range beyond its first byte are clear in the page |
| `PageBuilder.BitsReadBack` | work-ms2d-daemon/ms2_ini_dash.py:339-355 | so it does for every bit field inside one byte, whatever else was loaded and whatever its word's type |
| `PageBuilder.WideReadsBack` | ecuSim/src/page_builder.py:80-166 | so it does for every field on a fresh page whose other bytes no constant touches, signed bytes apart |
| `PageBuilder.WideMisread` | ecuSim/src/page_builder.py:158-166 | next to a byte of ones, 15 in bits 4 to 11 is written and does not read back |
| `PageBuilder.BeyondReadsZero` | work-ms2d-daemon/ms2_ini_dash.py:339-342 | a field that reaches past the data reads as 0 |
| `PageBuilder.BytesReadBack` | ecuSim/src/page_builder.py:168-257 | the bytes a scalar or array writes are there after loading everything else |
| `PageBuilder.ArrayReadBack` | ecuSim/src/page_builder.py:203-257 | every array element that has room reads back as the raw value of its own entry |
| `PageBuilder.OutsideStaysZero` | ecuSim/src/page_builder.py:49-55 | on a fresh page, bits outside all footprints are zero |
| `TuneFile.Builder.constructor` | ecuSim/src/page_builder.py:49-55 | seven separate pages of 1024 zero bytes |
| `TuneFile.Builder.LoadFromMsq` | ecuSim/src/page_builder.py:57-111 | element by element and constant by constant in place: success exactly when no constant raises, and the pages afterwards in both cases |
| `TuneFile.LoadedPagesAreAll` | ecuSim/src/page_builder.py:80-111 | when nothing raises, what was written is the whole file |
| `TuneFile.EntryGoesToTable` | ecuSim/src/page_builder.py:28-111 | an entry of MSQ page 0 to 6 that names a constant of INI page 1 to 7 changes only table 0x04, 0x05, 0x0A, 0x08, 0x09, 0x0B or 0x0C, and there to its number, value or list as the constant's kind says |
| `TuneFile.OtherEntriesIgnored` | ecuSim/src/page_builder.py:80-109 | page elements of other numbers, and entries without a name, of unknown name or of another INI page, change nothing |
| `TuneFile.EntryByEntry` | ecuSim/src/page_builder.py:91-109 | a page element is loaded entry by entry, so that the two rows above cover every file |
| `TuneFile.ThirdPageIsTableTen` | ecuSim/src/page_builder.py:36-44 | a byte of INI page 3 in MSQ page 2 is written into table 0x0A alone |
| `TuneFile.RaiseStopsFile` | ecuSim/src/page_builder.py:80-111 | the first element in which a constant raises ends the load, everything before staying written |
| `TuneFile.PagesIndependent` | ecuSim/src/page_builder.py:80-111 | the file loads if and only if each table's own named, defined constants on its page do, and each page is what they alone make of it, however elements are mixed |
| `TuneFile.LoadedIsTune` | ecuSim/src/page_builder.py:46-111 | loading keeps the seven tables and their sizes |
| `Decoder.DecodeAll` | work-ms2d-daemon/ms2d/src/decoder.c:116-149 | the value array holds one decoded entry per field, in order, and nothing behind them changes |
| `Decoder.FindField` | work-ms2d-daemon/ms2d/src/decoder.c:155-172 | the first field of the name, or none exactly when no field has it |
| `Decoder.FindsFirst` | work-ms2d-daemon/ms2d/src/decoder.c:155-172 | of several definitions of a name the first is found |
| `Decoder.ByteDecodes` | work-ms2d-daemon/ms2d/src/decoder.c:37-42 | one byte, unsigned or in two's complement, shifted and scaled |
| `Decoder.TwoBytesDecode` | work-ms2d-daemon/ms2d/src/decoder.c:44-52 | two bytes, high byte first, likewise |
| `Decoder.FourBytesDecode` | work-ms2d-daemon/ms2d/src/decoder.c:18-75 | four bytes, high byte first, in two's complement whatever the type; a bits field is that number, unscaled |
| `Decoder.BeyondDecodes` | work-ms2d-daemon/ms2d/src/decoder.c:81-110 | a field past the block is 0 shifted and scaled, a bits field past it 0, and so is every field of an empty block |
| `Decoder.EntryIsOwn` | work-ms2d-daemon/ms2d/src/decoder.c:129-146 | an entry carries its own field's name, units and value |
| `Decoder.ExtractsPacked` | work-ms2d-daemon/ms2d/src/decoder.c:10-75 | the raw value that was packed comes out, unsigned 32-bit ones from 2^31 up lowered by 2^32 |
| `Decoder.ScalarDecodes` | work-ms2d-daemon/ms2d/src/decoder.c:81-110 | a scalar loaded among other constants decodes to the best approximation of its value exactly when it is not an unsigned 32-bit raw value of 2^31 or more |
| `Decoder.HighBitDecodesNegative` | work-ms2d-daemon/ms2d/src/decoder.c:57-63 | an unsigned 32-bit 2^31 decodes to -2^31 |
| `OutpcBuilder.EncodeFieldInto` | ecuSim/src/outpc_builder.py:253-285 | the block afterwards: one element at its offset, or unchanged without room or place |
| `OutpcBuilder.BuildBlock` | ecuSim/src/outpc_builder.py:29-44 | the block is the channels written in order over zeros |
| `OutpcBuilder.TruncatesTowardsZero` | ecuSim/src/outpc_builder.py:280 | on both sides the whole number towards zero is taken |
| `OutpcBuilder.NothingStored` | ecuSim/src/outpc_builder.py:255-280 | a channel without room or place stores nothing; with scale 0 the value itself is cut off and clamped |
| `OutpcBuilder.DisplayedIsPacked` | ecuSim/src/outpc_builder.py:262-280 | the builder packs a raw value's displayed value as that raw value |
| `OutpcBuilder.DisplayedSurvivesExactly` | work-ms2d-daemon/ms2d/src/decoder.c:107-109 | the decoder gives a displayed value back if and only if translation is 0 or scale is 1 |
| `OutpcBuilder.SurvivesExactly` | ecuSim/src/outpc_builder.py:262-280 | under that condition a value survives if and only if it is displayed for some raw value of the type |
| `OutpcBuilder.AnySurvivesExactly` | ecuSim/src/outpc_builder.py:262-280 | for every scale but 0 and every translation, a value survives if and only if some raw value decodes to it and is what the shift between the two formulas, cut off and clamped, leaves of it |
| `OutpcBuilder.SurvivesByChance` | ecuSim/src/outpc_builder.py:262-280 | scale 2, translation 0.5: the value 1 survives |
| `OutpcBuilder.ChannelStands` | ecuSim/src/outpc_builder.py:29-44 | a channel no later one overlaps has its own bytes in the built block |
| `OutpcBuilder.ChannelDecodesExactly` | ecuSim/src/outpc_builder.py:29-44 | over the whole path from builder to daemon, a channel given a displayed value decodes to it if and only if translation is 0 or scale is 1 |
| `OutpcBuilder.TemperatureDecodesWrong` | ecuSim/src/outpc_builder.py:262-265 | scale 0.05555, translation -320: the value -320 decodes to -17.776 |
| `OutpcBuilder.BetweenStepsIsLost` | ecuSim/src/outpc_builder.py:280 | scale 1: the value 2.5 decodes to 2 |
| `Snapshot.PollKeepsInv` | work-ms2d-daemon/ms2d/src/serial_comm.c:307-328 | no step of the poller or of the worker around it, byte by byte, breaks mutual exclusion, the block or the log |
| `Snapshot.ReadKeepsInv` | work-ms2d-daemon/ms2d/src/rpc_server.c:219-399 | no step of a reader, field by field, does |
| `Snapshot.Reachable` | work-ms2d-daemon/ms2d/src/main.c:63-124 | the invariant holds after every interleaving of one poller and any number of readers |
| `Snapshot.NoTornReply` | work-ms2d-daemon/ms2d/src/rpc_server.c:260-399 | all values of a reply are decoded from one frame, the last one installed before its reader took the mutex; later replies never show an older frame |
| `Snapshot.GetAllIsOneFrame` | work-ms2d-daemon/ms2d/src/rpc_server.c:336-399 | a `get_all` reply is the whole table decoded from that frame |
| `Snapshot.GetValuesIsOneFrame` | work-ms2d-daemon/ms2d/src/rpc_server.c:219-334 | a `get_values` or `get_value` reply found every name and decodes those fields from that frame |
| `Snapshot.BlockIsLastFrame` | work-ms2d-daemon/ms2d/src/serial_comm.c:295-328 | except during a copy, when no reader is inside, the block is the last installed frame; failed polls leave it so |
| `Snapshot.ReaderIsAnswered` | work-ms2d-daemon/ms2d/src/rpc_server.c:219-399 | a request that finds the mutex free gets its reply: every item decoded from the last installed frame if all were found, the error if one was not, and nothing else changes |
| `Snapshot.PollIsInstalled` | work-ms2d-daemon/ms2d/src/serial_comm.c:307-328 | a frame that arrives while the mutex is free becomes the block and the last installed frame, and the worker's turn ends |
| `Snapshot.FreshFrameIsServed` | work-ms2d-daemon/ms2d/src/rpc_server.c:336-399 | after any run, a poll and then `get_all`: the reply is the whole table decoded from that poll's frame |
| `Snapshot.FailuresEnd` | work-ms2d-daemon/ms2d/src/serial_comm.c:311-316 | a failed poll or request ends with the mutex free and block and frames as they were, the request with the error |
| `Conditions.ConditionallyActive` | work-ms2d-daemon/ms2d/src/ini_parser.c:162-170 | true exactly when every entry of the stack is |
| `Conditions.StepInPlace` | work-ms2d-daemon/ms2d/src/ini_parser.c:315-334 | what each directive does to the fixed array and its depth, the depth never passing 64 |
| `IniLines.SameLineExactly` | work-ms2d-daemon/ms2_ini_dash.py:83-122 | daemon and dashboard, both of which strip the two-letter marks, take a line alike if and only if no white space but a blank follows its `#if` |
| `IniLines.WrittenIsTaken` | work-ms2d-daemon/ms2d/src/ini_parser.c:306-334 | both parsers take a line, with any white space around it and with or without a mark, as the directive, text or ignored line it spells |
| `IniLines.AnyWhiteOpens` | work-ms2d-daemon/ms2d/src/ini_parser.c:315-321 | after `#if` the daemon takes any white space as a condition's, and the dashboard takes such a line as text unless it is a blank |
| `IniLines.SpaceIsWhite` | work-ms2d-daemon/ms2d/src/ini_parser.c:14-35 | white space is the blank and the controls 9 to 13 |
| `IniText.ConditionNames` | work-ms2d-daemon/ms2d/src/ini_parser.c:137-160 | the four conditions by name, and any other holds |
| `Conditions.SelectLines` | work-ms2d-daemon/ms2d/src/ini_parser.c:306-338 | from the raw lines, the loop marks exactly the lines the stack machine calls active |
| `Conditions.DashSelectLines` | work-ms2d-daemon/ms2_ini_dash.py:83-122 | so does the dashboard's loop for its own machine |
| `Conditions.DocSelected` | work-ms2d-daemon/ms2d/src/ini_parser.c:306-338 | from any stack with room, a block document selects what its nested if/else structure means and leaves the stack as it was |
| `Conditions.MachineIsMeaning` | work-ms2d-daemon/ms2d/src/ini_parser.c:306-338 | for every well-nested document of depth at most 64 the active lines are those recursive evaluation selects |
| `Conditions.DashIsMeaning` | work-ms2d-daemon/ms2_ini_dash.py:90-122 | the dashboard's unbounded list selects what recursive evaluation selects in every well-nested document, however deep |
| `IniText.WrittenDocIsMeaning` | work-ms2d-daemon/ms2d/src/ini_parser.c:306-338 | from the raw text, however a well-nested document is written, the daemon's loop marks what its blocks mean up to depth 64, and the dashboard's at any depth |
| `IniText.FirstSectionRead` | work-ms2d-daemon/ms2d/src/ini_parser.c:315-334 | of the two sections of `#if FAHRENHEIT` in Fahrenheit both parsers read the first alone |
| `Conditions.StacksAgreeExactly` | work-ms2d-daemon/ms2d/src/ini_parser.c:315-334 | over any lines, well nested or not, and under any settings, the daemon's stack and an unbounded one agree after every line if and only if the latter never passes 64 entries |
| `Conditions.DepthIsExact` | work-ms2d-daemon/ms2d/src/ini_parser.c:315-334 | in every well-nested document, under any settings, that is if and only if its depth is at most 64 |
| `DeepNesting.BoundIsExact` | work-ms2d-daemon/ms2d/src/ini_parser.c:315-321 | every document up to a given depth is read right if and only if that depth is at most 64 |
| `Conditions.ParsersAgree` | work-ms2d-daemon/ms2_ini_dash.py:90-122 | with fahrenheit on and CAN commands off both parsers select the same lines of every document within the bound |
| `Conditions.FilesAgree` | work-ms2d-daemon/ms2_ini_dash.py:83-122 | so their loops mark the same lines of every file of lines both take alike, marked lines included |
| `DeepNesting.DeepNestingDiffers` | work-ms2d-daemon/ms2d/src/ini_parser.c:315-321 | a document of depth 65 in which the machine reads a line its condition excludes |
| `DeepNesting.MachineMarks` | work-ms2d-daemon/ms2d/src/ini_parser.c:306-338 | at any depth, over a document without `#else`, the stack machine marks what a function on blocks gives and leaves a front part of its stack whose length conditions do not matter for |
| `DeepNesting.ReadRightExactly` | work-ms2d-daemon/ms2d/src/ini_parser.c:306-338 | any one document without `#else` is read right if and only if a pass over its blocks succeeds that keeps two numbers: the stack's height and how many of its entries are true from the bottom |
| `DeepNesting.TrueConditionsReadRight` | work-ms2d-daemon/ms2d/src/ini_parser.c:306-338 | it does at any depth when all conditions hold |
| `DeepNesting.ReadsAtLeast` | work-ms2d-daemon/ms2d/src/ini_parser.c:306-338 | at any depth no wanted line of such a document is missed |
| `CustomFields.FieldTable.MergeCustom` | work-ms2d-daemon/ms2d/src/ini_parser.c:411-477 | error code and whole table in each case: nothing to merge, no memory, too many fields, success |
| `CustomFields.MergeAt` | work-ms2d-daemon/ms2d/src/ini_parser.c:439-465 | a base position changes only where its name occurs first, and then to the last custom definition of the name |
| `CustomFields.RefusedMergeKeepsExactly` | work-ms2d-daemon/ms2d/src/ini_parser.c:468-471 | the base part of a merge is the base table if and only if each name's first definition has no custom one or equals the last custom one |
| `CustomFields.RefusedMergeReplaces` | work-ms2d-daemon/ms2d/src/ini_parser.c:468-471 | a full table of 65535 definitions whose refused merge changes its first one |
| `CustomFields.PutInPlace` | work-ms2d-daemon/ms2d/src/ini_parser.c:439-465 | one definition replaces the first field of its name in place or is appended |
| `CustomFields.FindAfterPut` | work-ms2d-daemon/ms2d/src/ini_parser.c:443-465 | afterwards its name finds it and every other name finds what it found |
| `CustomFields.MergeLookup` | work-ms2d-daemon/ms2d/src/ini_parser.c:411-477 | after a merge any name finds its last custom definition, else what the base table gave, duplicates included |
| `CustomFields.MergeKeepsNames` | work-ms2d-daemon/ms2d/src/ini_parser.c:411-477 | base positions keep their names, and distinct names stay distinct |
| `Capture.LoadCapture` | testingTools/inspect_capture.py:67-93 | signature and frames for both versions of the format, and an error for any other file |
| `Capture.ReadFrames` | testingTools/inspect_capture.py:83-91 | the reading loop returns the frames that are wholly there |
| `Capture.CutFrames` | testingTools/inspect_capture.py:83-91 | cutting encoded frames anywhere leaves exactly those wholly inside |
| `Capture.CutsAfterWhole` | testingTools/inspect_capture.py:83-91 | every cut has its number of whole frames, and counting gives it |
| `Capture.PrefixLoads` | testingTools/capture_ecu_outpc.py:137-174 | every prefix of a capture file that holds the header loads to the signature and exactly the frames wholly inside it |
| `Capture.WholeFileLoads` | testingTools/capture_ecu_outpc.py:137-174 | the whole file loads to all of its frames |
| `Capture.EarlyCutLoads` | testingTools/inspect_capture.py:71-81 | a file cut in its signature loads as what is there of it, one cut before that is an error |
| `Capture.OldFileLoads` | testingTools/inspect_capture.py:77-79 | a file of the old format loads to the default signature and its frames |
| `Capture.OtherFilesRaise` | testingTools/inspect_capture.py:74-81 | any other beginning, or fewer than twelve bytes, is an error |
| `Capture.HeaderBytes` | testingTools/capture_ecu_outpc.py:139-142 | a header is "MS2CAP02", the signature's length low byte first, and the signature |
| `Capture.LowByteFirst` | testingTools/capture_ecu_outpc.py:171-173 | a frame's timestamp and length are written low byte first |
| `Capture.LeRoundTrip` | testingTools/inspect_capture.py:75-87 | little-endian numbers of any width come back |

## Left out

- Framing.CallsReachQuiescence: counts calls that take no new bytes; interleaved arrivals are the subject of `Protocol.ChunkingIndependence`.
- SerialComm.Port.ReadExact: when the device has sent nothing more, a transfer counts as a timeout; bytes still arriving while the client waits are modelled in `Exchange`.
- SerialComm.SerialSend: the arguments are taken as non-null and the port as open; closed ports and null arguments, which the code refuses, are not modelled.
- Exchange.ExchangeSafe: both pipes are empty at the start and the server's reply enters its pipe in one piece; bytes waiting from failed exchanges and replies cut short are the subject of `LateReplies`.
- PageBuilder.WideReadsBack: a signed single byte is left to `PageBuilder.ReadsBackExactly`, since its sign fills the bits beyond it.
- TuneFile.Builder.LoadFromMsq: starts from the parsed file; each entry carries what its text says as a number, a value and a list. XML and text-to-number conversion, and a file that cannot be parsed, are not modelled.
- PageBuilder.EncodeArrayInto: an unknown data type, which the source treats as U16, has no counterpart; neither has a negative offset.
- PageFile.SavePagesToFile: errors of the file system are not modelled, nor is the part-written file a raised error leaves behind.
- Simulator.RestartPreservesTune: a pages file is configured; saving succeeds when the pages can be encoded.
- Poll.OutpcBlock.PollOutpc: the lock around the update belongs to `Snapshot`; a new array stands for `realloc`, so the bytes of the old block are not carried over (they are overwritten).
- Snapshot.GetAllIsOneFrame: `get_all` on an empty field table, which the daemon answers with an error, is not told apart from a list of no fields; the poll timestamp in replies is not modelled.
- Conditions.SelectLines: a line is a line for both parsers. Lines longer than the C buffer are not modelled; nor is text in which Python sees other line ends than C (a vertical tab, a form feed or a carriage return inside a line, and the separators 0x1C to 0x1E and those outside ASCII), nor white space that Python strips and C does not (0x1C to 0x1F and outside ASCII).
- Conditions.MachineIsMeaning: of documents deeper than 64, those without `#else` have their exact condition in `DeepNesting.ReadRightExactly`; for those with it there are `Conditions.DepthIsExact` and `DeepNesting.BoundIsExact` only.
- CustomFields.FieldTable.MergeCustom: `realloc` is a fresh array or a refusal; the second growth inside the loop cannot happen, since the first makes room for everything; names are not cut to 64 characters, and overflow of the C capacity is not modelled.
- Codec.BestApproximation: exact reals stand for floating point, so rounding errors and infinities are not modelled; a scale of 0 stores the rounded value itself and has no decoding to compare with.
- Decoder.ScalarDecodes: bit fields of the C decoder, which returns the raw 32-bit word and leaves bits to a later version, are modelled only as that word.
- OutpcBuilder.BuildBlock: the engine simulation that chooses the values is any list of channels and values; elsewhere the realtime block is any fixed byte string. A scale of 0 packs the value itself and has no decoding to compare with.
- Decoder.DecodeAll: timestamps and null arguments are not modelled; the C copies names and units between buffers of one size, so it never cuts them.
- PTYs, termios, select, sockets, signals, reconnecting and back-off in the worker thread: replaced by schedules.
- JSON, the other RPC methods (`get_status`, `list_fields`), the web and terminal dashboards: plumbing and display.
- The rest of the INI grammar (`#set`, section headers, field lines), `project.properties` and command lines: text parsing.
- The older simulator and replay copies of the same framing: duplicates.
