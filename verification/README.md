# Pump bridge: data integrity from the serial bus to the stored row

The bridge fetches compressed pressure traces from dispense pumps over a noisy serial bus, repairs single flipped bits,
decodes the traces, and stores one row and one profile per dispense cycle in several destinations. These Dafny modules
model that pipeline and prove what it can be trusted with, under every behaviour of the bus, the pump and the writers
that the statements admit. Where a stronger claim is false of the code there is a lemma with an input that breaks it,
next to the condition under which it does hold.

How the modules build on each other:

- `Gf2`, `Bytes`, `Crc16`, `CrcOrder`, `CrcRepair`: the CRC-16 as linear algebra over GF(2). The bit step is linear,
  invertible and keeps parity; its order is exactly 32767 = 7 * 31 * 151; so the bits of a frame have pairwise distinct
  effects on the CRC exactly up to 4095 bytes, and the repair search is exact.
- `TraceCodec`, `TraceBlocks`: the block decoder with its limit and early exits, against the block semantics of the
  emulator as an independent specification.
- `PumpProtocol`, `NcsProtocol`, `PumpClient`, `ProfilePull`, `PullLaws`, `PullAlignment`, `PullSuccess`, `EndToEnd`,
  `PullLimits`: pulling a trace against a wire that may answer anything, the records kept on the way, where each chunk
  lands, exactly which chunks are had, and what the assembled bytes are when every reply is true, damaged by at most two
  flipped bits, lost or refused.
- `Captures`, `Rendering`, `Collected`, `Writers`, `StoreLaws`, `Extract`, `Pipeline`: from a capture to rows and
  profiles, with every write free to fail before it took effect, after, or half way, over whole histories of runs for a
  pump that dispenses while it is read. `Pipeline` joins the two halves: over every such history of a pump behind a bus
  that flips at most two bits of a reply, a cycle remembered clean is in every destination exactly as recorded.
- `Decimal`, `CaptureFiles`, `Svid`, `Bridge`: saved captures, the tagless SVID reply, bus groups and the due-time loop.

Methods follow the loops of the source and are tied by their contracts to functions of their inputs or old state; the
laws are lemmas about those functions. The unpredictable parts are parameters: a `Wire` gives the n-th exchange for a
frame, a `Replies` gives what a read returns at each instant, a writer has a `Fate` for each of its steps, and a clock
is a sequence of readings.

Exceptions are values: `Option` and `Result` in place of `ValueError`, `Failure` for the pump layer's errors, and
`Outcome.Down`, `CollectRaised` and `Raised` where an error is left to pass upwards.

## Model

| member | source | states |
|---|---|---|
| Crc16.BuildTable | py/crc16.py:15-23 | the loop fills the 256-entry table of the parity formula |
| Crc16.TableEntryIsEightSteps | py/crc16.py:20-22 | every entry of the parity formula is eight bit steps of the byte, i.e. the formula is the CRC table |
| Crc16.TableStep | py/crc16.py:35-36 | one table lookup moves the register exactly as eight bit steps with the byte added in, from any register |
| Crc16.Crc16 | py/crc16.py:29-37 | the table-driven CRC of any bytes equals the bit-step definition |
| Crc16.Crc16Bitwise | mock/mock_ncs.py:292-302 | the bit-at-a-time CRC of any bytes equals the same definition, hence the table-driven one |
| Crc16.ValidityChecksAgree | mock/mock_ncs.py:305-308 | for every frame of two bytes or more, the client's residue check accepts it exactly when its last two bytes are the complemented CRC of the rest, low byte first |
| Crc16.AppendedCrcIsValid | py/crc16.py:40-52 | data with its CRC appended always passes the residue check |
| Crc16.IterateLinear | py/crc_repair.py:27-28 | any number of bit steps is linear over exclusive or |
| Crc16.IterateInjective | py/crc_repair.py:27-28 | any number of bit steps is invertible: equal results come from equal registers |
| Crc16.IterateKeepsParity | py/crc_repair.py:27-28 | any number of bit steps keeps the parity of the register |
| CrcOrder.PowersDistinct | py/crc_repair.py:23-35 | the first 32767 powers of x modulo the generator are pairwise distinct |
| CrcOrder.PowersRepeat | py/crc_repair.py:23-35 | 32767 steps later every power recurs, so the order is exactly 32767 |
| CrcRepair.FlipChangesCrc | py/crc_repair.py:27-28 | a flipped bit changes the CRC of a frame by an amount that depends only on how far the bit is from the end |
| CrcRepair.FlipEffects | py/crc_repair.py:23-35 | the table filled backwards holds one entry for each bit of the frame and no other, each the change that flip makes |
| CrcRepair.EffectsDistinctExactly | py/crc_repair.py:23-35 | the changes are pairwise distinct if and only if the frame has at most 4095 bytes |
| CrcRepair.RepairingBits | py/crc_repair.py:38-43 | the lookup through the table of changes finds, in its order, exactly the bits that direct trial finds |
| CrcRepair.RepairsExactly | py/crc_repair.py:38-49 | a bit is found if and only if it is in the frame and the frame with it flipped passes the check |
| CrcRepair.UniqueRepair | py/crc_repair.py:38-49 | a valid frame of at most 4095 bytes with one bit flipped has that bit as its only repair, and flipping it gives the frame back |
| CrcRepair.ValidNeedsNoRepair | py/crc_repair.py:38-43 | a valid frame of any length has no repairing bit |
| CrcRepair.DoubleDamageDetected | mock/mock_ncs.py:544 | two different bits flipped in a valid frame of at most 4095 bytes fail the check and offer no repair |
| CrcRepair.OddDamageDetected | py/crc16.py:48-52 | an odd number of flips fails the check at any length |
| CrcRepair.EvenDamageNotRepaired | mock/mock_ncs.py:544 | an even number of flips has no repairing bit at any length |
| CrcRepair.LongFramesAmbiguous | py/crc_repair.py:38-43 | every valid frame over 4095 bytes has a flip with a second repairing bit and a pair of flips that passes unseen |
| CrcRepair.ThreeFlipsMiscorrected | py/profile_pull.py:61-64 | three given flips in any valid frame of 3 to 4095 bytes have one repairing bit, and it restores a different frame |
| PumpProtocol.ParseFramed | py/pump_protocol.py:136-159 | parsing what the emulated pump frames gives back its address, code and data |
| PumpProtocol.ParsedIsFramed | mock/mock_ncs.py:311-314 | a frame that parses is the framing of what was parsed, so the parser accepts nothing else |
| PumpProtocol.BuiltParses | py/pump_protocol.py:117-133 | a request is built if and only if the command is allowed, the address in range, the data whole words and the size fits; and it reads back as what was asked |
| NcsProtocol.ParseResponse | py/ncs_protocol.py:107-108 | a body that is accepted is at most 4078 bytes, which keeps every pump frame inside the unique-repair bound |
| NcsProtocol.AcceptedExactly | py/ncs_protocol.py:101-122 | a reply is accepted if and only if it is a return code, its own size, fourteen bytes ignored and a body, 4096 bytes at most; and it is parsed into that code and body |
| NcsProtocol.ParsePacket | py/ncs_protocol.py:101-122 | parsing a gateway packet gives back its return code and body |
| PumpClient.ReadDataMeans | py/pump_client.py:65-102 | data comes only from a GOOD frame of this pump; each failure says exactly what the gateway and the pump answered, and keeps a damaged body as it came |
| PumpClient.AskedIsRead | py/pump_structs.py:469-475 | the frame of every trace request can be built, and the pump it is for reads in it exactly the cycle, trace, start and count asked for |
| PumpClient.PumpClient.GetProfileTrace | py/pump_client.py:170-174 | a count out of range raises with nothing sent; otherwise that frame is one exchange of the wire, classified |
| ProfilePull.TryRepair | py/profile_pull.py:61-79 | the data and the repair recorded are those of the first bad reply that can be repaired, and nothing is recorded when there is none |
| ProfilePull.RequestChunk | py/profile_pull.py:82-101 | the record and the outcome are the specified run of attempts and repair, one exchange per attempt |
| ProfilePull.NextChunk | py/profile_pull.py:112-124 | one more chunk: its record is that of the specified run, its bytes are added, and one too short for a word counts as failed |
| ProfilePull.PullTrace | py/profile_pull.py:104-125 | the data, the chunks' records and the number of requests are those of the specified pull |
| ProfilePull.PullProfile | py/profile_pull.py:128-135 | all ten traces pulled in the fixed order and returned in trace number order, unless and only unless the gateway fails in one of them |
| PullLaws.ChunkBookkeeping | py/profile_pull.py:61-101 | on any wire: one to four requests, each but the last retried only for damage or loss, one error line per failed attempt, bad-reply attempts increasing, `failed` if and only if nothing was had, and a repair names a kept reply whose one repairing bit gives a GOOD frame of exactly the size asked for |
| PullLaws.PullBookkeeping | py/profile_pull.py:104-125 | on any wire: chunk starts strictly increase, every chunk but the last was had, every request is accounted for by a chunk, and a pull that came short ends in a failed chunk or a lost gateway |
| PullSuccess.ChunkExactly | py/profile_pull.py:57-101 | on any wire, exactly what a chunk comes to: asked again while the gateway says 1015 or 1016, four times at most; had if the last reply is GOOD; failed with the gateway; otherwise what the first kept reply gives that exactly one flipped bit turns into a GOOD frame of this pump of the size asked for, and missing if and only if no kept reply is such |
| PullSuccess.RetryingRecovers | py/profile_pull.py:57-58 | a chunk lost or damaged on the bus up to three times and then answered is had, with one attempt more |
| PullSuccess.OneFlipChunkIsHad | py/profile_pull.py:61-101 | a chunk each of whose replies is the true GOOD frame with at most one bit flipped, whatever the gateway says of it, is always had and true |
| PullSuccess.OneFlipPullIsWhole | py/profile_pull.py:104-125 | on a bus that does no worse, every pull ends with the whole trace |
| PullAlignment.LandsExactly | py/profile_pull.py:117-124 | on any wire: a chunk lands at the byte it was asked from if and only if every chunk had before it was whole words, which the code does not check |
| PullAlignment.DataIsReceived | py/profile_pull.py:104-125 | on any wire: the data assembled is the chunks had, in order and nothing else |
| PullAlignment.PullAsksForTheRest | py/profile_pull.py:110-111 | every request is for all the words still missing, or 500 of them |
| PullAlignment.EvenRepliesAreWhole | py/profile_pull.py:61-101 | if no GOOD reply is of odd length, every chunk had is whole words, repaired ones included |
| EndToEnd.PassingNoiseIsTrue | py/profile_pull.py:61-64 | a reply with up to two flips that passes its check is the true reply |
| EndToEnd.RepairedNoiseIsTrue | py/profile_pull.py:61-79 | a reply with up to two flips and a single repairing bit is repaired into the true reply |
| EndToEnd.ChunkIsTrue | py/profile_pull.py:82-101 | whatever was retried and repaired, a chunk that was had is the trace's own bytes from where it was asked |
| EndToEnd.ReceivedIsTrue | py/profile_pull.py:104-125 | every chunk had is the trace's own bytes from the word its words before it lead to, for replies of any length |
| EndToEnd.PulledDataIsTrue | py/profile_pull.py:104-125 | with at most two flipped bits a reply, replies lost or refused at will and of any length: if every chunk had but the last was whole words, the data pulled is a prefix of the pump's trace |
| EndToEnd.EvenRepliesPullTrue | py/profile_pull.py:50-51 | if no GOOD reply is of odd length, that holds of every pull, and a complete pull is the whole trace |
| PullLimits.ThreeFlipsAccepted | py/profile_pull.py:61-79 | for every GOOD reply, three flips inside its CRC are repaired into other data that passes every check of the repair |
| PullLimits.TrustedExactly | py/profile_pull.py:61-79 | in a valid frame of three bytes or more, damage by up to k flips is never passed or repaired into another frame if and only if k is at most two for up to 4095 bytes, and at most one beyond |
| PullLimits.OddReplyMisaligns | py/profile_pull.py:117-124 | a witness: after a GOOD reply of odd length, every byte of it true, the pull repeats a byte |
| PullLimits.OddRepliesComplete | py/profile_pull.py:50-51 | a witness: two odd replies of true bytes make a pull that counts as complete and is not the trace |
| TraceCodec.Decode | py/profile_decode.py:58-130 | on any words and limit, the samples or the failure, and the note on the unused bit, are those of the block-by-block definition |
| TraceCodec.DecodeDeltas | py/profile_decode.py:89-117 | the rest of a delta block: all its packed words are read, as many samples as the count and the limit allow, each the one before minus a signed five-bit delta modulo 2^16 |
| TraceBlocks.BlocksToSamples | mock/mock_ncs.py:188-202 | the emulator's accumulator loop gives the samples its blocks stand for |
| TraceBlocks.BlocksToWords | mock/mock_ncs.py:205-221 | the emulator's encoder loop gives the encoded words, deltas padded and packed three to a word |
| TraceBlocks.ExpandBlock | py/profile_decode.py:66-128 | one encoded block before any words: a run or raw block that does not fit ends the trace at once, a delta block only without any room; else it gives its samples, as many as there is room for |
| TraceBlocks.ExpandBlocks | py/profile_decode.py:66-130 | encoded blocks in front of any words decode to their samples followed by what the rest decodes to |
| TraceBlocks.RoundTrip | py/profile_decode.py:58-130 | decoding encoded blocks, asked for as many samples as they stand for, gives exactly those samples and no note |
| TraceBlocks.NeverMoreThanAsked | py/profile_decode.py:76-128 | no words make the decoder exceed its limit |
| TraceBlocks.CutBlockExactly | py/profile_decode.py:49-55 | behind any whole blocks that leave room, words that end inside a block raise if and only if it is no raw block too long for the limit anyway |
| TraceBlocks.LimitIsMonotone | py/profile_decode.py:76-128 | when decoding succeeds with a limit it succeeds with every lower one, and gives a prefix |
| TraceBlocks.UnusedBitContained | py/profile_decode.py:93-117 | behind any whole blocks, damaged or not, and in front of any words: setting one clear top bit changes no sample if that word's first delta is not negative, and otherwise lowers exactly the rest of its block by 32 modulo 2^16; whether decoding fails does not change |
| TraceBlocks.UnusedBitNoted | py/profile_decode.py:93-96 | that damage is always noted, unless something was noted earlier, with the number of samples before it; set bits in later words do not matter |
| TraceBlocks.EncodedIsWhole | mock/mock_ncs.py:205-221 | the emulator's words end where a block does and count its samples, so the two laws above hold behind any encoded blocks |
| Rendering.DecodeTrace | py/render.py:134-154 | the samples and notes of one trace are the trusted ones and those of the two laws below |
| Rendering.TrustedExactly | py/render.py:129-153 | samples are trusted if and only if the encoding byte is 1, the data has exactly the expected bytes, and the words decode to exactly the promised number, whatever was repaired on the way |
| Rendering.NotesExactly | py/render.py:134-154 | for every kind of note, exactly when it is made and what it says |
| Rendering.AllNotesExactly | py/render.py:132-154 | the notes are those of all the traces and no others |
| Rendering.DecodeTraces | py/render.py:122-155 | every trace so decoded in order, or nothing when the encoding is unknown |
| Rendering.FillHeader | py/render.py:212-232 | the header's columns say what the header says, scaled to their units and back without loss, or are empty when there is none; its problems are listed in order |
| Rendering.HeaderProblemsExactly | py/render.py:228-232 | for every kind of problem line, exactly when the header adds it, disagreeing times included |
| Rendering.OfTracesExactly | py/render.py:209 | every note about a trace is in the problem list, and nothing else comes from there |
| Rendering.BlanksExactly | py/render.py:234-236 | the blank traces listed are exactly those without samples |
| Rendering.BlanksCounted | py/render.py:234-236 | and there are as many listed as there are such traces |
| Rendering.ListedRepairsExactly | py/render.py:241-244 | the repairs listed are exactly those on record in traces that have samples |
| Rendering.FailedChunksExactly | py/render.py:237-240 | the failed chunks counted are exactly those marked failed |
| Rendering.DispenseRecord | py/render.py:185-245 | every column from the profile info, the collection and the header is filled from its own source; blank traces, retries, failed chunks and repairs are the account of the traces; it is reconstructed if and only if it lists a repair |
| Rendering.ProfileFrame | py/profile_decode.py:228-241 | eleven columns of equal length: the seconds from the trigger, and each trace under its own title; each cell is empty if the trace is blank, and otherwise scaled back it is the number with the sample's sixteen bits, signed or unsigned as the column is |
| Rendering.CellSaysSample | py/profile_decode.py:219-225 | a cell times its scale is an integer with the raw word's sixteen bits, in the signed range if and only if the column is signed |
| Rendering.ColumnTellsSamples | py/profile_decode.py:219-225 | scaling loses nothing: a column gives back the samples it was made from, or that there were none |
| Rendering.TimeRunsEvenly | py/profile_decode.py:178-183 | the trigger sample is at second zero and each sample is one interval after the one before |
| Rendering.ToSigned | py/profile_decode.py:40-46 | the signed reading is the one 16-bit signed number with the same bits |
| Pipeline.ColumnsAreTrue | py/render.py:122-155 | from the bus to the column: under at most two flips a reply, each trace decodes to exactly the samples the pump recorded when its pull has all its bytes, repaired or not, and is left blank when it has not |
| Pipeline.OneFlipColumnsAreWhole | py/render.py:122-155 | behind a bus that flips at most one bit of each reply no column is blank: all ten are the recorded samples |
| Pipeline.StoredIsAlwaysTrue | py/render.py:272-300 | over every history of a pump behind such a bus, with every write failing or breaking off at will, every profile stored whole anywhere has every column either blank or exactly as recorded |
| Pipeline.CleanIsExactlyAsRecorded | py/render.py:259-261 | over every such history, a cycle remembered clean is in every destination whole, with all ten columns exactly as recorded |
| Pipeline.CollectedReadsBack | py/capture.py:47-121 | every capture a run collects, on any wire, is read back the same from any directory it was saved to |
| Pipeline.OrderedPullIsAPull | py/profile_pull.py:128-135 | each trace of an ordered profile pull is a pull of that trace from some point of the session |
| Pipeline.CleanRowMeansIntact | py/render.py:252-261 | a row counts as clean if and only if every trace could be trusted and no reply in any of them was repaired |
| Pipeline.RetriesAccounted | py/render.py:234-245 | the retries a row reports are all requests made beyond one per chunk |
| Collected.CollectedCycles.Set | py/file_writer.py:92-100 | memory becomes the remembered and pruned one; the file changes only if the save works |
| Collected.OrderIsTotal | py/render.py:252-256 | comparing flaws is a total order with clean as its least element |
| Collected.RememberExactly | py/file_writer.py:92-95 | after remembering a cycle, a cycle is remembered if and only if it was or is this one and nothing remembered is ten or more ahead of it |
| Writers.StoreIn | py/render.py:290-293 | one destination, either write failing before it took effect, after, or half way: the row is only written once its profile is, and links to it |
| Writers.Render | py/render.py:272-300 | a result is kept back if and only if the cycle is remembered with fewer blank traces, or as many and nothing reconstructed while this one is; otherwise every destination is tried once; it is written, and remembered, if and only if every write and the save worked; the row comes back linked |
| StoreLaws.StaysSoundExactly | py/render.py:272-300 | a render keeps every destination's row and profile of every remembered cycle there, as clean and with as few blank columns as remembered, if and only if it does not break off the writing of something remembered; and rows keep linking to profiles |
| StoreLaws.EmptyIsSound | py/file_writer.py:79-84 | so it is with nothing stored and nothing remembered |
| StoreLaws.HistoryStaysSound | py/render.py:272-300 | so it is at every point of every history that starts so and breaks off nothing remembered |
| StoreLaws.CleanIsAlwaysWhole | py/render.py:259-300 | at every point of every history, with writes breaking off at will, a cycle remembered clean is whole in every destination: a clean row, and a profile without blanks |
| StoreLaws.RowTellsBlanks | py/render.py:234-236 | a profile has no more blank columns than its row lists blank traces |
| StoreLaws.HistoriesJoin | py/extract.py:122-153 | a history that starts where another ended continues it |
| StoreLaws.MemoryOnlyImproves | py/render.py:281-283 | what is remembered of a cycle never gets worse while it is remembered |
| StoreLaws.KeptExactly | py/render.py:281-283 | in every step of a history too, a result is refused exactly then |
| StoreLaws.WrittenIsRemembered | py/render.py:299 | a result that was written is remembered with its own blank traces and flag, unless something ten cycles ahead is |
| StoreLaws.CleanIsStored | py/render.py:281-300 | a clean result is never refused, and when written is in every destination and remembered clean |
| StoreLaws.AskedExactly | py/extract.py:124-129 | a cycle is asked for unless it is remembered with no blank trace and nothing reconstructed |
| StoreLaws.WrittenEverywhere | py/render.py:285-300 | a render that reports success has put its row and profile in every destination and remembered them |
| StoreLaws.NeverWorsensExactly | py/render.py:281-297 | a destination's row of the cycle is safe from a render, however it ends, if and only if the result is refused; if no write breaks off, also if it is at least as clean as that row |
| StoreLaws.PartialFailureCanWorsen | py/render.py:285-297 | a clean row that was stored but not remembered can be replaced by a worse one |
| StoreLaws.HeldIsNeverEvicted | py/file_writer.py:92-95 | if the newest cycle never goes back, a remembered cycle stays remembered, no worse, for as long as the pump may hold it |
| StoreLaws.CleanIsNeverAskedForAgain | py/extract.py:124-129 | over any runs with any failures, if the newest cycle never goes back, the pump is never again asked for a cycle once remembered clean, and nothing of it changes |
| StoreLaws.RememberedAtAllExactly | py/file_writer.py:92-95 | a cycle just collected is remembered at all if and only if nothing remembered is ten or more ahead of it, as it is after the counter goes back |
| Extract.ReadNewestCycle | py/pump_reader.py:180-189 | the cycle of the first of two replies that gives one; none if and only if neither does; nothing if the gateway fails in a read that is made |
| Extract.ReadDispenseHeader | py/pump_reader.py:213-259 | the header from the reads of its instants with its list of problems, parts for another cycle left out, nothing if the gateway fails in a read that is made |
| Extract.HeaderExactly | py/pump_reader.py:226-258 | each part is taken exactly when its reply is about the same dispense, or comes with no word about which; the confirmation exactly when its time agrees |
| Extract.HeaderLinesExactly | py/pump_reader.py:218-258 | for every kind of problem line, exactly when it is noted |
| Extract.HeaderIsReadBetween | py/pump_reader.py:213-259 | with a pump dispensing at will between reads, each part of the header is true of some instant of the reading, and its tied parts of its own cycle |
| Extract.SandwichedHeader | py/extract.py:69-86 | a header whose cycle is still the newest later on is about that cycle in all its parts |
| Extract.AttachHeader | py/extract.py:69-86 | the header is attached if and only if it and the re-read both name this cycle, and then this cycle was the newest dispense at every instant in between and the whole header, recipe title included, is about it |
| Extract.ReadProfileInfoExactly | py/pump_reader.py:192-202 | profile info is taken if and only if it is the data of a GOOD frame of this pump and has all ten sizes; a cycle is not held if and only if the frame says 29; any other refusal or damage fails |
| Extract.CollectCycle | py/extract.py:55-86 | a cycle is collected if and only if its own profile info comes back so, the gateway survives the pull, and is there when a header for it is checked; nothing is collected if and only if the pump says it is not held; the capture holds that info and the ten traces as pulled; the header is as above, or exactly why there is none |
| Extract.HeldFrom | py/extract.py:124 | the cycles looked at are exactly the newest and the two before it that exist, newest first |
| Extract.ExtractCycle | py/extract.py:124-153 | a cycle remembered clean is passed over without a single request; any other is asked for once and rendered if and only if it was collected; the run fails if and only if it was neither collected nor said not to be held, or its render raised; the result says which |
| Extract.ExtractCycles | py/extract.py:124-153 | a run is a history of visits to the held cycles in order, each result reporting its visit; unless it failed every one was dealt with; and the pump was asked for exactly the cycles not remembered clean |
| Extract.ExtractPump | py/extract.py:118-153 | one run from reading the newest cycle and the header on: a history from what was on disk to what is, for a newest cycle that was the pump's own in between; it ends early if and only if no newest cycle or header could be read, and fails otherwise only by its last visit |
| Extract.KeepCollecting | py/bridge.py:79-93 | run after run, whatever fails in any of them, is one history whose newest cycle never goes back, and the pump was asked for exactly what that history says |
| CaptureFiles.WriteRaw | py/capture.py:47-82 | the directory afterwards is the old one with every file of the capture written in order |
| CaptureFiles.ReadRaw | py/capture.py:84-121 | the capture the named files make, or nothing if one is missing |
| CaptureFiles.ReadBackExactly | py/capture.py:84-121 | a directory is read if and only if every file is there, each trace and each bad reply it names included |
| CaptureFiles.NamesAreDistinct | py/capture.py:20-28 | no two files of a capture share a name |
| Decimal.DecReadsBack | py/capture.py:20-28 | a number in a file name is its decimal digits |
| CaptureFiles.FileHolds | py/capture.py:47-82 | every file holds what was written to it, whatever the directory held before |
| CaptureFiles.CaptureRoundTrip | py/capture.py:47-121 | reading back what was written gives the same capture with every bad reply intact |
| CaptureFiles.PulledChunksAreOrdered | py/profile_pull.py:104-125 | every pull, on any wire, leaves the order that keeps its file names apart |
| Svid.WalkReply | py/svid.py:107-140 | the loop gives the values read one after another and the count left over, or raises at the first that runs out |
| Svid.DecodeStringExactly | py/svid.py:100-104 | text is everything before the first null, each byte that is not ASCII replaced |
| Svid.BuildRequest | py/svid.py:87-97 | a request is built if and only if every number is registered, and is the numbers as little endian words |
| Svid.WalkInvertsEncode | mock/mock_ncs.py:475-489 | for any registered numbers and values in range, walking the reply gives them back with exactly the appended bytes left over |
| Svid.CutReplyRaises | py/svid.py:107-140 | every proper prefix of a reply raises, for the value it is cut in |
| Bridge.BusGroups | py/pump_config.py:117-125 | one group per bus, holding that bus's pumps, every pump's bus has one, and the groups come in the order their buses first come up in the table |
| Bridge.SharedExactly | py/pump_config.py:117-125 | two pumps are in one group if and only if host, port and COM port agree |
| Bridge.OnBusJoined | py/pump_config.py:122-124 | a group keeps the order of the table |
| Bridge.GroupsPartition | py/pump_config.py:117-125 | the groups together hold every pump exactly as often as the table does |
| Bridge.AllPumpsJoined | py/bridge.py:32-33 | the groups' pumps come group by group in the order of the groups |
| Bridge.RunPumps | py/bridge.py:27-35 | what is collected from is the due pumps of all groups, group by group |
| Bridge.DueRunsExactlyOnce | py/bridge.py:27-35 | in a batch a due pump is collected from exactly once and any other not at all |
| Bridge.Bridge.Batch | py/bridge.py:79-90 | one pass collects from those due and moves their next times to the later of a frequency after the batch's start and the clock; other times stay |
| Bridge.Bridge.Wait | py/bridge.py:91-93 | after the wait someone is due, and nobody is any sooner |
| Bridge.DueTimesNeverGoBack | py/bridge.py:76-93 | over a whole history with a clock that never goes back, no pump's due time goes back |
| Bridge.BatchesAreSpaced | py/bridge.py:76-93 | two batches that both collect from a pump start at least its frequency apart |
| Bridge.RunsAgainExactly | py/bridge.py:88-90 | after a batch that collects from a pump, a later one is the next to do so if and only if it is the first to start a frequency or more after it, however long the batches took |

## Left out

- The C++ tree, sockets, timeouts, pacing sleeps, the comms log, command line programs and the offline diagnosis output.
- The cloud database and bucket writers and pandas text: a writer is a map of rows and a map of profiles with steps that may fail.
- Floating point: units and times are exact reals, whose decimals the source's rounding keeps. Dates and all text formatting.
- The struct tables: profile info is a record and its parsing a parameter that fails on a reply too short to be asked for its traces; DISPENSE_INFO, LAST_DIS_INFO_2 and RTSTATUS are the fields the logic uses.
- The columns a row leaves to the database and the decoder's version number.
- The texts of errors and notes; a note says what is wrong and with which trace.
- JSON syntax: saving and loading is the identity on the values saved.
- Pump commands other than the trace, profile, header and SVID reads; reading who the pump is, and its own row.
- Parsing pump addresses and the pump table's CSV; an address is already four fields, and a table lists each once.
- The memory and the outputs are those of one pump: the serial number that files them is fixed over a history.
- The list of destinations is fixed over a history; one added after a cycle is remembered clean does not get that cycle.
- The raw capture's own write failing, which ends a run before its render and leaves outputs and memory as they were.
- The process being stopped is the same as a run that ends there with the write in hand failing in some way.
- The pump changing a profile it already holds while it is being pulled.
- NcsProtocol.ParseResponse: states only the bound on the body; what is accepted is in `NcsProtocol.AcceptedExactly`.
- TraceCodec.Decode: the call without a notes list is the same with the note ignored.
- Bridge.Bridge.Wait: an empty pump table, on which the source's `min` raises, is excluded.
- Svid.WalkReply: a float is its four bytes; a byte that is not ASCII becomes one replacement character.
