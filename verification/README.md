# Upipe: framing, timelines and small protocols

This project models seven self-contained algorithms of the Upipe multimedia framework and its example programs, and
proves what they keep, undo, or lose, over every input and every run. `dafny verify dfyconfig.toml` checks it.

| module | what it models |
|---|---|
| `NalIndex` | the index of NAL units kept beside the bytes of a coded picture: walking it, rewriting it on the way, prepending a NAL, deleting it |
| `H26xConvert` | changing the encapsulation of every NAL of a frame, the client that walks the index with a running correction |
| `RewriteDate`, `SeekGate`, `Variant` | the date rewriter, the seek gate and the variant choice of `hls2rtp` |
| `Rtcp` | the compound RTCP loop of `rist_tx`: sender reports, round-trip time, extended reports |
| `PeerTable` | the table of RTCP peers of `rist_rx`, with expiry timers |
| `Reconcile`, `HexDump` | the elementary-stream list and the hexadecimal dump of `frame` |
| `ControlWord` | three grammars of control words and the printer that feeds one of them |
| `Chunks`, `BigEndian`, `Hex`, `Machine` | byte strings laid end to end; numbers as bytes and as hexadecimal digits; machine arithmetic and result codes |

Each object the program updates in place is a class whose methods follow the C code and are proved against a
function of the old state; the main results are lemmas about those functions, over single calls and over whole runs.
Calls the C code makes on errors, unsigned wrap-around and null pointers are part of the models.

## What turned out not to hold

Six promises fail for some inputs. The models follow the code, and each failure has its exact condition.

- A block with no bytes has no segment, so the insertion in `ubuf_block_insert` fails on it. Building a frame from an
  empty one by prepending therefore loses every buffer; from any nonempty block it is exact (`BuildWalkRoundTrip`).
  For the same reason a rewriting pass is refused if and only if an edit inserts where nothing remains (`RewritePass`).
- `uref_h26x_iterate_nal` writes the corrected entry of a NAL before its caller edits that NAL. A caller that edits
  ahead of the call leaves a right table (`RewritePass`). `upipe_h26xf_convert_frame` edits after it: the bytes and
  the sizes it sees are right, but each entry it leaves lacks the change of its own NAL (`ConvertFrame`), so a later
  walk returns the converted NALs if and only if no NAL with an entry changed the size of its head (`ConvertedWalk`).
- The same loop compares the old header size with new offsets. For every pair of encapsulations, start codes of 3 and
  4 bytes mixed or not, either no NAL of a frame shrinks or all do (`ConvertedSizes`). If all shrink, the header size
  still ends at its NAL only if that is the first one; otherwise it does if and only if each NAL before it whose head
  becomes longer starts, converted, before the old header size (`HeaderFollows`). Two small frames show both ways of
  failing (`HeaderStaysBehind`, `HeaderFallsShort`).
- The seek target is a sum of two `uint64_t`. The gate is exact for every sequence starting at a given date if and
  only if that sum does not wrap (`SeekIsExact`).
- Announcing the peer that is already the last one restarts its timer. If that timer expires, the next announcement
  restarts a timer that no longer exists (`AnnouncePhase`, `CrashIsDoom`, `CrashingRun`); as long as no announcement
  names the last peer, no run crashes (`CleanRun`).
- A receiver report that quotes the stored sender report overwrites the arrival time of its datagram. At any point of
  any datagram that time is the original one less all that such reports took off it, modulo 2^64 (`ArrivalBehind`). A
  sender report behind any packets is stamped with that, and it is the arrival time if and only if what was taken off
  is 0 modulo 2^64; if the difference happens to read as unknown, it is not stamped at all (`StampAfterReports`,
  `StampFails`). The round trip itself is right for the first such report of a datagram (`RoundTrip`).

## Model

| member | source | states |
|---|---|---|
| NalIndex.Uref.IterateNal | include/upipe-framers/uref_h26x.h:57-87 | On any index, valid or not, one call does what the step function says to the table and to the three in-out arguments, also when it reports an error |
| NalIndex.IterateInNumbers | include/upipe-framers/uref_h26x.h:57-87 | On any index, when a step fails, and the entry it writes, the counter, the offset and the size it returns, modulo 2^64, in terms of the old ones |
| NalIndex.NalsDescribe | include/upipe-framers/uref_h26x.h:42-43 | Contiguous entries that do not decrease and stay inside the block are the boundaries of a list of NALs, the last of which may have no entry |
| NalIndex.DescribesUnique | include/upipe-framers/uref_h26x.h:42-43 | A table and a block describe one list of NALs only, and whatever they describe is valid |
| NalIndex.WalkReturnsNals | include/upipe-framers/uref_h26x.h:57-87 | Walking a valid index ends, after one visit for each entry and one more exactly if bytes remain; the visits tile the block in order and hold the NALs |
| NalIndex.WalkDeterministic | include/upipe-framers/uref_h26x.h:57-87 | What a walk returns is determined by the index, so two lists of visits of the same index are equal |
| NalIndex.RewritePass | include/upipe-framers/uref_h26x.h:57-87 | With one edit in front of each NAL before the call that returns it, each a deletion and an insertion as the block functions do them, the pass is refused if and only if some edit inserts where no byte remains behind the boundary, and then the calls before the first such edit have returned the edited NALs; otherwise it returns exactly the edited NALs and then an error, leaves a valid table of the rewritten block, and a second pass without correction returns the same; NAL i is what edit i inserts followed by what it leaves of the old NAL, and a last NAL edited to nothing disappears if it had no entry |
| NalIndex.Uref.PrependNal | include/upipe-framers/uref_h26x.h:95-115 | On any table, valid or not, the loop that overwrites each entry just after reading it writes the old boundary before each index plus the size of the new NAL, in 64-bit arithmetic, up to and including the first index that had no entry, leaves later entries alone, and puts the bytes in front; on an empty block it reports an error and changes nothing |
| NalIndex.MovedUpIsShifted | include/upipe-framers/uref_h26x.h:101-113 | On a valid index that table has one entry more, the first of them the size of the new NAL and each other one an old entry plus that size, with no wrap-around |
| NalIndex.MovedUpEntry | include/upipe-framers/uref_h26x.h:101-113 | On any table, every entry it leaves in numbers: the size, each old entry plus the size modulo 2^64, and the entries behind the first gap untouched |
| NalIndex.PrependedNals | include/upipe-framers/uref_h26x.h:95-115 | After prepending the index is valid and denotes the new NAL followed by all the old ones, byte for byte, with or without an entry for the last |
| NalIndex.BuildWalkRoundTrip | include/upipe-framers/uref_h26x.h:57-115 | Prepending any buffers in reverse and walking returns those buffers, empty ones included, and the block, then an error, if and only if the block had a byte or there were no buffers |
| NalIndex.EmptyFrameLosesBuffers | include/upipe/ubuf_block.h:125-154 | A buffer prepended to an empty block is lost: the walk returns nothing |
| NalIndex.Uref.BlockInsert | include/upipe/ubuf_block.h:339-362 | Insertion succeeds exactly at an offset that some segment holds, hence never at the end or in an empty block, and then splices the bytes |
| NalIndex.Uref.BlockDelete | include/upipe/ubuf_block.h:371-416 | Deletion succeeds exactly if it starts and ends inside the block, and removes those bytes |
| NalIndex.Uref.DeleteNalOffsets | include/upipe-framers/uref_h26x.h:123-127 | Exactly the entries before the first missing one are removed, on any table |
| NalIndex.DeletedWalk | include/upipe-framers/uref_h26x.h:123-127 | On a valid index that leaves no entry, and a nonempty block then walks as a single NAL |
| H26xConvert.DecapsNal | lib/upipe-framers/upipe_h26x_common.c:165-200 | When it fails, and which bytes, size and correction it leaves, for each encapsulation and for start codes of 3 and 4 bytes |
| H26xConvert.EncapsNal | lib/upipe-framers/upipe_h26x_common.c:215-274 | It fails exactly on a size the length field cannot hold or where no segment holds the offset, and otherwise inserts the head in front of the payload, which for Annex B is the bytes 0, 0, 0, 1 |
| H26xConvert.ConvertedPayload | lib/upipe-framers/upipe_h26x_common.c:165-274 | A converted NAL decapsulates to the original payload; it is the start code 0, 0, 0, 1 or the size of the payload, most significant byte first, and then the payload, if and only if the size fits |
| H26xConvert.PayloadBytes | lib/upipe-framers/upipe_h26x_common.c:168-195 | What counts as a NAL in each encapsulation and what its payload is, in bytes; a start code has 3 bytes exactly if its third byte is 1 |
| H26xConvert.HeadNumber | lib/upipe-framers/upipe_h26x_common.c:231-260 | A length field reads back the size if and only if that is within its limit, and otherwise another number |
| H26xConvert.EncodableSizes | lib/upipe-framers/upipe_h26x_common.c:231-260 | The limits are 256, 256^2 and 256^4 |
| H26xConvert.ConvertBack | lib/upipe-framers/upipe_h26x_common.c:165-274 | Converting a NAL forth and back restores it if and only if its head was the one this code writes |
| H26xConvert.ConvertFrame | lib/upipe-framers/upipe_h26x_common.c:286-317 | The frame is converted if and only if each payload fits and a byte remains to insert its head before; then the block is the converted NALs in order, between their boundaries each is its payload behind its start code 0, 0, 0, 1 or its size, each entry is the boundary of its NAL less the change in size of that NAL, and the header size is the one the loop computes, none if there was none |
| H26xConvert.ConvertedWalk | lib/upipe-framers/upipe_h26x_common.c:295-313 | After a conversion a walk returns the converted NALs if and only if every NAL with an entry has a new head of the size of the old one |
| H26xConvert.ConvertedWalkFails | lib/upipe-framers/upipe_h26x_common.c:295-313 | Two NALs taken out of their 4-byte start codes are no longer found by a walk |
| H26xConvert.HeaderFollows | lib/upipe-framers/upipe_h26x_common.c:292-312 | After the conversion of any frame the header size still ends where its NAL starts if and only if, when heads become shorter, no NAL precedes it, and otherwise each NAL before it whose head becomes longer starts, converted, before the old header size |
| H26xConvert.HeaderGrowing | lib/upipe-framers/upipe_h26x_common.c:308-312 | The same for any list of NALs none of which shrinks, whatever the changes in size |
| H26xConvert.HeaderShrinking | lib/upipe-framers/upipe_h26x_common.c:308-312 | If all NALs shrink the loop never follows a NAL but the first, wrap-around included |
| H26xConvert.ConvertedSizes | lib/upipe-framers/upipe_h26x_common.c:165-274 | The pair of encapsulations alone decides whether all NALs of a frame shrink or none does, for start codes of 3 and 4 bytes mixed too |
| H26xConvert.HeaderStaysBehind | lib/upipe-framers/upipe_h26x_common.c:308-312 | Two NALs taken out of start codes of 3 and of 4 bytes: the header size stays 4 where the second NAL now starts at 1 |
| H26xConvert.HeaderFallsShort | lib/upipe-framers/upipe_h26x_common.c:308-312 | Two bare NALs of one byte given 4-byte lengths: a header size of 2, both of them, becomes 6 where they now end at 10 |
| RewriteDate.Timeline | examples/hls2rtp.c:424-446 | On every sequence of dates each state has highest equal to offset plus last clock reference; the second delta is 0; each output is the highest date so far, advances by the distance of the date if that is below the gap, and otherwise repeats the output before |
| RewriteDate.OutputsAdvance | examples/hls2rtp.c:424-446 | Outputs never decrease and grow by less than the gap; a discontinuity repeats the previous output |
| RewriteDate.FirstOutput | examples/hls2rtp.c:424-461 | The first output is 2576980377600, one wrap, plus the first date modulo the wrap if that is below 27000000 |
| RewriteDate.NextOutput | examples/hls2rtp.c:424-446 | Every other output moves by the difference of the two dates modulo 2576980377600 if that is below 27000000, and otherwise not at all; with the first output this gives every output |
| RewriteDate.ExactUnwrapping | examples/hls2rtp.c:424-446 | If the dates are an unbounded timeline modulo the wrap with steps below the gap, the outputs differ by exactly what the timeline does, across any number of wraps |
| RewriteDate.UnwrappedOutputs | examples/hls2rtp.c:424-461 | In that case each output is the first one, in numbers, plus the distance of its date on the timeline |
| RewriteDate.MachineAgrees | examples/hls2rtp.c:114-120 | The unsigned and signed 64-bit arithmetic, negative offsets included, gives the same outputs as unbounded integers for every run in which one wrap plus a gap for each date, each date plus a gap for each date, and each date plus one wrap stay below 2^64 |
| RewriteDate.MachineOutputs | examples/hls2rtp.c:424-446 | For 33-bit dates the machine's outputs are given by the same numbers |
| RewriteDate.StepInNumbers | examples/hls2rtp.c:424-446 | One step from any state on any date, outside those bounds too: both fields, the output and the highest date modulo 2^64 |
| RewriteDate.MachineUnwraps | examples/hls2rtp.c:424-446 | Unwrapping is exact in the machine arithmetic too |
| RewriteDate.RewriteDateProbe.constructor | examples/hls2rtp.c:453-463 | The initial clock reference and highest date are 2576980377600, one wrap, the offset is 0 |
| RewriteDate.RewriteDateProbe.Catch | examples/hls2rtp.c:406-449 | A uref without a date leaves the probe alone; one with a date updates the three fields and is given the rewritten date, in machine arithmetic |
| SeekGate.SeekProbe.Catch | examples/hls2rtp.c:478-514 | The new fields and the drop decision for any frame, with the wrap-around of the target, in terms of the old fields |
| SeekGate.KeptFrames | examples/hls2rtp.c:493-513 | For every sequence of frames, those kept are exactly those with a date when no seek was asked for, and otherwise those with a date from the first on which the gate can open |
| SeekGate.KeptFrom | examples/hls2rtp.c:493-513 | In full, without wrap-around: a frame is kept exactly if it has a date and a key frame at or after the first date plus the seek was seen by then |
| SeekGate.StaysOpen | examples/hls2rtp.c:493-513 | Once a frame was kept every later frame with a date is kept |
| SeekGate.SeekIsExact | examples/hls2rtp.c:499-512 | For all sequences starting at a given date, the frames kept are those from the first key frame at or after that date plus the seek, if and only if this sum is below 2^64 |
| Variant.SelectVariant | examples/hls2rtp.c:193-213 | The single pass returns the first variant with the requested id, otherwise the first one of greatest positive bandwidth within the limit, otherwise the first without bandwidth, otherwise none |
| Variant.ChoiceInNumbers | examples/hls2rtp.c:193-213 | The same on ids and bandwidths themselves, a missing bandwidth being 0: no variant beats the chosen one |
| Variant.ChoiceIsUnique | examples/hls2rtp.c:193-213 | That description determines the variant |
| Rtcp.VisitedTile | examples/rist_tx.c:116-127 | On arbitrary bytes the loop ends, the packets visited are well-formed and tile a prefix, and no well-formed packet starts where it stops |
| Rtcp.VisitedBytes | examples/rist_tx.c:116-126 | The same in bytes: version 2, the length 4 times one more than bytes 2 and 3 say, and why the loop stops |
| Rtcp.CompoundRoundTrip | examples/rist_tx.c:116-219 | On any concatenation of well-formed packets the loop visits exactly those, in order, and nothing is left |
| Rtcp.ConsumesCompounds | examples/rist_tx.c:116-219 | The loop consumes a datagram entirely if and only if it is a concatenation of well-formed packets |
| Rtcp.ParseBehind | examples/rist_tx.c:116-219 | In front of any bytes, well-formed packets are visited one by one, and the loop goes on with those bytes from the state behind the packets |
| Rtcp.WalkBehind | examples/rist_tx.c:116-219 | On arbitrary bytes the final state is the one behind the packets visited |
| Rtcp.ArrivalBehind | examples/rist_tx.c:139-155 | Behind any packets, whatever follows them, the arrival time is the original one less all that matching receiver reports took off it, modulo 2^64, and nothing is taken off once it is unknown |
| Rtcp.ArrivalAfter | examples/rist_tx.c:139-155 | The same at the end of an arbitrary datagram |
| Rtcp.ArrivalKept | examples/rist_tx.c:128-168 | While the arrival time is unknown, or no matching receiver report is met, it survives the datagram, each reply carries it or nothing, and an unknown one never replaces the stored time of a sender report |
| Rtcp.StoredNtp | examples/rist_tx.c:128-138 | Over well-formed datagrams the stored NTP time is that of the last sender report, or the one before if there is none |
| Rtcp.RttBound | examples/rist_tx.c:139-155 | For a receiver report that quotes the stored sender report and gives its hold time rounded down, whatever follows it, the computed round trip is at least the true one and exceeds it by less than a 65536th of a second and one tick |
| Rtcp.RoundTrip | examples/rist_tx.c:128-155 | The same bound over two datagrams with any other packets: from the last sender report of the first to the first report in the second that quotes it, whose bytes 24 to 27 are bytes 10 to 13 of the sender report |
| Rtcp.StampAfterReports | examples/rist_tx.c:128-155 | A sender report behind any packets is stamped with the arrival time less what reports took off it, or not at all if that reads as unknown, and this is the arrival time if and only if what was taken off is 0 modulo 2^64 |
| Rtcp.StampFails | examples/rist_tx.c:128-155 | A receiver report and a sender report in one datagram that arrives at 100: the sender report is stamped 95 |
| Rtcp.RepliesAnswer | examples/rist_tx.c:156-213 | Over well-formed datagrams the replies are, in order, one for each extended report whose first block is a receiver reference time of the right length, made from that packet alone |
| Rtcp.ReplyIsReport | examples/rist_tx.c:181-207 | Each reply is one well-formed packet that the same loop consumes without answering; its block has the right length and carries bytes 4 to 7 of the request, the SSRC, its bytes 14 to 17, the middle of the NTP time, and no delay |
| Rtcp.BuildReply | examples/rist_tx.c:177-207 | The buffer written field by field holds exactly that packet, byte by byte |
| Rtcp.Responder.HandlePacket | examples/rist_tx.c:127-216 | Every branch of the switch, with the length checks on what is left of the datagram and the wrap-around of the subtractions |
| Rtcp.SenderReport | examples/rist_tx.c:128-138 | In bytes: from 28 bytes on, type 200 stores the number in bytes 8 to 15 and the arrival time if it is known |
| Rtcp.ReceiverReport | examples/rist_tx.c:139-155 | From 32 bytes on, type 201 with a block takes the stored arrival and bytes 28 to 31 in ticks of 27 MHz off a known arrival time if bytes 24 to 27 are the middle of the stored time, and does nothing otherwise |
| Rtcp.ReferenceTime | examples/rist_tx.c:156-213 | From 20 bytes on, type 207 with a block of type 4 and length 2 is answered with this packet, byte by byte, and the arrival time if it is known |
| Rtcp.OtherPackets | examples/rist_tx.c:127-216 | Anything else, shorter packets of these types included, changes nothing and is not answered |
| Rtcp.QuotedBytes | examples/rist_tx.c:128-149 | Behind a sender report a packet matches if and only if it is a receiver report of 32 bytes with a block whose bytes 24 to 27 are bytes 10 to 13 of the sender report |
| Rtcp.FieldNumbers | examples/rist_tx.c:131-143 | The fields of 2, 4 and 8 bytes are numbers with the most significant byte first |
| Rtcp.Responder.ParseRtcp | examples/rist_tx.c:113-221 | The loop sends the replies, and leaves the two variables, that the walk over the datagram determines |
| PeerTable.EveryRun | examples/rist_rx.c:128-228 | In every run active slots have distinct addresses, a timer exists exactly for each active slot, and only the last peer can have a stopped one |
| PeerTable.AnnouncePhase | examples/rist_rx.c:172-228 | An announcement crashes exactly if the last peer has expired, changes nothing exactly if it is refused, and otherwise makes its peer active and last, with a stopped timer unless it already was the last one |
| PeerTable.ExpirePhase | examples/rist_rx.c:128-138 | An expiry keeps the table valid and dooms it exactly if it is that of the last peer |
| PeerTable.TimeoutFrees | examples/rist_rx.c:128-138 | An expiry makes its slot inactive, without timer, with the address it had, and leaves the other slots and the last peer as they were; without a running timer there is none |
| PeerTable.KnownPeer | examples/rist_rx.c:172-208 | The whole table after a known peer is announced: its timer stopped unless it was the last one, the timer of the last one running, every other slot as it was |
| PeerTable.AnotherPeer | examples/rist_rx.c:172-228 | The whole table after another peer is announced: it takes the first free slot with its timer stopped, the timer of the last one runs, every other slot is as it was; without a free slot nothing changes |
| PeerTable.ExpiredLastCrashes | examples/rist_rx.c:201-202 | With the timer of the last peer gone any announcement crashes |
| PeerTable.FreedSlotIsTaken | examples/rist_rx.c:128-228 | Right after the expiry of a peer that is not the last one a new peer is not refused |
| PeerTable.SettledStep | examples/rist_rx.c:128-228 | A step keeps the last peer's timer stopped if and only if it does not name the last peer |
| PeerTable.CleanRun | examples/rist_rx.c:128-228 | In every run in which no announcement names the last peer, nothing crashes, the last peer stays active with its timer stopped and every other active slot's timer runs |
| PeerTable.CrashIsDoom | examples/rist_rx.c:201-202 | A run crashes at an event if and only if it is an announcement and the last peer has expired |
| PeerTable.CrashingRun | examples/rist_rx.c:201-202 | The run that announces a peer twice, lets it expire and announces another crashes |
| PeerTable.Receiver.NewPeer | examples/rist_rx.c:172-228 | The scan settles on the slot with this address or else the first free one, and the table, timers and last peer become what the announcement says |
| PeerTable.Receiver.SinkTimeout | examples/rist_rx.c:128-138 | The slot becomes inactive, loses its timer and keeps its address; nothing else changes |
| Reconcile.Program.PidFind | examples/frame.c:162-171 | Found exactly if the pid is in the list |
| Reconcile.Program.PidAdd | examples/frame.c:173-182 | The list gains the pid once; entries go on agreeing with the filter if and only if the pid was there or none of them has this id |
| Reconcile.Program.EsAdd | examples/frame.c:349-379 | A new unmarked entry at the end, with a source exactly if the filter lets its id through |
| Reconcile.Program.CatchProg | examples/frame.c:412-457 | After an update the list is the old entries that are announced, the same objects in the same order, followed by one new entry for each flow that had none; ids stay distinct and agreement with the filter is kept |
| Reconcile.ReconciledIsAnnounced | examples/frame.c:412-457 | The ids are then exactly those announced, without duplicates |
| Reconcile.ReconciledTwice | examples/frame.c:412-457 | The same announcement again changes nothing |
| Reconcile.Run | examples/frame.c:412-457 | Over every run of options and updates the ids are those of the last update, distinct, and each entry has a source exactly if its pid membership agrees with the filter mode |
| HexDump.BlockRead | include/upipe/ubuf_block.h:193-210 | A read returns a nonempty piece of the block at the offset, from one segment, and fails exactly past the end |
| HexDump.Dump | examples/frame.c:219-252 | Whatever the segments, the loop prints the one listing of the first bytes of the block |
| HexDump.ListingLayout | examples/frame.c:231-249 | Every character of the listing at its place: lines of 50 characters, each an address, a colon and 8 groups of a space and two bytes |
| HexDump.AddressDigits | examples/frame.c:236 | An address is the offset of its line in 8 hexadecimal digits |
| HexDump.ListingInjective | examples/frame.c:231-249 | Two blocks print the same listing if and only if they hold the same bytes |
| ControlWord.ToCw128 | include/upipe-dvbcsa/upipe_dvbcsa_common.h:113-129 | Accepts exactly strings starting with 32 digits, matches those, and returns their 16 bytes |
| ControlWord.ToCw64 | include/upipe-dvbcsa/upipe_dvbcsa_common.h:136-159 | Accepts exactly strings starting with 16 digits whose bytes 3 and 7 are the sums modulo 256 of the three bytes before them, and returns the 8 bytes |
| ControlWord.ToCw48 | include/upipe-dvbcsa/upipe_dvbcsa_common.h:166-187 | Accepts exactly strings starting with 12 digits, and returns the 6 bytes with both sums inserted |
| ControlWord.ToCw | include/upipe-dvbcsa/upipe_dvbcsa_common.h:194-202 | The grammar is chosen by length alone, and a string the chosen grammar rejects is rejected |
| Hex.DigitPositions | include/upipe/ustring.h:667-706 | A digit is worth its position in 0123456789abcdef or in 0123456789ABCDEF, and the first is what is printed |
| Hex.NoOtherDigits | include/upipe/ustring.h:667-706 | No other character is a digit |
| ControlWord.PairValue | include/upipe/ustring.h:721-735 | A pair of digits in either case is worth 16 times the position of the first plus that of the second |
| ControlWord.EitherCase | include/upipe-dvbcsa/upipe_dvbcsa_common.h:113-202 | A string and its upper-case form are accepted together and have the same value, in every grammar |
| ControlWord.ChecksumBytes | include/upipe-dvbcsa/upipe_dvbcsa_common.h:146-151 | The 64-bit grammar asks exactly that bytes 3 and 7 are the sums of the three bytes before them modulo 256 |
| ControlWord.Grammars64And48 | include/upipe-dvbcsa/upipe_dvbcsa_common.h:136-187 | A 64-bit word is accepted if and only if its bytes are its six other bytes with their checksums, and then the same digits without the checksums parse, through the dispatch, to the same value |
| ControlWord.ExpandedIsAccepted | include/upipe-dvbcsa/upipe_dvbcsa_common.h:136-187 | Every valid 48-bit word, printed with its checksums, is an accepted 64-bit word of the same value |
| ControlWord.PrintKeys | examples/ts_encrypt.c:125-136 | Both buffers hold the 32 lower-case digits of their key and a final NUL |
| ControlWord.KeyRoundTrip | examples/ts_encrypt.c:125-136 | Every printed 16-byte key is handed to the 128-bit grammar, matched over all 32 characters and parsed to the same bytes |
| ControlWord.UpperKeyRoundTrip | examples/ts_encrypt.c:125-136 | The same for a key printed in upper case |

## Left out

- Pipe, probe and manager plumbing, option parsing, reference counting, logging and output formats other than the dump.
- Allocation failures: every allocation succeeds, so error returns that only an allocation can cause do not occur.
- Segments of a block: `NalIndex` and `H26xConvert` see a block as its bytes; `HexDump` sees the segments it reads.
- H26xConvert.ConvertFrame: a frame whose NALs are not in the input encapsulation is excluded; the source asserts that
  start codes begin with two zero bytes and otherwise trusts the format. What a frame looks like after a failed
  conversion is not stated, because its caller frees it.
- NalIndex.Uref.BlockDelete: a failing deletion leaves the block as it was; in the source it has already shortened
  segments without adjusting the total.
- H26xConvert.DecapsNal: where the deletion fails the block is left as it was, as in `BlockDelete`.
- NalIndex.RewritePass: whether the deletion of the edit that is refused was done is not stated.
- The narrowing of offsets to `int` in the block functions.
- RewriteDate.MachineAgrees: runs outside the bounds of its row are excluded; with 33-bit dates these have more than
  600 thousand million dates.
- The RTCP field accessors come from a library that is not part of this model; they follow RFC 3550 sections 6.1, 6.4.1
  and 6.4.2 and RFC 3611 sections 4.4 and 4.5. Setting the version writes the whole first byte.
- The address family and length checks of a new peer, the source-end event, sockets and the time at which timers expire.
- The notices that tell a created stream from an updated or untouched one; an update never replaces the stored flow
  definition.
- AES, DVB-CSA, libav, GL, ALSA and HTTP: libraries or input and output.
