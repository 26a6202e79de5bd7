# A verified model of the QoSRTP transport

QoSRTP sends media over RTP and repairs losses in two ways: by parity packets (ULP FEC,
RFC 5109) and by retransmission on request (Generic NACK, RFC 4585, and RTX, RFC 4588).
This project models the parts of it that decide what is delivered, requested, rebuilt and
reported, and proves what they promise over all inputs and all runs.

Packet buffers, mask buffers and the objects whose methods update fields are arrays and
classes here, with the program's loops; each method is proved equal to a function on
values. Those functions are then proved to refine machines over *unwrapped* numbers, plain
integers of which the 16-bit numbers on the wire are the remainders, and the promises are
proved about these machines and carried back. The window hypotheses are explicit: numbers
that are compared lie within half the 16-bit space of each other.

| part | modules |
|---|---|
| circular order, byte buffers, RTP packets | `SeqComparison`, `SeqLemmas`, `ByteIo`, `RtpPackets` |
| receiver cache and loss list | `ReceiverCache` (the object), `ReceiverIdeal`, `ReceiverLosses`, `ReceiverRuns`, `ReceiverTheorems`, `ReceiverStraddle`, `ReceiverRequests`, `ReceiverHeld`, `ReceiverExtended` |
| FEC payload: build and recover | `FecXor`, `FecCodec`, `FecRecovery` |
| FEC encoder and its bit matrix | `FecMask`, `FecShift`, `FecMatrix`, `FecEncoder` (the object) |
| FEC decoder | `FecDecoder` (its functions), `UlpFecDecoder` (the object), `FecStream`, `FecIdeal`, `FecScan`, `FecRefinement`, `FecTurn`, `FecPass`, `FecRelease`, `FecRuns`, `FecConservation`, `FecBurst`, `FecDelivery` |
| FEC encoder, its caller and the decoder together | `FecSession` |
| RTCP packets and compounds | `RtcpHeader`, `NackItems`, `NackPacket`, `SdesPacket`, `ByePacket`, `RtcpCompound` |
| sender cache, RTX, the repair loop | `SenderCache`, `Rtx`, `SenderRun`, `RepairLoop`, `RepairReceiver` |
| when RTCP is sent | `RtcpSchedule` |

Bytes are integers below 256 and bitwise operators are defined bit by bit on them.
The clock, the random start of the RTX numbering, and whether a BYE was received are
parameters. Methods that the program protects with a mutex are atomic steps.

## Where the program differs from what one would expect

The model follows the code. Where the code does less than its evident intent, the exact
condition is proved.

* **Loss list.** The wrap branch of the gap filler skips number 0, and walks almost the
  whole space, past numbers that are cached, when a gap ends at 0. An accepted packet leaves
  exactly the missing numbers other than 0 listed if and only if no gap ends at number 0, and
  exactly the missing numbers if and only if no gap straddles 65535/0 (`PutLossesExactly`).
* **Requests.** On runs in which no accepted packet leaves a gap that ends at 0, requests keep
  their distance and stop (`RequestsSpaced`, `NeverRequestedAgain`). Otherwise they do not:
  packets 65530 and 65536 lead to a report that asks for 65535 twice and for the cached 65530
  (`FailingRun`). No report ever asks for a number twice if and only if the run is of the
  first kind (`DisciplineExactly`).
* **Requests for held packets.** A packet that leaves a gap ending at 0 lists every other
  number after the last delivery (`ZeroEndListsAll`). So a report asks for cached packets,
  unless the packet numbered 0 is the only one cached; then it asks for packets that were
  never sent, and lists some numbers twice, of which arriving erases one entry. The exact
  condition for asking for no cached packet is `HeldAskedExactly`.
* **Collection.** A delivery cut by a timeout leaves behind the packet that continues it,
  exactly when the newest packet that has timed out is followed at once by one that the ready
  run does not reach (`LeftBehindExactly`).
* **FEC decoder, start.** Before its first release it compares missing numbers with 0, so a
  packet numbered 32769 to 65535 is not rebuilt in its first call (`StartsExactly`).
* **FEC decoder, released too early.** A packet that is alone in the cache is released at
  once, and a released packet disables its group: a lost packet of the group is then never
  rebuilt (`EarlyReleaseLoses`). A burst is rebuilt exactly as far as nothing protected
  together with a lost packet has been released (`BurstRecovered`).
* **FEC decoder, stalling.** A call releases nothing exactly when the oldest cached packet
  within range was released before (`NothingExactly`). After a first call with packets 0 and 1
  nothing more is released by any number of calls until a packet beyond the cache range
  arrives (`StallsFromStart`, `ThirdWithheld`). `Flush` hands out released packets again
  (`FlushRepeats`) and keeps the order exactly when the oldest cached packet is unreleased.
* **FEC matrix.** Beyond 12 media packets a sub-mask is computed in the array that is being
  filled, so the rows meant for the important packets end up repeating the first of the
  other rows. The matrix is still sound (`MatrixSound`), and interleaved without the first
  rows (`OverlapInterleaves`).
* **FEC matrix, moved rows.** A sub-mask row moved by whole bytes runs over into the next row
  even when its bits fit, and overwrites the first bytes there (`SpillExample`); the exact
  condition for doing no harm is `OthersKeptExactly`.
* **RTP image.** The extension and padding flags are written swapped and CSRCs are read in
  host order: an image reads back exactly when `RoundTripExactly` says so.
* **RTX.** A packet with an empty payload is retransmitted but refused (`EmptyRtxRefused`).
* **NACK packing** can need one item too many across the wrap (`WrapNeedsMore`); it is the best
  there is exactly when counting from a start that avoids the wrap needs as many items
  (`PackMinimalExactly`).
* **Sender cache.** A packet out of range stays when its 16-bit distance from a new one is
  within range again (`StepTooLarge`). The cache is the window of packets within range after
  every put of a history if and only if no put does that to a packet still cached
  (`WindowKeptExactly`).
* **RTCP schedule.** A tick is queued for later than the next report by exactly the time
  between reading the clock and queueing it (`DueExactly`, `OnTimeExactly`, `LateRun`). Reports
  still keep their distance, because the successor is queued an interval after that
  (`ScheduleHolds`).

## Model

| member | source | states |
|---|---|---|
| SeqComparison.InRangeBridge | src/utils/seq_comparison.h:13-22 | the circular range test on 16-bit numbers is the integer one whenever the true distance cannot alias through the wrap |
| SeqComparison.AfterBridge | src/utils/seq_comparison.h:34-37 | for integers at most 32767 apart, the circular order is the integer order, and equality is kept |
| SeqComparison.NextBridge | src/utils/seq_comparison.h:29-31 | "next" is the integer successor, across the wrap too |
| SeqComparison.DiffBridge | src/utils/seq_comparison.h:41-46 | the circular difference is the true one up to a whole cycle |
| SeqComparison.UnorderedExactly | src/utils/seq_comparison.h:33-37 | two numbers are unordered exactly when equal or 32768 apart, and never ordered both ways |
| ByteIo.WriteBigEndian | src/utils/byte_io.h:9-16 | the buffer afterwards holds the host bytes in reverse order at the position, and is otherwise unchanged |
| ByteIo.ReadBigEndian | src/utils/byte_io.h:30-42 | reading gives the host bytes in reverse order |
| RtpPackets.LoadPacket | src/rtp_rtcp/rtp_packet_impl.cc:140-208 | the buffer is the packet's image, with the extension and padding flags as the code writes them |
| RtpPackets.StorePacket | src/rtp_rtcp/rtp_packet_impl.cc:11-105 | accepts exactly the buffers the parsing function accepts, with its value, every refusal included |
| RtpPackets.RoundTripExactly | src/rtp_rtcp/rtp_packet_impl.cc:155-162 | an image reads back as the packet exactly when flags swapped and CSRCs byte-reversed make no difference and the payload and padding agree |
| RtpPackets.ParsedExactly | src/rtp_rtcp/rtp_packet_impl.cc:11-105 | the parser accepts a buffer as a packet if and only if it is the image of section 5.1 of RFC 3550 with these fields, CSRCs in host order, and any bytes before the last one of the padding |
| RtpPackets.CopyIsExact | src/rtp_rtcp/rtp_packet_impl.cc:231-239 | a copy is exact exactly when there are fewer than 256 CSRCs and each fits one octet |
| FecXor.XorCancels | src/rtp_rtcp/ulp_fec.cc:139-160 | XORing all members but one, in any order and of any lengths, into the parity column leaves the missing member's column |
| FecCodec.BuildFecPayload | src/rtp_rtcp/ulp_fec.cc:112-183 | the buffer built in place, member by member, is the FEC payload: XOR columns, base number, L bit, protected length and mask |
| FecCodec.FecRecoverBuffer | src/rtp_rtcp/ulp_fec.cc:668-733 | refused exactly when nothing is protected or the declared length is too short; otherwise the recovered buffer with its recovered length |
| FecRecovery.MemberRecovered | src/rtp_rtcp/ulp_fec.cc:668-753 | for any group, unequal lengths included, and any missing member, recovery from the built payload and the other members in any order gives that member's exact bytes and length |
| FecRecovery.GroupIdentified | src/rtp_rtcp/ulp_fec.cc:161-177 | the numbers a built payload names are exactly the group's, wrapping ones included, and the L bit is set exactly for spans above 16 |
| FecStream.KeysRead | src/rtp_rtcp/ulp_fec.cc:802-828 | the map read from a received FEC packet has one unmarked entry for each member of its group and no other |
| FecMask.InterleavedBits | src/rtp_rtcp/ulp_fec.cc:249-288 | in the interleaved mask media packet X is protected by FEC packet X mod N and no other, and no bit lies beyond the media packets |
| FecMask.GroupSizesEven | src/rtp_rtcp/ulp_fec.cc:249-288 | interleaved groups differ in size by at most one |
| FecShift.ShiftFitSubMask | src/rtp_rtcp/ulp_fec.cc:400-456 | the byte-wise loop leaves the mask with each target row replaced by the shifted sub-mask row |
| FecShift.ShiftedBits | src/rtp_rtcp/ulp_fec.cc:435-454 | byte by byte with carries is bit by bit: every bit moves right by the shift |
| FecShift.RowsShifted | src/rtp_rtcp/ulp_fec.cc:411-455 | every byte of every row afterwards, for every sub-mask no wider than the mask and every shift inside a row: the row's own moved sub-mask row from whole byte shift / 8 on; in the first bytes of the rows from the second moved one to the one after the last, what the row before spills; otherwise as it was |
| FecShift.ShiftIsColumnShift | src/rtp_rtcp/ulp_fec.cc:404-418 | in a moved row, from the first touched byte to the end of the row or of what is moved, column c shows the sub-mask's column c - shift; the columns before shift are clear |
| FecShift.AllArriveExactly | src/rtp_rtcp/ulp_fec.cc:400-456 | every set bit of the sub-mask arrives shift columns to the right if and only if all of them fit their rows |
| FecShift.OthersKeptExactly | src/rtp_rtcp/ulp_fec.cc:411-455 | for every sub-mask: other rows and earlier bytes are kept if and only if each spilled byte is there already |
| FecShift.FittingKeepsExactly | src/rtp_rtcp/ulp_fec.cc:411-455 | for a sub-mask that fits: they are kept if and only if the bytes spilled into are clear before; always without a spill |
| FecShift.SpillExample | src/rtp_rtcp/ulp_fec.cc:413-418 | a full first byte moved by 8 columns in rows of six bytes fits and still clears the first byte of the row after it |
| FecMatrix.NumFecBounded | src/rtp_rtcp/ulp_fec.cc:185-193 | the number of FEC packets is the number of media packets times the factor, over 256, rounded to the nearest with halves up, but one where that would be none of something; never more than the media packets, and none exactly when no protection is asked for |
| FecMatrix.ImportantRows | src/rtp_rtcp/ulp_fec.cc:319-345 | a row for each important packet as far as half of the rows go, and none in the mode that only favours the first packet |
| FecMatrix.MatrixSound | src/rtp_rtcp/ulp_fec.cc:334-364 | in every mode served, the aliased rows included: no empty row, no bit beyond the media packets, every media packet covered |
| FecMatrix.MatrixPartitions | src/rtp_rtcp/ulp_fec.cc:302-306 | without important packets, beyond 12 media packets, each packet is in exactly one group and sizes differ by at most one |
| FecMatrix.OverlapInterleaves | src/rtp_rtcp/ulp_fec.cc:474-482 | beyond 12 media packets, with important ones in an overlapping mode, the rows after the first ones are interleaved and the first ones repeat them |
| FecEncoder.UlpFecEncoder.Mask | src/rtp_rtcp/ulp_fec.cc:232-295 | returns a right sub-mask; beyond 12 media packets the shared array is overwritten with it, otherwise it is untouched |
| FecEncoder.UlpFecEncoder.FitSubMask | src/rtp_rtcp/ulp_fec.cc:382-398 | the rows are copied in, as one block or row by row when the sub-mask is narrower |
| FecEncoder.UlpFecEncoder.ImportantPacketProtection | src/rtp_rtcp/ulp_fec.cc:366-380 | up to 12 media packets the first rows are those of the sub-mask for the important packets |
| FecEncoder.UlpFecEncoder.OverlappingProtection | src/rtp_rtcp/ulp_fec.cc:474-482 | the remaining rows are those of the sub-mask for all packets; beyond 12 the first rows repeat them, otherwise they are kept |
| FecEncoder.UlpFecEncoder.ShiftedProtection | src/rtp_rtcp/ulp_fec.cc:463-472 | for any number of media packets the columns of the sub-mask for the rest arrive moved right in the remaining rows; up to 12 media packets the rows are exactly those and the first rows are kept |
| FecEncoder.UlpFecEncoder.BiasFirstPacket | src/rtp_rtcp/ulp_fec.cc:483-488 | every row also protects the first packet, and nothing else changes |
| FecEncoder.UlpFecEncoder.UnequalProtectionMask | src/rtp_rtcp/ulp_fec.cc:334-364 | the array ends up holding the final matrix of the mode |
| FecEncoder.UlpFecEncoder.GeneratePacketMasks | src/rtp_rtcp/ulp_fec.cc:297-317 | the same for every mode, without important packets too |
| FecEncoder.UlpFecEncoder.GatherGroup | src/rtp_rtcp/ulp_fec.cc:91-107 | the group read bit by bit is the media packets at the row's columns, with the longest payload among them |
| FecEncoder.UlpFecEncoder.GenerateFecPackets | src/rtp_rtcp/ulp_fec.cc:87-110 | one FEC packet per row, each with the payload of its row's group |
| FecEncoder.UlpFecEncoder.LoadMedia | src/rtp_rtcp/ulp_fec.cc:56-74 | accepts exactly packets of the stream with consecutive numbers, wrapping ones included |
| FecEncoder.UlpFecEncoder.Encode | src/rtp_rtcp/ulp_fec.cc:38-85 | refuses exactly the batches the code refuses; otherwise the rounded share of FEC packets, stated by inequalities, each built from a row of the final matrix, which up to 12 media packets comes from the table asked for |
| FecEncoder.AcceptableExactly | src/rtp_rtcp/ulp_fec.cc:40-74 | the batches accepted are exactly 1 to 48 packets of the stream, numbered one after the other over the wrap, with no more important ones than packets |
| FecEncoder.FecFields | src/rtp_rtcp/ulp_fec.cc:178-183 | every FEC packet belongs to the encoder's stream, has its type, and is nothing but a header and a payload |
| FecSession.EncodedIsHonest | src/rtp_rtcp/ulp_fec.cc:112-183 | the group of an FEC packet built from a sound row, numbered and stamped by the caller, is what the decoder's theorems ask for |
| FecSession.FecPacketIsHonest | src/rtp_rtcp/ulp_fec.cc:178-183 | the FEC packet itself reads back and is copied unchanged, and is recognised by its type |
| FecSession.SessionIsHonest | test/test_sender_with_fec/main.cc:130-187 | whatever batches `Encode` accepts, in any protection mode served and numbered on as the sending program does, the whole stream meets the hypotheses of the decoder's theorems |
| FecSession.SessionRunSafe | src/rtp_rtcp/ulp_fec.cc:510-561 | over any session of encoded batches and any sequence of decoder calls with any lossy, reordered, repeated part of it, every packet released is one that was sent and released numbers strictly increase |
| FecSession.SessionBurstRecovered | src/rtp_rtcp/ulp_fec.cc:576-666 | the burst theorem for every batch of a session with more than 12 media packets and no important ones, or important ones in an overlapping mode as the sending program has them, or with one FEC packet; N is the number of FEC packets that do not repeat others |
| FecSession.SessionDelivered | src/rtp_rtcp/ulp_fec.cc:510-561 | such a batch loses a burst of up to N media packets and the rest arrives in one call, in any order, at an empty cache: the call hands out exactly what was sent, in order, if and only if each lost packet has a payload and, before any release, a 16-bit number of at most 32768 |
| FecScan.ScanRefines | src/rtp_rtcp/ulp_fec.cc:593-624 | a scan ends as the unwrapped numbers dictate: stale if a member was released, beyond if one is newer than the newest cached packet, complete otherwise |
| FecScan.CompleteScan | src/rtp_rtcp/ulp_fec.cc:608-624 | after a complete scan, over any number of calls, exactly the cached members are marked and pointed to, and exactly the others are noted as missing |
| FecRefinement.RecoveryYields | src/rtp_rtcp/ulp_fec.cc:668-753 | from an honest FEC packet and the other members the decoder gets the packet that was sent, or nothing when its payload is empty |
| FecTurn.TurnRefines | src/rtp_rtcp/ulp_fec.cc:586-665 | one FEC packet's turn does what the ideal decoder does, keeps the relation, and follows no pointer to an erased packet |
| FecPass.CacheAllRefines | src/rtp_rtcp/ulp_fec.cc:755-792 | what arrives is cached as the ideal decoder would: sorted, without repetitions, nothing before the last release |
| FecPass.CachedNumbers | src/rtp_rtcp/ulp_fec.cc:755-792 | what is cached is what was, and what came unless something newer was released, in ascending order |
| FecPass.PassRefines | src/rtp_rtcp/ulp_fec.cc:586-665 | a whole pass over the gathered FEC packets refines the ideal one and never recovers through a dangling pointer |
| FecPass.RecoveredRefines | src/rtp_rtcp/ulp_fec.cc:576-666 | the same for RcoverPackets as it is called, with the queue it gathers itself |
| FecRelease.EmitAscends | src/rtp_rtcp/ulp_fec.cc:518-557 | what a call releases increases strictly and lies above everything released before |
| FecRelease.KeptExactly | src/rtp_rtcp/ulp_fec.cc:518-537 | a number stays cached if and only if it or an older one is within range of the newest |
| FecRelease.ReleasedExactly | src/rtp_rtcp/ulp_fec.cc:518-553 | a call releases a cached number if and only if an unbroken run joins it to an unreleased number that leaves, or to an unreleased one before which everything leaves and was released |
| FecRelease.EmittedRefines | src/rtp_rtcp/ulp_fec.cc:518-557 | eviction and release hand out exactly the packets of the ideal decoder and keep the relation: an evicted packet's group is disabled |
| FecRuns.CallRefines | src/rtp_rtcp/ulp_fec.cc:510-561 | one Decode call refines the ideal decoder's call and is safe |
| FecRuns.FecRunSafe | src/rtp_rtcp/ulp_fec.cc:510-561 | over any sequence of calls with any lossy, reordered, repeated part of an honest stream, every packet released is one that was sent, byte for byte, and released numbers strictly increase across all calls |
| FecRuns.FecRunAmongOthers | src/rtp_rtcp/ulp_fec.cc:755-762 | the same with any packets of other streams among those given: they make no difference to what is cached, rebuilt or released |
| FecDecoder.RecoversDeclared | src/rtp_rtcp/ulp_fec.cc:668-690 | a packet is rebuilt only from a payload that protects something and has exactly the length it declares |
| FecRuns.FlushOutput | src/rtp_rtcp/ulp_fec.cc:563-574 | Flush empties the cache and hands out every cached packet as it was sent; what is left refines an empty decoder that goes on after the newest of them, or after what was released last when there was none |
| FecRuns.FlushInOrderExactly | src/rtp_rtcp/ulp_fec.cc:563-574 | Flush keeps the released numbers increasing if and only if the cache is empty or its oldest packet is unreleased |
| FecRuns.FlushRepeats | src/rtp_rtcp/ulp_fec.cc:565-569 | a concrete run in which Flush releases two packets for the second time |
| FecSession.StartsExactly | src/rtp_rtcp/ulp_fec.cc:632-636 | of a batch of two packets and one FEC packet the second is lost and the rest comes in the first call: all three are released if and only if the lost one has a payload and a number of at most 32768 |
| FecSession.EarlyReleaseLoses | src/rtp_rtcp/ulp_fec.cc:520-537 | the same batch in two calls: the first packet is released alone and the lost one never comes back |
| FecConservation.NothingExactly | src/rtp_rtcp/ulp_fec.cc:516-553 | the end of a call releases nothing if and only if the oldest cached packet within range of the newest, or the newest when no other is, was released before |
| FecConservation.StallsFromStart | src/rtp_rtcp/ulp_fec.cc:510-561 | a run from the start: after a call with packets 0 and 1, no number of calls releases anything more as long as nothing beyond the cache range arrives |
| FecConservation.ThirdWithheld | src/rtp_rtcp/ulp_fec.cc:538-553 | the shortest such run: packets 0 and 1, then 2, which is not released |
| FecConservation.Conserved | src/rtp_rtcp/ulp_fec.cc:510-666 | over any run every number cached or rebuilt is either released, once, or still cached and unreleased, never both |
| FecBurst.RebuiltInPass | src/rtp_rtcp/ulp_fec.cc:586-665 | a group that lacks at most one member when the pass begins is complete when it ends, whatever the order of the FEC packets |
| FecSession.EncodedInterleaves | src/rtp_rtcp/ulp_fec.cc:249-288 | the encoder's interleaved rows put a packet in the group of its place modulo the number of FEC packets |
| FecBurst.BurstRecovered | src/rtp_rtcp/ulp_fec.cc:576-666 | with the N FEC packets of an interleaved batch cached, at most N consecutive media packets lost, and every cached FEC packet that protects a lost one protecting its whole group, one pass puts a lost packet into the cache, as it was sent, if and only if nothing protected together with it is released or newer than the newest cached packet, it has a payload, and it is startable |
| FecDelivery.BatchDelivered | src/rtp_rtcp/ulp_fec.cc:510-561 | one call at an empty cache hands out a whole batch that lost a burst, repeated FEC packets included, if and only if every lost packet is startable, over any honest stream |
| UlpFecDecoder.DecodeFecInfo | src/rtp_rtcp/ulp_fec.cc:802-828 | the nested loops over mask bytes and bits give exactly the members the payload names |
| UlpFecDecoder.UlpFecDecoder.CachePackets | src/rtp_rtcp/ulp_fec.cc:755-792 | the object's state becomes that of caching each packet in turn |
| UlpFecDecoder.UlpFecDecoder.ScanMembers | src/rtp_rtcp/ulp_fec.cc:591-624 | the member loop with its breaks and continues is the scan the theorems are about |
| UlpFecDecoder.UlpFecDecoder.FecRecoverPacket | src/rtp_rtcp/ulp_fec.cc:668-753 | the cached packet rebuilt from the buffers its pointers lead to, or nothing |
| UlpFecDecoder.UlpFecDecoder.RecoverTurn | src/rtp_rtcp/ulp_fec.cc:588-664 | one FEC packet's turn changes the state as the turn function says |
| UlpFecDecoder.UlpFecDecoder.RcoverPackets | src/rtp_rtcp/ulp_fec.cc:576-666 | the pass over the FEC packets gathered first |
| UlpFecDecoder.UlpFecDecoder.Evict | src/rtp_rtcp/ulp_fec.cc:518-537 | exactly the packets out of range of the newest leave, and those not yet released are handed out |
| UlpFecDecoder.UlpFecDecoder.ReleaseRun | src/rtp_rtcp/ulp_fec.cc:538-553 | copies of the cached packets that continue what is handed out are added |
| UlpFecDecoder.UlpFecDecoder.Decode | src/rtp_rtcp/ulp_fec.cc:510-561 | the whole new state and output of a call |
| UlpFecDecoder.UlpFecDecoder.Flush | src/rtp_rtcp/ulp_fec.cc:563-574 | the whole new state and output of a flush |
| ReceiverCache.RtpReceiverPacketCache.PutPacket | src/rtp_rtcp/rtp_receiver.cc:58-117 | the whole new state: cache, loss list, counter, extended first and highest number |
| ReceiverCache.RtpReceiverPacketCache.FillGap | src/rtp_rtcp/rtp_receiver.cc:125-185 | the gap filler with its shared insert position is a sweep of the visited numbers over the loss list, its wrap branch included |
| ReceiverCache.RtpReceiverPacketCache.SupplementLossSeqs | src/rtp_rtcp/rtp_receiver.cc:119-208 | all gaps are swept in one pass and what the last delivery settles is pruned |
| ReceiverCache.RtpReceiverPacketCache.GetPackets | src/rtp_rtcp/rtp_receiver.cc:210-250 | delivers, oldest first, from the first due or timed out packet on, and keeps the rest |
| ReceiverCache.RtpReceiverPacketCache.GetLossPacketSeqsForNack | src/rtp_rtcp/rtp_receiver.cc:252-267 | the requests, oldest first, and the loss list with their times noted |
| ReceiverIdeal.PutCoreRefines | src/rtp_rtcp/rtp_receiver.cc:58-106 | PutPacket does to cache, delivery mark and extended highest number what insertion in a descending list of integers does, across any number of wraps |
| ReceiverLosses.PutLossesRefine | src/rtp_rtcp/rtp_receiver.cc:107-208 | when no gap ends at number 0 the loss list becomes exactly the missing numbers other than 0, kept entries keep their marks, and the counter grows by the newly missing ones |
| ReceiverStraddle.PutLossesExactly | src/rtp_rtcp/rtp_receiver.cc:146-184 | an accepted packet leaves exactly the missing numbers other than 0 listed, with their marks, if and only if no gap ends at number 0; and exactly the missing numbers if and only if no gap straddles 65535/0 |
| ReceiverStraddle.ZeroNeverListed | src/rtp_rtcp/rtp_receiver.cc:127-184 | in no run whatever is number 0 listed as lost |
| ReceiverStraddle.StraddleExample | src/rtp_rtcp/rtp_receiver.cc:147-184 | 65534 and then 1 arrive and only 65535 is listed |
| ReceiverRuns.CollectComplete | src/rtp_rtcp/rtp_receiver.cc:210-250 | after a collection no cached packet has timed out and nothing of the run contiguous with the previous last delivery is cached |
| ReceiverRuns.DeliveredExactly | src/rtp_rtcp/rtp_receiver.cc:210-250 | a cached packet is delivered, and leaves the cache, if and only if it or a newer one has timed out or belongs to the run contiguous with the last delivery |
| ReceiverRuns.LeftBehindExactly | src/rtp_rtcp/rtp_receiver.cc:213-241 | a packet that continues the new last delivery stays behind if and only if the newest timed out packet is followed at once by a held one that the ready run does not reach |
| ReceiverRequests.ReportIncreases | src/rtp_rtcp/rtp_receiver.cc:252-267 | on runs in which no accepted packet leaves a gap that ends at 0, a report's list names numbers from the loss list, strictly increasing within half the number space, none twice |
| ReceiverRuns.RunRefines | src/rtp_rtcp/rtp_receiver.cc:58-267 | in every run within the window the ideal state keeps its invariants, the 16-bit cache represents it, and both deliver the same packets |
| ReceiverTheorems.DeliveredInOrder | src/rtp_rtcp/rtp_receiver.cc:58-250 | over any interleaving, delivered numbers strictly increase |
| ReceiverTheorems.Conserved | src/rtp_rtcp/rtp_receiver.cc:58-250 | every admitted packet is delivered once or still cached, and nothing else is |
| ReceiverTheorems.CacheRunSafe | src/rtp_rtcp/rtp_receiver.cc:58-250 | the program's own delivered and cached lists are images of one strictly increasing list of the admitted packets |
| ReceiverTheorems.LossListExact | src/rtp_rtcp/rtp_receiver.cc:107-208 | after every accepted packet of a run in which no gap ends at number 0 the 16-bit loss list is strictly descending and exactly the missing numbers other than 0 |
| ReceiverTheorems.CleanRunRefines | src/rtp_rtcp/rtp_receiver.cc:58-267 | on such runs the loss list, its counter and every request made are the ideal ones |
| ReceiverRequests.RequestsSpaced | src/rtp_rtcp/rtp_receiver.cc:255-266 | on such runs two requests the program makes for one number are at least 50 ms apart; for one 16-bit number, while the accepted numbers span less than a cycle |
| ReceiverRequests.ReportExactly | src/rtp_rtcp/rtp_receiver.cc:252-267 | on such runs a report asks for a number if and only if it is listed as lost and was not asked for in the last 50 ms |
| ReceiverRequests.NeverRequestedAgain | src/rtp_rtcp/rtp_receiver.cc:107-115 | on such runs a number received, held or delivered past when a packet is accepted is not requested by the program afterwards |
| ReceiverRequests.DisciplineExactly | src/rtp_rtcp/rtp_receiver.cc:146-184 | over every run within the window: no report at any moment asks for a number twice if and only if no accepted packet leaves a gap that ends at 0 |
| ReceiverRequests.FailingRun | src/rtp_rtcp/rtp_receiver.cc:146-184 | a concrete run whose report asks for 65535 twice and for a packet that is in the cache |
| ReceiverHeld.ZeroEndListsAll | src/rtp_rtcp/rtp_receiver.cc:146-184 | an accepted packet that leaves a gap ending at 0 lists every number but 0 after the last delivery, held, never sent or not, whatever was listed before |
| ReceiverHeld.HeldListedExactly | src/rtp_rtcp/rtp_receiver.cc:107-208 | with no held number listed before, an accepted packet leaves none listed if and only if it leaves no gap that ends at 0 beside another held packet and its own number was not listed twice |
| ReceiverHeld.HeldAskedExactly | src/rtp_rtcp/rtp_receiver.cc:58-267 | over every run within the window: no report at any moment asks for a cached packet if and only if every accepted packet meets that condition |
| ReceiverHeld.CleanIsOrderly | src/rtp_rtcp/rtp_receiver.cc:107-208 | runs in which no accepted packet leaves a gap that ends at 0 meet it |
| ReceiverRequests.CounterCountsListed | src/rtp_rtcp/rtp_receiver.cc:139-144 | on such runs within one cycle the program's counter is the number of different 16-bit numbers that were ever in its loss list |
| ReceiverTheorems.CumulativeLossCounts | src/rtp_rtcp/rtp_receiver.cc:139-183 | on runs in which no gap ends at number 0 the cumulative loss counts each distinct missing number once, modulo 2^32 |
| ReceiverExtended.ExtendedHighestExact | src/rtp_rtcp/rtp_receiver.cc:67-83 | section 6.4.1 of RFC 3550: over every run in which each packet the program accepts is within half the number space of the highest accepted before, the extended highest number is the true highest accepted one, counted from the first one's cycle, modulo 2^32 |
| ReceiverExtended.ExtendedGrows | src/rtp_rtcp/rtp_receiver.cc:67-83 | on such runs it does not decrease until 65536 cycles have passed |
| ReceiverExtended.ExtendedFirstExact | src/rtp_rtcp/rtp_receiver.cc:67-83 | on such runs the extended first number is the least 16-bit number among the packets accepted while the cycle count of the highest reads 0, as it does in the first cycle and every 65536 cycles later |
| ReceiverExtended.LeastInFirstCycle | src/rtp_rtcp/rtp_receiver.cc:67-83 | as long as the highest number is in the first one's cycle it is the least 16-bit number accepted so far |
| ReceiverExtended.StaysAfterFirstCycle | src/rtp_rtcp/rtp_receiver.cc:77-79 | from the packet on that leaves the first cycle it stays as it was, until 65536 cycles have passed |
| RtcpHeader.CreateHeader | src/rtp_rtcp/rtcp_packet.h:37-51 | the four header octets at the position, nothing else changed |
| RtcpHeader.StoreHeader | src/rtp_rtcp/common_header.cc:22-74 | accepts exactly what the parsing function accepts |
| RtcpHeader.HeaderReadsBack | src/rtp_rtcp/common_header.cc:22-74 | a printed packet is found again, with its count, type and payload, whatever follows it |
| RtcpHeader.HeaderExactly | src/rtp_rtcp/common_header.cc:22-74 | a header is found if and only if the bytes begin with its image: version 2, count, type, number of words, payload |
| NackItems.PackRoundTrip | src/rtp_rtcp/nack.cc:26-58 | unpacking undoes packing on every list of circularly increasing numbers, wrapping ones included |
| NackItems.PackIsMinimal | src/rtp_rtcp/nack.cc:26-48 | no other items that unpack to an increasing list are fewer than the greedy ones |
| NackItems.WrapNeedsMore | src/rtp_rtcp/nack.cc:35-37 | 65535 and 0 take two items where one would do |
| NackItems.PackMinimalExactly | src/rtp_rtcp/nack.cc:26-48 | on circularly increasing lists, wrapping ones included, no other items are fewer if and only if packing needs as many for the list counted from a start that keeps it from wrapping |
| NackPacket.NackReadsBack | src/rtp_rtcp/nack.cc:60-109 | a printed NACK packet parses to the same block, whatever follows it |
| NackPacket.NackExactly | src/rtp_rtcp/nack.cc:86-109 | a payload of whole words parses to a block if and only if type and format are those of a NACK, there is an item, and the payload is the block's image |
| NackPacket.RequestsReadBack | src/rtp_rtcp/nack.cc:21-109 | through packing, printing, parsing and unpacking the numbers requested are the numbers received |
| NackPacket.Nack.SetPacketIds | src/rtp_rtcp/nack.cc:17-24 | the numbers are taken over and their items are appended to those already packed |
| NackPacket.Nack.Pack | src/rtp_rtcp/nack.cc:26-48 | the nested loops append the packed items |
| NackPacket.Nack.Unpack | src/rtp_rtcp/nack.cc:50-58 | the nested loops append the unpacked numbers |
| NackPacket.Nack.LoadPacket | src/rtp_rtcp/nack.cc:60-84 | refused exactly without items or room; otherwise exactly its announced length is written, the image, and nothing else changes |
| NackPacket.Nack.StorePacket | src/rtp_rtcp/nack.cc:86-109 | takes over exactly the packets that parse and leaves the object alone otherwise |
| SdesPacket.SdesReadsBack | src/rtp_rtcp/sdes.cc:22-149 | every list of 1 to 31 chunks with CNAMEs of up to 255 bytes reads back, with 1 to 4 padding bytes per chunk and whatever follows |
| SdesPacket.ItemsParse | src/rtp_rtcp/sdes.cc:22-102 | chunks with any items of any types, as other senders print them, parse to their CNAMEs, chunks without one dropped; they are refused if and only if a chunk has two |
| SdesPacket.ItemsExactly | src/rtp_rtcp/sdes.cc:53-82 | the items of a chunk are read if and only if they are the image of some items with a terminator and at most one CNAME, the one that is kept |
| SdesPacket.Sdes.AddCName | src/rtp_rtcp/sdes.cc:104-117 | refuses exactly an overlong name or a 32nd chunk, and keeps the announced length right |
| SdesPacket.Sdes.LoadPacket | src/rtp_rtcp/sdes.cc:123-149 | writes exactly its announced length, the image, and nothing else |
| SdesPacket.Sdes.StoreItems | src/rtp_rtcp/sdes.cc:53-82 | the cursor loop over a chunk's items reads inside the payload and gives the items the parsing function gives |
| SdesPacket.Sdes.StorePacket | src/rtp_rtcp/sdes.cc:22-102 | takes over exactly the packets that parse, chunks without a CNAME dropped, and leaves the object alone otherwise |
| SdesPacket.SdesAccepted | src/rtp_rtcp/sdes.cc:22-52 | what parses is of SDES type, in whole words, with at least two words for each announced chunk and items that can be read |
| ByePacket.ByeReadsBack | src/rtp_rtcp/bye.cc:30-108 | every BYE with up to 30 CSRCs and a reason of up to 255 bytes reads back, whatever follows |
| ByePacket.ByeExactly | src/rtp_rtcp/bye.cc:71-108 | a payload parses to a BYE if and only if it holds the announced sources, the sender's first, and then nothing, or a reason behind its length and anything after it; without sources the sender is 0 |
| ByePacket.Bye.SetReason | src/rtp_rtcp/bye.cc:14-20 | refuses exactly reasons of more than 255 bytes |
| ByePacket.Bye.SetCsrcs | src/rtp_rtcp/bye.cc:22-28 | refuses exactly more CSRCs than a BYE can carry |
| ByePacket.Bye.LoadPacket | src/rtp_rtcp/bye.cc:37-69 | writes exactly its announced length, the image, and nothing else |
| ByePacket.Bye.StorePacket | src/rtp_rtcp/bye.cc:71-108 | takes over exactly the packets that parse and leaves the object alone otherwise |
| RtcpCompound.LoadPart | src/rtp_rtcp/rtcp_packet.h:20-24 | LoadPacket of any packet moves the position by exactly its announced length and writes its image |
| RtcpCompound.LoadSlots | src/rtp_rtcp/rtp_rtcp_tranceiver_impl.cc:71-82 | the written size is always the announced one and the buffer is the compound's image |
| RtcpCompound.SendRtcp | src/rtp_rtcp/rtp_rtcp_tranceiver_impl.cc:48-92 | sends exactly the concatenated images, and nothing when there is nothing to send or a part cannot be printed; the size check never fails |
| RtcpCompound.Parse | src/rtp_rtcp/rtcp_receiver.cc:50-96 | the loop ends, and finds the headers that the walk over the bytes finds, or fails where it fails |
| RtcpCompound.CompoundReadsBack | src/rtp_rtcp/rtcp_receiver.cc:57-94 | walking a printed compound finds exactly the packets that were printed, in order, with their types and contents |
| RtcpCompound.WalkedExactly | src/rtp_rtcp/rtcp_receiver.cc:57-94 | the walk finds headers if and only if the bytes are their images one after the other, with nothing between or behind them |
| SenderCache.RtpSenderPacketCache.PutPacket | src/rtp_rtcp/rtp_sender.cc:34-45 | the whole new cache |
| SenderCache.RtpSenderPacketCache.GetPackets | src/rtp_rtcp/rtp_sender.cc:47-61 | a copy of the first cached packet for each number found, in the order asked |
| SenderCache.CacheIsWindow | src/rtp_rtcp/rtp_sender.cc:34-45 | after any increasing puts none of which aliases a packet still cached, the cache is the history filtered to the configured distance from the newest |
| SenderCache.WindowKeptExactly | src/rtp_rtcp/rtp_sender.cc:34-45 | over any increasing history the cache is that window after every put if and only if no put brings a cached packet that is out of range within the 16-bit range again |
| SenderCache.WindowExactly | src/rtp_rtcp/rtp_sender.cc:34-45 | a packet of the history is in that window if and only if it is within the distance |
| SenderCache.ConsecutiveQualifies | src/rtp_rtcp/rtp_sender.cc:145-153 | the consecutive numbers the sender insists on never alias |
| SenderCache.StepTooLarge | src/rtp_rtcp/rtp_sender.cc:35-43 | a concrete step that keeps a packet out of range |
| SenderCache.WindowIsFound | src/rtp_rtcp/rtp_sender.cc:47-61 | any requested number within the distance is found, and it is the packet that was sent |
| Rtx.RtpSender.SendRtp | src/rtp_rtcp/rtp_sender.cc:108-179 | accepts exactly the right stream, a configured type and the next number; the whole new state and cache |
| Rtx.RtpSender.ConstructRtx | src/rtp_rtcp/rtp_sender.cc:204-275 | the RTX packet for the first matching map entry, or nothing; the number moves on only when one is built; it belongs to the RTX stream, has the original number before the original payload and the packet's other fields |
| Rtx.RtpSender.SendRtx | src/rtp_rtcp/rtp_sender.cc:181-202 | one RTX packet for each requested number that is cached, numbered on, every one of the RTX stream |
| SenderRun.SendAllHolds | src/rtp_rtcp/rtp_sender.cc:108-179 | whatever is offered, what is sent is one stream of configured types numbered without a gap, and the cache is the one the remembered packets leave |
| SenderRun.SentExactly | src/rtp_rtcp/rtp_sender.cc:108-179 | whatever was offered before, one more packet is sent if and only if it is of the stream and of a configured type and, unless nothing was sent, has the number after as many as were sent; otherwise it changes nothing |
| SenderRun.StreamIsSent | src/rtp_rtcp/rtp_sender.cc:145-153 | a stream of configured types numbered one after the other is sent whole, across any number of wraps |
| SenderRun.SenderRunWindow | src/rtp_rtcp/rtp_sender.cc:144-166 | over any run the cache is the remembered part of what was sent, filtered to the configured distance, as long as no remembered packet aliases one still cached |
| SenderRun.SenderWindowExactly | src/rtp_rtcp/rtp_sender.cc:144-166 | it is so after every packet offered if and only if no remembered packet aliases one still cached |
| SenderRun.EverySentIsKept | src/rtp_rtcp/rtp_sender.cc:154-166 | with an RTX type for every configured type, every packet sent within the distance of the last is found by its number |
| Rtx.ReconstructRtpFromRtx | src/rtp_rtcp/rtp_receiver.cc:408-471 | refuses exactly an unknown type or a payload of at most two bytes; otherwise the packet rebuilt |
| Rtx.OnRtpPacket | src/rtp_rtcp/rtp_receiver.cc:310-348 | packets of the RTX stream are rebuilt first; only packets of the remote stream and of a configured type pass, and others than RTX packets pass unchanged |
| RepairLoop.SentPassExactly | src/rtp_rtcp/rtp_receiver.cc:310-348 | over any run what the sender sends passes its receiver unchanged if and only if RTX is off or has a stream of its own |
| Rtx.RtxUndone | src/rtp_rtcp/rtp_receiver.cc:408-471 | for any type map, what the receiver rebuilds has the number, type, marker, timestamp, extension and payload that were sent |
| Rtx.EmptyRtxRefused | src/rtp_rtcp/rtp_receiver.cc:421-426 | a retransmitted packet with an empty payload is refused |
| Rtx.RtxNumbers | src/rtp_rtcp/rtp_sender.cc:251-273 | RTX packets are numbered one after the other across all requests |
| RepairLoop.RequestsAreMet | src/rtp_rtcp/rtp_sender.cc:181-202 | everything requested that is in reach comes out of the cache, in order |
| RepairLoop.RepairRestores | src/rtp_rtcp/rtp_sender.cc:181-275 | from packing the requests to parsing the RTX packets, over the wire both ways, the receiver, which rebuilds only packets of the RTX stream, admits exactly the packets sent, one for each request, in order |
| RepairReceiver.ReportIsCircular | src/rtp_rtcp/rtp_receiver.cc:252-267 | on runs in which no gap ends at number 0 every report is a list that packing and unpacking carry whole |
| RepairReceiver.RepairedLeave | src/rtp_rtcp/rtp_receiver.cc:107-208 | after such a run, packets that come back for sought numbers leave the loss list: it is then exactly the sought numbers that did not come back |
| RtcpSchedule.RtcpSender.constructor | src/rtp_rtcp/rtcp_sender.cc:64-80 | the first report is due after half an interval |
| RtcpSchedule.RtcpSender.ScheduleSendRtcp | src/rtp_rtcp/rtcp_sender.cc:112-130 | the whole new state of a tick, whether it sends, and when it runs again |
| RtcpSchedule.RtcpSender.SendNack | src/rtp_rtcp/rtcp_sender.cc:91-110 | sends exactly with something to request and before any BYE, and puts the next report off |
| RtcpSchedule.RtcpSender.SendBye | src/rtp_rtcp/rtcp_sender.cc:82-89 | the BYE is recorded and nothing else changes |
| RtcpSchedule.ScheduleHolds | src/rtp_rtcp/rtcp_sender.cc:64-130 | in every interleaving of ticks, NACKs and BYEs: exactly one tick queued or under way until one meets a BYE and none after; the queued tick due no later than the next report plus the time its push took; a periodic report at least an interval after every earlier periodic report and NACK, from sending to sending and from clock reading to clock reading; after a sent BYE only BYEs |
| RtcpSchedule.NacksSentExactly | src/rtp_rtcp/rtcp_sender.cc:82-110 | over every run the NACKs sent are one for each request with a lost number that comes before any sent or received BYE, and no others; the BYEs sent are one for each request |
| RtcpSchedule.SentExactly | src/rtp_rtcp/rtcp_sender.cc:82-130 | after any run, by the events and what was sent: a tick sends a report exactly if no BYE came before and its reading is not before an interval after the last report or NACK, or half an interval after the start; when it runs again; a NACK goes out exactly with something to request and no BYE before |
| RtcpSchedule.DueExactly | src/rtp_rtcp/rtcp_sender.cc:113-128 | a tick is queued for later than the next report by exactly the time from reading the clock to queueing, so on time if and only if that takes no time |
| RtcpSchedule.OnTimeExactly | src/rtp_rtcp/rtcp_sender.cc:64-130 | over every run no tick is ever due after the next report if and only if the first one and every one that goes on are pushed at the time that was read |
| RtcpSchedule.LateRun | src/rtp_rtcp/rtcp_sender.cc:112-130 | a concrete run in which a tick waits for the lock and its successor is due that much after the next report |
| RtcpSchedule.StoppedForGood | src/rtp_rtcp/rtcp_sender.cc:115-117 | once a tick has met a BYE nothing is ever queued again |

## Left out

- Sockets, network events and the network scheduler: input and output only.
- Threads: pushing work to a thread is adding an entry with a due time; a stopping thread that drops its queue is not modelled, and mutexes make each method one step.
- Session setup, configuration objects, logging and the text of error results: a refusal is a value without its text.
- The 64-bit clock does not overflow: times are unbounded.
- Jitter, NTP time, timestamps in reports, packet and octet counters: statistics beside the modelled state.
- The contents of the FEC mask tables: for up to 12 media packets the tables are taken to hold sound masks (`TableOk`).
- FecEncoder.UlpFecEncoder.ShiftedProtection: beyond 12 media packets, asks that the moved rows lie inside the mask buffer.
- FecEncoder.UlpFecEncoder.UnequalProtectionMask: NoOverlap protection of important packets is modelled up to 12 media packets; beyond, the shared array leaves rows of the sub-mask in another width where rows for important packets belong.
- FecEncoder.UlpFecEncoder.GeneratePacketMasks: the same restriction, in NoOverlap mode with important packets.
- FecEncoder.UlpFecEncoder.Encode: the same restriction for NoOverlap mode; asks for serialized payloads of at most 32767 bytes, because the parity loop's index is a signed 16-bit number and does not end beyond.
- FecRuns.FecRunSafe: each call is given an empty output list, has something to decode, and stays with the groups it involves within half the number space; promptness of the release is not claimed, see `NothingExactly`.
- FecBurst.BurstRecovered: for interleaved groups; batches of up to 12 media packets with more than one FEC packet have the groups of the tables. A lost packet of whose group a member was released before is not rebuilt, see `EarlyReleaseLoses`.
- FecSession.SessionIsHonest: media packets read back and are copied unchanged (no padding or extension alone, CSRCs of one octet that read the same in both byte orders), and no batch is refused.
- UlpFecDecoder.UlpFecDecoder.Decode: asks for a cache that is not empty once the call's packets are in it, because the program reads its last element.
- UlpFecDecoder.DecodeFecInfo: an FEC payload too short to hold its mask names no members, where the program reads past its end.
- FecCodec.FecRecoverBuffer: a payload shorter than the length it declares to protect is not covered, where the program reads past its end.
- Pointers from an FEC packet to cached packets are identities of cached packets; following one to an erased packet is what is proved impossible.
- RtcpHeader.StoreHeader: refuses the padding bit, whose handling reads a payload of an earlier packet, and an empty payload, after which the program loses its position; the sender emits neither.
- RtcpCompound.CompoundReadsBack: bodies of sender and receiver reports are opaque bytes, and APP packets are not covered; every part has a payload.
- The receiver's checks of the reporting source after parsing a part, and what it does with the parts.
- NackPacket.Nack.SetPacketIds: packs into a list that is not cleared first; the round trips are stated for a fresh object, which is what the sender uses.
- Rtx.RtpSender.ConstructRtx: asks for packets with a payload buffer, which the program dereferences.
- ReceiverRequests.NeverRequestedAgain: from the next accepted packet on, because collecting and reporting do not prune the loss list; for runs in which no gap ends at number 0, see `FailingRun`.
- ByteIo.ReadBigEndian: unsigned reads; the sign extension of narrower signed reads is not modelled, because no modelled caller uses it.
- RtcpCompound.Parse: the headers found and their payloads; the call of the part's own parser is what `Understood` describes, and what the program does with the part afterwards is left out.
