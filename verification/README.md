# Verification of the streaming transports

This project models the transport and recovery core of a real-time video streamer in Dafny and proves
what that core promises: the UDP link (fragmentation, XOR erasure code, resend cache, regrouping,
resequencing buffer), the RTP/H.264 link (NAL cutting, FU-A, whole-packet repair, frame assembly), the
TCP link, the WebSocket server, the delay simulator, the bounded queue and the CRC.

Code that changes state in the original is a class or an in-place method here, proved against a
specification function over values; the theorems are about those functions, about whole runs of them, or
about the state machine of the whole UDP link. `dafny verify dfyconfig.toml` checks everything.

| modules | what they hold |
|---|---|
| `Octets`, `Bytes`, `Options`, `Sets` | octets, exclusive or, big-endian integers, padding, set sizes |
| `MediaTypes`, `Fec`, `NackManagers`, `UdpServers`, `UdpReceivers` | the parts of the UDP link |
| `UdpRepair`, `UdpThreshold` | one group: what it hands on, and when |
| `JitterBuffers`, `JitterRuns`, `JitterOrder`, `JitterDrain` | the resequencing buffer: code, conservation, order and pacing, progress |
| `JitterDepth`, `JitterRequests` | its adaptive depth, and what it asks for |
| `UdpLink` | the whole UDP link as a state machine over send, resend, deliver, pop and RTT steps |
| `UdpResend`, `UdpRequests` | the resend cache, the erasure-code threshold, when the receiver asks, and the NACK loop on that link |
| `Timestamps` | unwrapping of 32-bit times |
| `NalUnits`, `RtpServers`, `RtpReceivers` | the parts of the RTP link |
| `RtpRoundTrip`, `RtpRepair`, `RtpAssembly` | what the RTP receiver makes of a frame, with and without a loss, and of a lossless stream |
| `RtpTwice`, `RtpLoss` | how often a frame is emitted, and what is emitted after any loss |
| `RtpRuns`, `RtpLink` | the assembler over runs with loss, and the whole RTP link as a state machine |
| `RtpResend`, `RtpParity`, `RtpParked` | on that link: the packet buffer's requests and their answers, what a stored parity repairs, and what a late one does |
| `WsServers`, `WsStream`, `WsClose` | the WebSocket server, its receive loop over whole streams, and how a connection ends |
| `TcpWire`, `TcpStream` | the TCP link, and its round trip |
| `WireFormats` | every message octet by octet, with the numbers the formats fix |
| `LossSimulators`, `LossRates`, `ThreadSafeQueues` | the delay simulator, its loss rate, the bounded queue |
| `Crc32`, `CrcNumbers` | the CRC, and its check value |

## What the proofs show about the code

- A frame repaired over UDP carries the padding of its last fragment. It is exact if and only if the last
  fragment arrived itself, is full, or is the only one (`UdpRepair.RestoredExactly`).
- A group for an empty frame never finishes (`UdpRepair.EmptyFrameNeverFinishes`), so the UDP theorems are
  about non-empty frames.
- The buffer's separate gap timeout, twice the target plus 50 ms, never decides: a gap is skipped as soon as
  the last pop is more than the target ago. The repository's README.md, line 183, describes the longer wait
  (`JitterOrder.PopFailsExactlyWhile`).
- Delivery order breaks exactly when a jump of more than 1024 re-aligns past units that are still buffered;
  without that, order is kept over every run (`JitterOrder.InOrderDelivery`, `JitterOrder.OrderHingesOnLeaps`).
- `total_buffered_` counts evicted units as if they were still held, and the loss count adds evictions to
  the numbers skipped while leaving out the numbers passed over by a re-alignment; the conservation law says by
  how much (`JitterRuns.ConservationOverRuns`).
- The RTP assembler takes a frame without its first packets for complete (`RtpRepair.CompleteMeansSuffix`).
- A frame that its marked packet makes the RTP assembler emit is emitted again when the next frame begins if and
  only if it was complete, or it was repaired and its parity is stored again by then
  (`RtpTwice.EmittedTwiceExactlyWhen`); so over a lossless stream every frame but the last comes out
  twice (`RtpAssembly.EveryFrameTwice`), and over any run none comes out three times (`RtpLink.AtMostTwice`).
- The parity covers the whole frame, but the assembler counts from the first packet it received. When k packets
  in front are lost and one more behind them, it emits the frame with a packet that is the exclusive or of all of
  these; that is the lost packet, padded, if and only if the k packets in front cancel out, which they never do
  unless k is a multiple of four (`RtpLoss.RepairedFrom`, `RtpLoss.MixedIsRight`, `RtpLoss.HeadIsWrong`).
- The RTP packet buffer does not wrap at 16 bits. A number is accepted if and only if it is not below the read
  position, so wrapped numbers are refused as soon as they lie below it (`JitterOrder.AcceptedExactly`): once 65534 has
  been handed on, only 65535 still gets in, even if it is lost (`JitterOrder.RefusedBeforeTheEnd`). The buffer stops for
  good, refusing everything, if and only if 65535 has been handed on (`JitterOrder.WrapStops`).
- A NAL unit of type 28 that fits one packet is taken for a fragment; every other list of units comes
  through RTP (`RtpRoundTrip.RoundTrip`). A unit that ends in a zero octet in front of a 3-octet start code, has a start
  code inside, or is empty, is not cut out as it was put in (`NalUnits.CutInvertsJoin`).
- A pong repeats its ping exactly up to 125 octets, which is all section 5.5 of RFC 6455 allows a ping to
  carry (`WsStream.PongRoundTrip`); an empty text message never reaches the callback.
- A message above 16 MiB ends a TCP connection at the client, with all frames before it delivered
  (`TcpStream.StopsAt`).

## Model

| member | source | states |
|---|---|---|
| MediaTypes.DecodeEncode | src/common/media_types.h:125-170 | reading a written datagram header gives every field back, for all field values and whatever follows |
| MediaTypes.PayloadFollows | src/common/media_types.h:125-175 | a written datagram begins with the magic, and its payload is what follows the header |
| MediaTypes.KeyframeBit | src/common/media_types.h:177-178 | setting the keyframe bit is what reading it returns; the other seven flag bits stay |
| MediaTypes.WriteHeader | src/common/media_types.h:125-144 | the in-place writer fills the first 24 octets with the encoding and touches nothing else |
| MediaTypes.ReadHeader | src/common/media_types.h:146-170 | the field-by-field reader is the decoder |
| MediaTypes.StoreBe64 | src/common/media_types.h:25-30 | the shifting loop stores the eight big-endian octets and touches nothing else |
| MediaTypes.LoadBe64 | src/common/media_types.h:19-23 | the shifting loop reads the big-endian number |
| Bytes.LoadStore | src/common/media_types.h:19-30 | loading a stored number gives it back |
| Fec.FecGenerate | src/transport/fec.h:14-22 | the in-place loops compute the column-wise exclusive or of all blocks, zero-padded to the longest |
| Fec.FecRecover | src/transport/fec.h:25-39 | success exactly when one slot is empty, and then only that slot changes, to the exclusive or of the rest |
| Fec.ErasureLaw | src/transport/fec.h:14-39 | any one block is the exclusive or of the others and the parity, zero-padded to the length used |
| NackManagers.NackManager.Remember | src/transport/nack_manager.h:35-42 | after any history of calls the cache is exactly the last min(n, capacity) entries |
| NackManagers.NackManager.Find | src/transport/nack_manager.h:64-73 | the backward search is the latest entry with the key |
| NackManagers.FindLastMeaning | src/transport/nack_manager.h:64-73 | the answer is the latest entry of the window with the key, and there is none exactly when no entry has it |
| NackManagers.NackManager.OnNack | src/transport/nack_manager.h:45-61 | one resend per request that hits, in request order, of the cached octets |
| NackManagers.RequestsRoundTrip | src/transport/nack_manager.h:45-53 | the server reads back exactly the requests written as 6-octet records |
| UdpServers.UdpServer.CutFrame | src/transport/udp_server.h:95-104 | the fragmentation loop cuts the frame into its pieces |
| UdpServers.ChopJoins | src/transport/udp_server.h:99-104 | the fragments joined are the frame |
| UdpServers.ChopSizes | src/transport/udp_server.h:95-104 | every fragment but the last is full, and one is empty only for an empty frame |
| UdpServers.ChopCount | src/transport/udp_server.h:96-97 | there are as many fragments as the rounded-up quotient, and one for an empty frame |
| UdpServers.UdpServer.Emit | src/transport/udp_server.h:109-131 | one datagram is remembered under its key and handed to the network with the same octets |
| UdpServers.UdpServer.SendFrame | src/transport/udp_server.h:94-136 | sends and remembers exactly the K fragment datagrams and the parity datagram, in order |
| WireFormats.HeaderLayout | src/common/media_types.h:84-98 | the private header: "RT", version 1, type, and each field in network byte order at its place |
| WireFormats.DatagramLayout | src/transport/udp_server.h:109-134 | a fragment's datagram is of type 0 with its number, the parity's of type 1 with number 65535; both with the frame's number, K + 1, the low 32 bits of the capture time, the length and the keyframe bit |
| WireFormats.RequestLayout | src/receiver/udp_receiver.h:206-226 | a request packet is of type 2 with one 6-octet record, group and fragment number, per fragment asked for |
| WireFormats.Dispatch | src/receiver/udp_receiver.h:103-122 | media is any whole header with the magic but of types 4 and 5; a ping reply is of type 4 with at least eight octets |
| UdpReceivers.UdpReceiver.IsComplete | src/receiver/udp_receiver.h:84-88 | true exactly when no slot is empty |
| UdpReceivers.UdpReceiver.MissingCount | src/receiver/udp_receiver.h:184-189 | the number of empty slots |
| UdpReceivers.UdpReceiver.SendNack | src/receiver/udp_receiver.h:206-226 | sends the request packet of the group, or nothing when no slot is empty |
| UdpReceivers.UdpReceiver.Finish | src/receiver/udp_receiver.h:191-204 | the group is removed and its fragments, joined in order, go to the resequencing buffer |
| UdpReceivers.UdpReceiver.Repair | src/receiver/udp_receiver.h:158-170 | repair by parity happens exactly when one fragment is missing and the parity is there, with the repaired slots |
| UdpReceivers.UdpReceiver.TryFinalize | src/receiver/udp_receiver.h:152-182 | finishing, repairing, requesting, giving up: the whole decision on a group |
| UdpReceivers.UdpReceiver.OnMedia | src/receiver/udp_receiver.h:128-150 | the new group map and what is handed on, for every datagram, including misplaced ones |
| UdpReceivers.UdpReceiver.UpdateRtt | src/receiver/udp_receiver.h:239-244 | the smoothed RTT is kept and given to the resequencing buffer |
| UdpReceivers.UdpReceiver.OnDatagram | src/receiver/udp_receiver.h:99-123 | short and foreign datagrams and statistics change nothing, a ping reply only the RTT and the buffer's depth; all others go through on_media |
| UdpReceivers.OnMediaWellSized | src/receiver/udp_receiver.h:128-182 | every group keeps one slot per announced fragment, whatever arrives |
| UdpRepair.DatagramIsMedia | src/receiver/udp_receiver.h:103-122 | every datagram a server sends reaches on_media |
| UdpRepair.DatagramArrives | src/receiver/udp_receiver.h:103-122 | it does so with the header and block it was made from |
| UdpRepair.RepairIsWhole | src/receiver/udp_receiver.h:157-170 | a group holding only fragments of a frame is repaired to that frame, the last fragment perhaps padded |
| UdpRepair.FinishedIsWhole | src/receiver/udp_receiver.h:152-204 | whenever such a group finishes, by any path, it hands on that frame with its capture time |
| UdpRepair.RestoredExactly | src/receiver/udp_receiver.h:157-204 | the result is the frame and fewer than one fragment of zeros, and exact if and only if the last fragment arrived, is full or is the only one |
| UdpRepair.MediaIsJudged | src/receiver/udp_receiver.h:128-182 | what a stored datagram does to the groups follows from the decision on its own group alone |
| UdpRepair.EmptyFrameNeverFinishes | src/receiver/udp_receiver.h:84-88 | a group for an empty frame never finishes, whatever arrives |
| UdpThreshold.FinishesAtK | src/receiver/udp_receiver.h:152-170 | a group finishes exactly when K of its K + 1 datagrams are there |
| UdpThreshold.ErasureThreshold | src/receiver/udp_receiver.h:128-182 | arrivals in any order with any duplicates, within 250 ms: first handed on exactly with the K-th distinct datagram, and no other group is touched before |
| UdpThreshold.AskedIsRequest | src/receiver/udp_receiver.h:171-176 | what on_media sends to the server is the request packet of the group it leaves behind |
| UdpThreshold.NackPacketRoundTrip | src/receiver/udp_receiver.h:206-226 | the server reads the receiver's requests out of its request packet |
| UdpThreshold.RequestAnswered | src/receiver/udp_receiver.h:206-226 | the request names exactly the missing fragments, and a cache that holds originals answers with just those of them it still has |
| UdpThreshold.NackLoopCloses | src/receiver/udp_receiver.h:171-182 | at a receiver fed with one frame: if a cache of originals has all missing fragments and they arrive within the group's lifetime, the frame is handed on |
| JitterBuffers.JitterBuffer.SetRttMs | src/receiver/jitter_buffer.h:42 | stores the RTT and retunes the depth |
| JitterBuffers.JitterBuffer.RetuneTargetLocked | src/receiver/jitter_buffer.h:160-166 | the depth is 3 times the jitter plus the RTT, truncated, within 15 to 250 ms |
| JitterBuffers.JitterBuffer.EstimateJitter | src/receiver/jitter_buffer.h:57-73 | the moving average changes only for an in-order arrival with a later generation time |
| JitterBuffers.JitterBuffer.DetectMissingLocked | src/receiver/jitter_buffer.h:169-181 | gap scan, or re-alignment for a jump above 1024 |
| JitterBuffers.JitterBuffer.ScanGap | src/receiver/jitter_buffer.h:178-180 | the wrapping loop over the gap asks for what the scan specification asks for |
| JitterBuffers.JitterBuffer.MaybeNackLocked | src/receiver/jitter_buffer.h:183-198 | throttling per number, and the record cleared above 4096 entries |
| JitterBuffers.ScanAsksForTheGap | src/receiver/jitter_buffer.h:169-198 | only absent numbers of the gap are asked for, and each of them unless it was asked for within the interval |
| JitterBuffers.JitterBuffer.EvictOverflowLocked | src/receiver/jitter_buffer.h:200-205 | the lowest numbers go until the size fits |
| JitterBuffers.JitterBuffer.Push | src/receiver/jitter_buffer.h:45-86 | the whole new state after a push, late and duplicate ones included |
| JitterBuffers.JitterBuffer.Pop | src/receiver/jitter_buffer.h:89-130 | the whole new state after a pop, waiting, skipping and starving included |
| JitterRuns.ConservationOverRuns | src/receiver/jitter_buffer.h:75-84 | over every run each unit inserted was popped, evicted or is held; the read position is first + popped + skipped + realigned modulo 2^32; the loss count is skipped + evicted; the size bound holds |
| JitterRuns.WrapIsModulo | src/receiver/jitter_buffer.h:126 | the position arithmetic above is modulo 2^32 |
| JitterRuns.SizesOverRuns | src/receiver/jitter_buffer.h:200-205 | at most max_units are held after every step of every run, each under its own number |
| JitterOrder.PacingOverRuns | src/receiver/jitter_buffer.h:57-69 | in every reachable state the depth is in [15, 250] ms, the jitter in [0, 200] ms, and an open gap was noticed no earlier than the last pop |
| JitterOrder.PopFailsExactlyWhile | src/receiver/jitter_buffer.h:89-122 | after every run a pop on a non-empty buffer fails exactly while the last pop is at most the depth ago and the next unit is missing or held for less than the depth |
| JitterOrder.StepStaysOrdered | src/receiver/jitter_buffer.h:45-130 | every step that is not a re-alignment past buffered units keeps every buffered number in [next_out, next_out + 1024] and the output increasing |
| JitterOrder.InOrderDelivery | src/receiver/jitter_buffer.h:45-130 | over every interleaving the popped numbers strictly increase and each popped unit was accepted under its number |
| JitterOrder.OrderHingesOnLeaps | src/receiver/jitter_buffer.h:172-177 | after any safe run, one more push keeps the order of the output in every safe continuation if and only if it does not re-align past buffered units |
| JitterOrder.LeapInverts | src/receiver/jitter_buffer.h:172-177 | after such a re-alignment two late pops give a newer unit and then an older one |
| JitterOrder.AcceptedExactly | src/receiver/jitter_buffer.h:48 | after every run over 16-bit numbers that does not re-align past buffered units, a number is accepted if and only if the buffer has not started or the number is not below the read position |
| JitterOrder.WrapStops | src/receiver/jitter_buffer.h:48 | after every such run, no 16-bit number is ever accepted again if and only if 65535 was handed on, and then nothing is handed on any more |
| JitterOrder.RefusedBeforeTheEnd | src/receiver/rtp_receiver.h:112 | an input: with 65534 handed on and 65535 lost, every number below 65535 is refused and 65535 is not |
| JitterDrain.LatePopYields | src/receiver/jitter_buffer.h:89-130 | a pop more than the depth after the last one hands a unit on whenever one is held, even with the head missing |
| JitterDrain.EveryUnitLeaves | src/receiver/jitter_buffer.h:45-130 | after any run, n pops spaced more than the depth apart hand on exactly the n units held, each once; every number ever accepted was then handed on or evicted |
| JitterDepth.MarksOverRuns | src/receiver/jitter_buffer.h:57-69 | after any run the two marks of the estimate are the arrival and generation time of the last unit that came in order |
| JitterDepth.EstimateConverges | src/receiver/jitter_buffer.h:57-69 | over any events, n measured arrivals that all deviate by d (at most 200 ms) leave the distance of the jitter from d multiplied by (15/16)^n; late, repeated and reordered arrivals leave it alone |
| JitterDepth.DepthOverRuns | src/receiver/jitter_buffer.h:160-167 | after any run, once an RTT was reported or an arrival measured: with x = 3 * jitter + 1000 * rtt, depth <= x < depth + 1 for 15 000 <= x < 250 000, and the bound outside; before that 40 ms |
| JitterDepth.RttSettles | src/receiver/udp_receiver.h:239-244 | the first RTT sample is taken as it is; from any other value n equal samples leave the distance from them multiplied by (7/8)^n |
| JitterRequests.HeadIsAskedFor | src/receiver/jitter_buffer.h:96-112 | after any run a pop asks for a missing head exactly as long as the last pop is at most the depth ago |
| JitterRequests.RecordIsLastAsked | src/receiver/jitter_buffer.h:183-187 | while the record stays below 4096 entries, it holds when each number was last asked for |
| JitterRequests.GapIsAskedFor | src/receiver/jitter_buffer.h:169-198 | after any such run an arrival asks for a number exactly when it is absent in the gap in front of it (at most 1024) and was not asked for within the interval |
| JitterRequests.FarArrivalRealigns | src/receiver/jitter_buffer.h:169-178 | an accepted arrival moves the read position, to itself, exactly when it is more than 1024 numbers ahead, and then asks for nothing |
| UdpLink.NextStaysSound | src/receiver/udp_receiver.h:128-204 | one step of the link keeps: everything on the wire or in the cache is an original, every group holds only fragments of its frame, everything handed on is a frame sent |
| UdpLink.RunIsSound | src/receiver/udp_receiver.h:128-204 | every state of every run satisfies that invariant |
| UdpLink.BufferIsRun | src/receiver/udp_receiver.h:34 | the link's buffer goes through a run of its own, with room for 256 frames and a throttle of 10 ms, so the theorems on such runs hold on the link |
| UdpLink.EndToEndIntegrity | src/transport/udp_server.h:94-136 | over every run of sending, losing, repeating, reordering, resending and delivering, each frame the reader gets is the one sent under its number, followed by fewer than one fragment of zeros, with the exactness condition |
| UdpLink.EndToEndOrder | src/receiver/udp_receiver.h:191-204 | the reader gets strictly increasing frame numbers, also when late duplicates open a group again |
| UdpLink.EveryFrameIsRead | src/receiver/udp_receiver.h:191-204 | at any point of any run of the link, as many reads as frames are buffered, spaced more than the depth apart, hand on exactly those frames; every frame number the buffer ever accepted was then handed on or evicted |
| UdpLink.CaptureTimesRecovered | src/receiver/udp_receiver.h:128-135 | over every run whose clock and capture times stay within 2^31 microseconds, every group and every frame handed on carries the capture time sent |
| UdpResend.RunIsKeyed | src/transport/nack_manager.h:35-42 | in every reachable state every entry ever remembered is the datagram its key names |
| UdpResend.CacheIsFaithful | src/transport/udp_server.h:109-136 | so in every reachable state each cached entry of a fragment is that fragment's original datagram |
| UdpResend.DatagramJudged | src/receiver/udp_receiver.h:128-182 | one genuine datagram at any faithful receiver: handed on exactly when the group then holds K datagrams, otherwise one more is held, or the group is given up after 250 ms |
| UdpResend.RequestIsAnswered | src/receiver/udp_receiver.h:206-226 | in every reachable state a group's request names exactly its missing fragments and is answered with the byte-identical originals of exactly those still cached |
| UdpResend.FinishesByThreshold | src/receiver/udp_receiver.h:152-182 | from any reachable state, whatever else happens, a group is handed on within its lifetime if and only if the datagrams it held and those delivered since are at least K |
| UdpResend.NackLoopClosesOnLink | src/transport/nack_manager.h:45-61 | in every run, handling the request of an open group whose missing fragments are all cached puts them on the wire, and every continuation that delivers them in the group's lifetime hands the frame on |
| UdpRequests.DatagramAsks | src/receiver/udp_receiver.h:171-182 | a datagram that leaves its group open asks exactly when the last request for the group is at least 10 ms ago, names the group left behind, and records the time; other groups are untouched |
| UdpRequests.DatagramLoses | src/receiver/udp_receiver.h:177-189 | a datagram with which a group is given up adds the fragments still missing, counted from the datagrams held, to the loss count; any other adds nothing |
| UdpRequests.AsksExactlyWhen | src/receiver/udp_receiver.h:171-176 | at any step of any run: a delivery that leaves a group open sends its request packet if and only if none went out for it in the last 10 000 microseconds; one that hands a frame on sends none |
| UdpRequests.RequestsAreSpaced | src/receiver/udp_receiver.h:171-176 | two requests for a group that stays open are at least 10 000 microseconds apart |
| UdpRequests.StaysOnWire | src/transport/udp_server.h:94-136 | every datagram of a frame sent may be delivered at any later step |
| UdpRequests.StaysCached | src/transport/nack_manager.h:35-42 | a fragment sent is cached at any later point as long as no more datagrams than the cache holds were sent from it on |
| UdpRequests.ParityCached | src/transport/udp_server.h:109-136 | the parity of the frame just sent is found in the cache under number 65535 |
| UdpRequests.AskedLoopCloses | src/receiver/udp_receiver.h:171-226 | from such a delivery on: the request packet is sent; whenever the server handles it with the fragments cached, their originals are on the wire, and delivering them within the group's lifetime hands the frame on |
| Timestamps.NearestRecovers | src/receiver/udp_receiver.h:287-291 | unwrapping against a reference gives the true value if and only if it is within 2^31, the two boundary cases spelt out |
| Timestamps.StreamRecovered | src/receiver/udp_receiver.h:278-292 | along a whole stream of close values every one is recovered |
| Timestamps.CaptureMillisRecovered | src/receiver/rtp_receiver.h:386-400 | the 90 kHz stamp comes back as the capture time in milliseconds and names the sender's parity slot |
| Timestamps.ExtendFrom | src/receiver/udp_receiver.h:278-292 | the code with its two loops ends and computes that unwrapping |
| NalUnits.NextNalu | src/transport/rtp_server.h:196-225 | the two scanning loops find the next unit of the cutter, or that there is none |
| NalUnits.CutInvertsJoin | src/transport/rtp_server.h:116-121 | cutting gives back the units a stream was joined from if and only if each is non-empty, without a start code inside, and without a trailing zero before a 3-octet start code |
| RtpServers.FuPayloadsShape | src/transport/rtp_server.h:130-147 | S on the first fragment only, E on the last only, all but the last full, the chunks adding up |
| RtpServers.FuAWellFormed | src/transport/rtp_server.h:130-147 | a unit too long for a packet becomes at least two fragments of type 28, all but the last full, with the unit's header bits and type; S exactly on the first, E exactly on the last; together they are the unit without its header octet in length |
| RtpServers.PacketsWellFormed | src/transport/rtp_server.h:112-152 | every packet fits the MTU, numbers are consecutive modulo 2^16, only the last packet is marked |
| RtpServers.PacketHeader | src/transport/rtp_server.h:100-110 | the 12 octets in front of every packet: version 2, type 96, marker, number, 90 kHz time and SSRC, read back from their places (section 5.1 of RFC 3550) |
| WireFormats.RtpParityLayout | src/transport/rtp_server.h:172-189 | a frame's parity datagram is of type 1 with number 65535, the packet count, the frame number, the capture time in milliseconds and the parity |
| RtpServers.RtpServer.Fragment | src/transport/rtp_server.h:130-147 | the fragmentation loop builds those packets and advances the counter |
| RtpServers.RtpServer.CutAndPack | src/transport/rtp_server.h:116-149 | the outer loop packs all units in order |
| RtpServers.RtpServer.SendFrame | src/transport/rtp_server.h:112-187 | sends and remembers the frame's packets and then the parity packet; nothing for a frame without units; the counter goes on from the packets ever sent |
| RtpServers.RtpServer.CachedKeysDistinct | src/transport/rtp_server.h:163-168 | after any calls, a cache of at most 65536 packets holds no two under one key |
| RtpServers.RtpServer.CachedKeysCollide | src/transport/rtp_server.h:163-168 | a cache that holds more than 65536 packets has two under one key: the bound is exact |
| RtpServers.RtpServer.FoundIsNamed | src/transport/nack_manager.h:64-73 | with such a cache a request for the number of any cached packet is answered with that packet |
| RtpReceivers.RtpReceiver.UnpackLoop | src/receiver/rtp_receiver.h:252-285 | the loop with its fragment flag computes the unpacked stream and keyframe flag |
| RtpReceivers.RtpReceiver.Emit | src/receiver/rtp_receiver.h:233-295 | what is pushed out for a frame, with or without a rebuilt packet; nothing for an empty stream |
| RtpReceivers.RtpReceiver.Rebuild | src/receiver/rtp_receiver.h:200-213 | the missing slot is found and the packet rebuilt from the others and the parity |
| RtpReceivers.RtpReceiver.FinalizeFrame | src/receiver/rtp_receiver.h:187-230 | emit, repair, park or drop: the whole new state |
| RtpReceivers.RtpReceiver.Assemble | src/receiver/rtp_receiver.h:169-182 | the whole new state after one packet leaves the resequencing buffer |
| RtpReceivers.RtpReceiver.StoreParity | src/receiver/rtp_receiver.h:137-143 | the announced payload is stored under its key, and beyond 64 of them the smallest key goes |
| RtpReceivers.WithParityStores | src/receiver/rtp_receiver.h:137-143 | the parity is then stored with exactly that payload, nothing else changed, and out of more than 64 just the smallest key is gone |
| WireFormats.AnnouncedPayload | src/receiver/rtp_receiver.h:115-118 | of a payload the receiver keeps what the length field announces, when that is less than what came |
| RtpReceivers.RtpReceiver.RecoverZombie | src/receiver/rtp_receiver.h:327-346 | a parked frame is emitted with the packet its parity gives, exactly when one block is missing |
| RtpReceivers.RtpReceiver.Visit | src/receiver/rtp_receiver.h:299-324 | repaired, given up or kept: the whole new state after one parked frame |
| RtpReceivers.RtpReceiver.ExpireZombies | src/receiver/rtp_receiver.h:297-325 | the whole new state after the pass over all parked frames |
| RtpRoundTrip.NalUnpacks | src/receiver/rtp_receiver.h:254-285 | the packets of one unit add it behind a 4-octet start code, if and only if it is not a small unit of type 28 |
| RtpRoundTrip.RoundTrip | src/receiver/rtp_receiver.h:252-286 | all packets of a frame unpack to its units, each behind a 4-octet start code, if and only if no unit that fits a packet has type 28; the keyframe flag is set exactly when a unit has type 5 |
| RtpRepair.CompleteMeansSuffix | src/receiver/rtp_receiver.h:189-196 | a frame passes for complete exactly when everything from its first received packet to the marked end is there |
| RtpRepair.RepairFillsTheGap | src/receiver/rtp_receiver.h:198-220 | with one interior packet missing, the rebuilt packet has the lost header, its own number selects the empty slot, and the frame is emitted with it |
| RtpRepair.RepairedFrame | src/receiver/rtp_receiver.h:198-250 | the repaired frame is the lossless one with the rebuilt packet's padding right behind its payload; equal exactly when the lost packet was as long as the longest, as every fragment but a unit's last is |
| RtpAssembly.SentPacketParses | src/receiver/rtp_receiver.h:80-92 | each packet of a sent frame parses to its number, timestamp, marker and octets |
| RtpAssembly.SentFrameComesOut | src/receiver/rtp_receiver.h:187-196 | a sent frame, collected whole, is emitted as its units under its capture time |
| RtpAssembly.BurstTaken | src/receiver/rtp_receiver.h:169-182 | the packets of a frame lead to one state: the frame before finished, this one held, and emitted with its last packet |
| RtpAssembly.EveryFrameTwice | src/receiver/rtp_receiver.h:169-196 | over any lossless stream every frame is emitted twice in a row, the last one once so far, and nothing else changes |
| RtpTwice.SecondFinish | src/receiver/rtp_receiver.h:187-230 | from any state and with the parities changed in any way in between, the second finish of a frame: emitted again, repaired again, given up, or nothing |
| RtpTwice.EmittedTwiceExactlyWhen | src/receiver/rtp_receiver.h:187-230 | from any state: a frame emitted at its marked packet is emitted again by the next finish if and only if it was complete or its parity is stored again |
| RtpTwice.TwiceOverPackets | src/receiver/rtp_receiver.h:169-183 | the same for any marked packet and any packet that begins the next frame |
| RtpLoss.CompleteIsSuffix | src/receiver/rtp_receiver.h:189-196 | a frame that looks complete holds exactly the packets from its first received one on |
| RtpLoss.RepairedFrom | src/receiver/rtp_receiver.h:198-220 | a marked frame one packet short of what follows its first received packet is emitted with the packet the parity gives, put where its own number says |
| RtpLoss.RebuiltIsMixed | src/transport/fec.h:25-39 | what is rebuilt is the exclusive or of the missing packet and all packets lost in front |
| RtpLoss.MixedIsRight | src/transport/fec.h:25-39 | that is the missing packet, padded, if and only if the packets lost in front cancel out |
| RtpLoss.HeadIsWrong | src/receiver/rtp_receiver.h:198-220 | consecutive packets lost in front never cancel out, unless their number is a multiple of four |
| RtpLoss.SentAreConsecutive | src/transport/rtp_server.h:100-149 | the packets of every sent frame are such packets |
| RtpLoss.MendedWithHead | src/receiver/rtp_receiver.h:198-220 | with nothing lost in front the repaired frame is the sent one with zeros behind the rebuilt packet |
| RtpRuns.AssembledOk | src/receiver/rtp_receiver.h:169-182 | a packet leaving the buffer in order follows those before it, and everything collected, parked and emitted still comes from frames sent |
| RtpRuns.AssembledTwice | src/receiver/rtp_receiver.h:169-182 | and no frame becomes due for more than two emissions |
| RtpRuns.VisitedAllOk | src/receiver/rtp_receiver.h:297-325 | the pass over parked frames keeps that |
| RtpLink.DeliveryIs | src/receiver/rtp_receiver.h:108-112 | delivering a sent packet, again or for the first time, gives the buffer that packet with its number, marker and the sender's capture time in milliseconds |
| RtpLink.ParityArrives | src/receiver/rtp_receiver.h:113-143 | the parity datagram of a frame stores that frame's parity under that frame's key |
| RtpLink.NextStaysSound | src/receiver/rtp_receiver.h:95-185 | every step of the whole RTP link keeps its invariant: sender, packet buffer, assembler, parked frames and parities |
| RtpLink.PacketsFollow | src/receiver/rtp_receiver.h:162-185 | in every run each packet leaving the buffer is one the assembler can take, and the pass over parked frames behind it is defined |
| RtpLink.EveryEmission | src/receiver/rtp_receiver.h:187-346 | over every run with loss, repetition and reordering, each frame emitted is what one sent frame's packets from some packet on unpack to, all of them or with one rebuilt, under that frame's capture time |
| RtpLink.AtMostTwice | src/receiver/rtp_receiver.h:162-346 | over every such run no frame sent is emitted three times, repaired and parked frames included |
| RtpResend.BufferIsRun | src/receiver/rtp_receiver.h:43 | the link's packet buffer goes through a run of its own, with room for 1024 packets and a throttle of 10 ms, so the theorems on such runs hold on the link |
| RtpResend.RunIsContiguous | src/transport/rtp_server.h:162-168 | in every state of every run of the RTP link the frames sent carry all the numbers below the next one, without a gap |
| RtpResend.HistoryNumbered | src/transport/rtp_server.h:162-164 | what the server was told to remember lies under consecutive numbers |
| RtpResend.AskedWasSent | src/receiver/rtp_receiver.h:56-58 | every number a pop or the gap scan asks for belongs to a packet that was sent, is not held and was not given up |
| RtpResend.RequestIsAnswered | src/transport/rtp_server.h:279-281 | in every reachable state the request packet for a number that was sent is answered with the packet of that number as long as at most the cache's capacity was sent from it on, and with nothing afterwards |
| RtpResend.RequestLoopCloses | src/receiver/rtp_receiver.h:349-361 | what any step of any run asks for is answered like that; arriving before it is given up, with room in the buffer, it fills the gap with nothing else changed, and from then on it is held, was handed on or was evicted |
| RtpParity.ParityStays | src/receiver/rtp_receiver.h:137-143 | over any run a parity that arrived is stored until its frame's last packet comes through, unless a later one pushes it out: more than 64 stored, and it has the smallest key |
| RtpParity.StoredParityRepairs | src/receiver/rtp_receiver.h:198-220 | if then the last packet comes through while one packet is missing behind the first received one, that step emits the frame with it rebuilt; with nothing lost in front, the sent frame with zeros behind that packet |
| RtpParity.ParkedFrameRepaired | src/receiver/rtp_receiver.h:297-325 | a parked frame lacking one packet whose parity is stored is emitted, repaired, by the next pass |
| RtpParity.FinishWithoutParity | src/receiver/rtp_receiver.h:222-230 | without a parity an incomplete frame is parked at its marked packet if it began less than 250 ms ago; otherwise it is given up and its missing packets are counted |
| RtpParity.FateWithoutParity | src/receiver/rtp_receiver.h:316-323 | a parked frame without its parity is given up, its missing packets counted, exactly when it began more than 250 ms ago |
| RtpParity.ParkedBriefly | src/receiver/rtp_receiver.h:297-325 | over any run, whenever a packet comes through no frame that began more than 250 ms before stays parked |
| RtpParked.RunStaysAlone | src/receiver/rtp_receiver.h:222-325 | in every state of every run no two parked frames, nor a parked one and the frame in place, wait for the same parity |
| RtpParked.LateParityRepairs | src/receiver/rtp_receiver.h:222-325 | over any run a frame whose last packet came through with one packet missing and no parity stays parked; when its parity arrives in time and is not pushed out, the next packet that comes through emits it with the missing one rebuilt |
| WsServers.BuildFrame | src/web/ws_server.h:198-212 | the octet-by-octet frame building, with its length loop, is the frame specification |
| WsServers.Client.UnmaskInPlace | src/web/ws_server.h:262-265 | the in-place loop is the unmasking of section 5.3 of RFC 6455 |
| WsServers.Client.Parse | src/web/ws_server.h:238-266 | waiting, a whole frame with its size, or a length beyond 64 bits |
| WsServers.Client.HandleOne | src/web/ws_server.h:268-294 | close, ping, pong, first fragment, continuation, and the delivery of a final non-empty text |
| WsServers.Client.Receive | src/web/ws_server.h:235-295 | one recv: all whole frames handled, in order, until none is left or the connection closes |
| WsStream.ParseWire | src/web/ws_server.h:238-266 | every frame, masked or not, of every length form, is read back whatever follows it |
| WsStream.BroadcastRoundTrip | src/web/ws_server.h:192-212 | parsing a broadcast gives (FIN, opcode, data) and its size, for every length |
| WsStream.BroadcastIsShortest | src/web/ws_server.h:199-211 | no frame that parses to the same payload has a shorter head (section 5.2 of RFC 6455) |
| WireFormats.BroadcastLayout | src/web/ws_server.h:192-212 | FIN and opcode, then the length in one octet up to 125, after 126 in two up to 65535, after 127 in eight, then the data |
| WireFormats.SampleFrames | src/web/ws_server.h:238-266 | the samples of section 5.7 of RFC 6455 parse to "Hello", whole and in two fragments |
| WsStream.PongRoundTrip | src/web/ws_server.h:272-280 | the answer to a ping reads back as a pong of its payload if and only if that has at most 125 octets |
| WsStream.DrainSplit | src/web/ws_server.h:237-295 | draining a buffer, then more octets, is draining them together |
| WsStream.DrainWires | src/web/ws_server.h:237-295 | receiving the octets of any list of frames is handling the frames one by one |
| WsStream.ChunkIndependence | src/web/ws_server.h:232-295 | however a stream is cut into chunks, callbacks and pongs are the same in the same order, and until a close frame so is the parser's state |
| WsStream.MessageArrives | src/web/ws_server.h:238-294 | a message in any fragments, with pings and pongs anywhere, in any chunks: exactly one callback with the whole text if it is a non-empty text, none otherwise, and every ping answered in order (section 5.4 of RFC 6455) |
| WsClose.CloseEnds | src/web/ws_server.h:268-271 | after any frames without a close, a close frame and then any octets, in any chunks: the connection is closed, the events are those of the frames before it alone, and each of their pings was answered |
| WsClose.OpenExactlyWithoutClose | src/web/ws_server.h:237-295 | after any whole frames, in any chunks, the connection is open if and only if none of them was a close |
| WsClose.ConversationCloses | src/web/ws_server.h:237-295 | any messages, perhaps an unfinished one, a close and any octets, in any chunks: every non-empty text called back once in order, every ping before the close answered in order, and the connection closed |
| TcpWire.WriteTcpHeader | src/transport/transport_server.h:49-66 | both header writers fill the 20 octets and touch nothing else |
| TcpWire.ServerSide.SendFrame | src/transport/tcp_server.h:112-128 | the connection's octets are extended by exactly one whole video message |
| TcpWire.ServerSide.SendStats | src/transport/tcp_server.h:141-158 | the connection's octets are extended by exactly one whole metrics message |
| TcpWire.ClientSide.ReadAll | src/receiver/tcp_client.h:55-66 | in any number of partial reads, exactly the octets wanted, or failure exactly when there are fewer |
| TcpWire.ClientSide.Loop | src/receiver/tcp_client.h:68-106 | the receive loop pushes the frames of the stream specification and stops for its reason |
| TcpStream.PacketYields | src/receiver/tcp_client.h:83-102 | a video packet gives its frame; a metrics packet never shows up as video |
| TcpStream.ReceivedSame | src/receiver/tcp_client.h:92-99 | a frame comes through unchanged if and only if its capture time fits 64 signed bits and its number 32 bits |
| TcpStream.RoundTrip | src/receiver/tcp_client.h:68-106 | for messages below 4 GiB, all video frames arrive in order and nothing else, if and only if each message is at most 16 MiB with its header |
| TcpStream.LengthBounds | src/receiver/tcp_client.h:76-79 | a length ends the reading at once if and only if it is below 20 or above 16777216 |
| WireFormats.TcpLayout | src/transport/transport_server.h:40-66 | a message is its length, "RTV1", flags 1 for a keyframe and 2 for metrics, three zeros, frame number, capture time, and the data |
| TcpStream.StopsAt | src/receiver/tcp_client.h:76-79 | the first longer message ends the connection, with exactly the frames before it |
| TcpStream.BrokenOff | src/receiver/tcp_client.h:55-81 | a connection that breaks anywhere yields a prefix of the frames |
| TcpStream.StreamRoundTrip | src/transport/tcp_server.h:112-163 | after any sequence of server calls with messages of at most 16 MiB the client reads exactly the video frames sent |
| LossSimulators.LossSimulator.Inject | src/transport/loss_simulator.h:44-70 | drop, send at once or keep until due, with 32-bit delay arithmetic |
| LossSimulators.LossSimulator.DrainTurn | src/transport/loss_simulator.h:81-96 | waits exactly while nothing is due, otherwise sends an entry with the smallest due time |
| LossSimulators.SoundOverRuns | src/transport/loss_simulator.h:44-97 | over every run with a nondecreasing clock: nondecreasing due times out of the heap, nothing early, pending entries due no earlier than what has left, offered = dropped + accepted, accepted = sent + pending as multisets |
| LossSimulators.ReorderWindow | src/transport/loss_simulator.h:53-67 | of two packets out of the heap the later came at most the jitter before the earlier |
| LossSimulators.FifoWithoutJitter | src/transport/loss_simulator.h:33-67 | without jitter, and with no two packets at one clock reading, packets leave in the order they came, and at once when there is no delay either |
| LossRates.RunHasInputs | src/transport/loss_simulator.h:44-97 | every run is the run of some offers, with their random draws, and turns of the draining loop |
| LossRates.LossIsDraws | src/transport/loss_simulator.h:45-52 | over every run the packets dropped are as many as draws lie below the rate, and those let through are the others, in order |
| LossRates.LowerRateDropsLess | src/transport/loss_simulator.h:45-52 | on the same inputs, what a lower rate drops a higher one drops too |
| LossRates.ExtremeRates | src/transport/loss_simulator.h:45-52 | at rate 0 nothing is dropped, at rate 1 everything is |
| ThreadSafeQueues.ThreadSafeQueue.Push | src/common/thread_safe_queue.h:23-34 | refused when closed; otherwise appended, the oldest element dropped when full |
| ThreadSafeQueues.ThreadSafeQueue.TryPush | src/common/thread_safe_queue.h:37-49 | the same without waiting, whatever the policy |
| ThreadSafeQueues.ThreadSafeQueue.Pop | src/common/thread_safe_queue.h:52-60 | the oldest element held, or nothing exactly when the queue is empty |
| ThreadSafeQueues.ThreadSafeQueue.NewestHeld | src/common/thread_safe_queue.h:23-73 | the queue is always the newest accepted elements, and accepted = taken + dropped + held |
| Crc32.FillTable | src/common/crc32.h:14-19 | every table entry is eight division steps on its index |
| Crc32.EightAtOnce | src/common/crc32.h:29 | a table look-up and a shift are eight division steps |
| Crc32.Crc | src/common/crc32.h:25-31 | the table-driven loop is reflected division by 0xEDB88320, one message bit at a time, from any seed (section 3.2.9 of IEEE 802.3) |
| Crc32.DivideLinear | src/common/crc32.h:16-17 | division is linear over exclusive or |
| Crc32.Chaining | src/common/crc32.h:25-31 | the CRC of a concatenation is that of the second part seeded with the un-inverted CRC of the first |
| Crc32.BurstDetected | src/common/crc32.h:25-31 | two different messages of one length that differ only within 32 consecutive bits never have the same CRC |
| CrcNumbers.RegisterNumber | src/common/crc32.h:14-31 | read as an unsigned integer the register is what division by 0xEDB88320 on integers gives |
| CrcNumbers.CheckValue | src/common/crc32.h:25-31 | the CRC of "123456789" is 0xCBF43926 |

## Left out

- Sockets, accept, receive and ping loops, threads, locks and condition variables: a step is one critical section; blocking waits appear as the condition under which the step may happen.
- Clock readings: one per call, given as an argument; the clock never runs backwards where a theorem needs it.
- Random draws of the simulator: arguments of the injection step.
- Metrics, except the loss count; `first_arrival_us_`, which is written and never read.
- The eight octets of a ping reply are in the host's byte order: their value is an argument. On the links, any RTT may be set at any step.
- Floating point: the jitter estimate and the RTT are real numbers, the conversion to integer microseconds truncates.
- 64-bit overflow of clocks and timestamps.
- JitterRequests.GapIsAskedFor: for runs in which the record of requests is never cleared; clearing it, past 4096 entries, forgets the throttle.
- UdpLink.EndToEndIntegrity: for frames of at most 65534 fragments with distinct numbers modulo 2^32; beyond that the 16-bit fragment numbers repeat.
- UdpLink.EndToEndOrder: for frame numbers that stay clear of the 32-bit wrap, since the buffer's map is ordered numerically.
- RtpRepair.RepairedFrame: for frames whose packet numbers do not cross the 16-bit wrap, since the packet map is ordered numerically.
- UdpReceivers.UdpReceiver.SendNack: does not model the limit of a datagram on a request packet; its 16-bit length field is cut as in the code and not used by the server.
- RtpReceivers.RtpReceiver.Assemble: for packets of a frame in number order, which is how the packet buffer hands them on (`RtpLink.PacketsFollow`).
- RtpLink.EveryEmission: for runs of at most 65536 packets with distinct timestamps, clocks that agree to half the timestamp range, and no re-alignment past packets still buffered.
- RtpLink.AtMostTwice: for the same runs.
- RtpResend.RequestIsAnswered: for the same runs; beyond 65536 packets the 16-bit keys repeat (`RtpServers.RtpServer.CachedKeysCollide`).
- RtpResend.RequestLoopCloses: for the same runs; where the answer goes is a later delivery step, which the network may or may not take.
- RtpParity.ParityStays: for the same runs.
- RtpParity.StoredParityRepairs: for the same runs.
- RtpParked.LateParityRepairs: for the same runs.
- WsServers.Client.Parse: a header and payload that exceed 64 bits close the connection, where the original's pointer arithmetic is undefined.
- WsServers.BuildFrame: models the octets of a broadcast; the list of clients and failing sends are not modelled.
- WsServers.Client.HandleOne: the callback is taken to be installed.
- ThreadSafeQueues.ThreadSafeQueue.Push: a capacity of zero is excluded, where the original would remove from an empty queue.
- LossSimulators.LossSimulator.DrainTurn: which of several entries with the same due time is on top is left open.
- Crc32.Crc: a 32-bit integer is the list of its bits; the table is an argument instead of a static variable.
- The WebSocket handshake (SHA-1, Base64), HTTP serving, JPEG, encoding, decoding, capture, rendering, logging, command line: wrappers, user interface or plumbing.
