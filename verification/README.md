# Verified models of libzt's network core

libzt gives applications a socket API over ZeroTier, on top of the picoTCP stack that it carries
along. This project models the parts of both whose correctness is hardest to see from the code, and
proves what each of them is for. All claims are statements over every input, every run or every
reachable state.

* **6LoWPAN** (`ext/picotcp/modules/pico_6lowpan.c`). `LowpanIphc` and `LowpanHeader` hold the
  compressor and decompressor of the IPv6 header (section 3.1 of RFC 6282), field table included;
  `LowpanFrame` adds the UDP header (section 4.3 of RFC 6282) and the decompressor of whole frames;
  `LowpanExtension`, `LowpanRouting` and `LowpanChain` prove which chains of extension headers
  (section 4.2 of RFC 6282) come back. `LowpanFrag` is the fragmenting sender and `LowpanDefrag` the
  reassembling receiver (section 5.3 of RFC 4944); `LowpanSend` joins compression and fragmenting.
  `LowpanReassembly` proves reassembly in any order of arrival, with and without repeats, and
  `LowpanEndToEnd` joins everything: compress, cut, deliver in any order, and the same datagram comes
  out.
* **PPP** (`ext/picotcp/modules/pico_dev_ppp.c`). `PppTables` and `PppDevice` are the four state
  machines, whose handlers dispatch further events while an event is being handled; `PppLayering`
  and `PppRuns` prove what holds between events in every run, and what the restart timer does with
  a silent peer. `PppFraming` is byte stuffing and the receiver that undoes it, `PppFcs` the frame
  check sequence (section 4.2 and Appendix C of RFC 1662).
* **DNS** (`ext/picotcp/modules/pico_dns_common.c`). `DnsWire`, `DnsPacket` and `DnsCompress` are
  the compression of a packet in its own buffer (section 4.1.4 of RFC 1035); `DnsNotation` is the
  pair of converters between URL and DNS notation.
* **Heap** (`ext/picotcp/include/heap.h`). `HeapOrder`, `HeapBlocks` and `Heap`: a binary heap over
  storage that is split into blocks.
* **libzt data path** (`src/RingBuffer.hpp`, `src/picoTCP.cpp`). `RingBuffer`, `Transmit`,
  `RxFrames`.
* **IEEE 802.15.4 header and frame queue** (`ext/picotcp/modules/pico_802154.c`,
  `ext/picotcp/include/pico_queue.h`). `Ieee802154`, `FrameQueue`.

`Bytes` and `Sequences` hold what the others share.

## How the model relates to the code

* Objects whose fields the code updates are classes (`Cookie`, `Reassembly`, `Ppp`, `Receiver`,
  `Heap`, `RingBuffer`, `Connection`, `RxBuffer`, `Queue`), buffers that are rewritten in place are
  arrays, and loops are methods with invariants. Each such method is proved against a function on
  values, and the theorems are about those functions.
* Allocation succeeds. Widths of integers are written out where they matter: 16 and 8 bits in the
  fragmenting sender and the reassembly counter, 16 bits in DNS counts, 32 bits in the queue size.
  The layout in memory is that of a little-endian host.
* The outside world is a parameter: time (`at`, `now`), what the link can carry (`avail`), what the
  network stack answers to a write (`r`), what the link-layer addresses give as interface
  identifiers (`ls`, `ld`), and everything a PPP peer or modem may send (`Stimulus`). So is memory
  that the code reads behind its own: the byte behind a frame (`mem`) and the bytes behind the TX
  ring (`past`).
* Preconditions say what the code relies on without testing it. The main ones: a fragment lies
  inside its datagram; a link carries at least 13 bytes of a fragment; a chain of extension headers
  has at most seven pieces with IPv6 and UDP header; a DNS name that is to be compressed has a
  suffix other than the root earlier in the packet; a frame from the wire is at most as long as the
  MTU and, unless it is IPv6, finds room in the RX buffer.

## Where the code does less than it promises

Each of these is proved, with the exact condition.

* An IPv6 header survives compression exactly when `LowpanHeader.Restorable` holds. A destination
  that is carried whole clears the addressing mode of a link-local source; an unspecified source
  cannot be decompressed; fe80::/10 addresses outside fe80::/64 lose bits.
* A payload whose first byte looks like a compressed UDP or extension header is taken for one
  (`LowpanChain.PlainFrameRoundTrip`), for instance a TCP source port from 0xF000 to 0xF7FF.
* Of the extension headers only destination options come back, up to 256 bytes each and only before
  UDP, and by coincidence a fragment header whose bytes repeat the one behind it
  (`LowpanChain.SurvivesExactly`, `LowpanRouting.RoutingLost`). The decompressor looks for the
  elided next header in the wrong bit, copies a fragment header from the wrong place, and stops at
  hop-by-hop options.
* Both UDP ports compressed, and bit 2 set in the source nibble: the destination port comes back
  wrong (`LowpanFrame.UdpRoundTrip`).
* A UDP datagram that needs fragments comes back with the UDP length of its first fragment
  (`LowpanEndToEnd.EndToEndUdp`, `LowpanEndToEnd.UdpLengthLost`).
* Reassembly counts bytes and does not notice a fragment that arrives twice. Nothing is handed up
  too early if and only if the bytes that arrived, repeats counted, stay below the size while a
  piece is missing (`LowpanReassembly.EarlyExactly`).
* A header that fits the link may be cut by the rounding of the first fragment: never without UDP
  (`LowpanSend.PlainHeaderFits`), and with UDP exactly if both headers do not fit
  (`LowpanSend.UdpHeaderFits`, `LowpanSend.HeaderCut`).
* The PPP receiver that holds one unescaped byte takes it for the beginning of the next frame
  (`PppFraming.FlagResyncs`).
* A CHAP challenge to an authenticated PPP device leaves IPCP up over an unauthenticated link
  (`PppRuns.LayeringExactly`, `PppExample.TransmitsUnauthenticated`).
* The comment on `pico_dns_check_namelen` allows 256 bytes with the zero byte; the code allows 255.
  Names of one character do not come back from DNS notation (`DnsNotation.NotationRoundTrip`), and
  labels of more than 63 bytes are converted to what reads as a pointer
  (`DnsNotation.EncodedIsName`).
* A DNS name that shares no suffix with an earlier one is compressed at its root, which moves bytes
  by 65535 (`DnsWire.MovesInsideExactly`).
* The stack reads past the end of the TX ring when the ring turns within what it takes
  (`Transmit.ConservedExactly`, `Transmit.SpoiledAtTheTurn`). An IPv6 frame larger than the RX
  buffer keeps `pico_rx` in its loop (`RxFrames.EmptyingEnds`).
* The queue's size counter adds the overhead again when a frame is taken out
  (`FrameQueue.SizeExactly`).

## Model

| member | source | states |
|---|---|---|
| `LowpanEndToEnd.EndToEnd` | ext/picotcp/modules/pico_6lowpan.c:1107-1599 | A datagram with a restorable header, compressed and cut behind the header, is handed up byte for byte once all its fragments have arrived, in any order and among any other traffic, and never before |
| `LowpanEndToEnd.EndToEndUdp` | ext/picotcp/modules/pico_6lowpan.c:1107-1599 | The same for UDP, wherever behind the IPv6 header the frame is cut: what is handed up is the datagram if and only if the UDP length is the one that the first fragment alone would have |
| `LowpanEndToEnd.UdpLengthLost` | ext/picotcp/modules/pico_6lowpan.c:855-858 | So a UDP datagram with the right length, sent in fragments, is never handed up as it was |
| `LowpanEndToEnd.CarriedAcross` | ext/picotcp/modules/pico_6lowpan.c:1518-1599 | Any frame whose first piece decompresses to the start of a datagram, and which agrees with it from there on, carries the datagram across |
| `LowpanEndToEnd.FirstReceived` | ext/picotcp/modules/pico_6lowpan.c:1562-1585 | A received first fragment gives the event with the sizes the sender wrote, offset 0 and the decompressed beginning |
| `LowpanEndToEnd.NextReceived` | ext/picotcp/modules/pico_6lowpan.c:1562-1588 | A received further fragment gives the event with the size and tag the sender wrote, at the offset in the uncompressed datagram where its bytes belong |
| `LowpanEndToEnd.Deliver` | ext/picotcp/modules/pico_6lowpan.c:1518-1599 | The receiver, given all fragments of a frame in any order, hands up exactly the datagram the frame stands for |
| `LowpanEndToEnd.Transfer` | ext/picotcp/modules/pico_6lowpan.c:1408-1599 | Sender and receiver, one after the other, with any order of arrival: what is handed up is the datagram |
| `LowpanEndToEnd.RepeatsAcross` | ext/picotcp/modules/pico_6lowpan.c:1518-1599 | With fragments that arrive more than once, the exact condition for nothing to be handed up early carries over to frames |
| `LowpanEndToEnd.PlainStands` | ext/picotcp/modules/pico_6lowpan.c:1107-1223 | The frame of a datagram stands for it wherever it is cut behind the header |
| `LowpanEndToEnd.UdpStands` | ext/picotcp/modules/pico_6lowpan.c:1107-1223 | The frame of a UDP datagram stands for it, but for the UDP length, wherever it is cut behind both headers |
| `LowpanSend.NotLonger` | ext/picotcp/modules/pico_6lowpan.c:704-741 | Compression never makes the header longer than 40 bytes |
| `LowpanSend.SendDatagram` | ext/picotcp/modules/pico_6lowpan.c:1408-1431 | Compresses and fragments a datagram: fails exactly if a link-local address has no link-layer address to compare with; otherwise the fragments are those of the compressed frame, each fits the link, and the header lies in the first |
| `LowpanSend.SendUdp` | ext/picotcp/modules/pico_6lowpan.c:1370-1431 | The same for UDP, with the header length the code uses, which leaves out the UDP header; the cut lies behind both headers all the same |
| `LowpanSend.CutBehindUdp` | ext/picotcp/modules/pico_6lowpan.c:1386-1404 | Why: a cut at a multiple of eight of the datagram behind the IPv6 header is behind the UDP header too |
| `LowpanSend.PlainHeaderFits` | ext/picotcp/modules/pico_6lowpan.c:1386-1404 | For a frame without UDP the header fits after rounding exactly if it fits with the four bytes of the fragment header |
| `LowpanSend.UdpHeaderFits` | ext/picotcp/modules/pico_6lowpan.c:1386-1404 | With UDP exactly if both headers do |
| `LowpanChain.FrameExactly` | ext/picotcp/modules/pico_6lowpan.c:1107-1223 | A datagram with a restorable header and any chain of extension headers that both sides have room for, before UDP or any other payload, comes back from its frame if and only if the chain survives |
| `LowpanChain.ChainExactly` | ext/picotcp/modules/pico_6lowpan.c:1107-1223 | The chain of headers behind the IPv6 header comes back if and only if each header does |
| `LowpanChain.SurvivesExactly` | ext/picotcp/modules/pico_6lowpan.c:864-1044 | With extension headers that is: UDP at the end, ports that do not clash, and before it only destination options of up to 256 bytes, or fragment headers that repeat the byte behind them |
| `LowpanChain.CompressHeaders` | ext/picotcp/modules/pico_6lowpan.c:1107-1151 | The loop that compresses header after header of a datagram yields the chain |
| `LowpanChain.DecompressHeaders` | ext/picotcp/modules/pico_6lowpan.c:1169-1223 | The loop that restores header after header, with its room for eight pieces |
| `LowpanRouting.RoutingLost` | ext/picotcp/modules/pico_6lowpan.c:981-1044 | No routing header comes back: its type is taken for its length, and no choice of its bytes or of what follows makes up for it |
| `LowpanRouting.ComesCases` | ext/picotcp/modules/pico_6lowpan.c:963-1044 | A header that came back although its third byte is taken for the length would repeat that byte to its end, or have eight bytes and padding |
| `LowpanChain.HopByHopLost` | ext/picotcp/modules/pico_6lowpan.c:935-961 | Hop-by-hop options stay compressed, since their number, zero, ends the loop |
| `LowpanChain.InlineLost` | ext/picotcp/modules/pico_6lowpan.c:1009-1044 | A header before anything but another compressed header loses its next header |
| `LowpanChain.OptionsTooLongLost` | ext/picotcp/modules/pico_6lowpan.c:864-886 | Destination options of more than 256 bytes come back with another length |
| `LowpanExtension.OptionsBack` | ext/picotcp/modules/pico_6lowpan.c:894-1044 | Destination options of up to 256 bytes before a compressed header come back |
| `LowpanExtension.FragmentShifted` | ext/picotcp/modules/pico_6lowpan.c:981-1044 | A fragment header comes back shifted by a byte, hence unchanged exactly if its bytes repeat the one behind it |
| `LowpanChain.PlainFrameRoundTrip` | ext/picotcp/modules/pico_6lowpan.c:1107-1223 | The frame of a datagram whose payload has no compressed form decompresses to the datagram exactly when the first byte of the payload, or the byte behind the frame if it is empty, does not look like a compressed header |
| `LowpanChain.UdpFrameRoundTrip` | ext/picotcp/modules/pico_6lowpan.c:1107-1223 | The frame of a UDP datagram decompresses to it, with the UDP length of what the frame holds, exactly when its ports do not clash |
| `LowpanFrame.UdpRoundTrip` | ext/picotcp/modules/pico_6lowpan.c:773-862 | A UDP header comes back, taking exactly its compressed bytes, except when both ports travel as nibbles and bit 2 of the source nibble is set |
| `LowpanFrame.UdpLonger` | ext/picotcp/modules/pico_6lowpan.c:821-862 | Restoring a UDP header always lengthens the frame, so taking payload for one is always noticed |
| `LowpanFrame.FinishBare` | ext/picotcp/modules/pico_6lowpan.c:1153-1167 | Filling in next header and payload length undoes exactly what compression elided |
| `LowpanHeader.IphcRoundTrip` | ext/picotcp/modules/pico_6lowpan.c:268-771 | Whatever follows in the frame, decompression of a compressed header succeeds, takes exactly the compressed bytes and restores all but payload length and an elided next header, if and only if the addresses are restorable |
| `LowpanHeader.CompressIphc` | ext/picotcp/modules/pico_6lowpan.c:704-741 | The loop over the field table yields the two IPHC bytes and the in-line bytes of all fields; it fails exactly if a link-local address has no link-layer address to compare with |
| `LowpanHeader.DecompressIphc` | ext/picotcp/modules/pico_6lowpan.c:744-771 | The loop over the field table yields header and bytes taken; it fails exactly if a context is asked for |
| `LowpanHeader.FixedFields` | ext/picotcp/modules/pico_6lowpan.c:268-442 | Version, traffic class, flow label, next header and hop limit come back and leave each next field where the compressor put it |
| `LowpanHeader.AddressLengths` | ext/picotcp/modules/pico_6lowpan.c:446-699 | Compressor and decompressor agree on where each address ends exactly for the address pairs in the condition |
| `LowpanHeader.SrcBack` | ext/picotcp/modules/pico_6lowpan.c:558-635 | A source address taken where it was left comes back exactly if it is not a link-local one that loses bits |
| `LowpanHeader.DstBack` | ext/picotcp/modules/pico_6lowpan.c:637-692 | A destination address taken where it was left comes back exactly if its form is restorable |
| `LowpanHeader.TakenForMulticast` | ext/picotcp/modules/pico_6lowpan.c:503-530 | A shortened multicast source before a destination carried whole makes the decompressor take the destination for a multicast address |
| `LowpanIphc.TfRoundTrip` | ext/picotcp/modules/pico_6lowpan.c:268-344 | Traffic class and flow label in all four encodings |
| `LowpanIphc.NhRoundTrip` | ext/picotcp/modules/pico_6lowpan.c:346-400 | Next header, or zero if it is elided |
| `LowpanIphc.HlRoundTrip` | ext/picotcp/modules/pico_6lowpan.c:402-442 | Hop limit |
| `LowpanIphc.LinkRoundTrip` | ext/picotcp/modules/pico_6lowpan.c:470-501 | A link-local address comes back from its elided form exactly if it has the prefix fe80::/64 and, when sent as 16 bits, zero bytes 8 and 9 |
| `LowpanIphc.GroupRoundTrip` | ext/picotcp/modules/pico_6lowpan.c:503-530 | A multicast address comes back from each of its four forms exactly if the bytes that form leaves out are zero |
| `LowpanIphc.SecondByte` | ext/picotcp/modules/pico_6lowpan.c:446-571 | What the decompressor reads from the second IPHC byte, for every pair of addresses |
| `LowpanIphc.FirstByte` | ext/picotcp/modules/pico_6lowpan.c:268-420 | The fields of the first IPHC byte do not disturb each other |
| `LowpanFrag.SendFragments` | ext/picotcp/modules/pico_6lowpan.c:1281-1404 | The fragments of a compressed frame carry consecutive pieces that make up the whole frame, cut at multiples of eight of the uncompressed datagram, the header in the first; each fits the link, no offset overflows its byte, and the run ends |
| `LowpanFrag.FirstCut` | ext/picotcp/modules/pico_6lowpan.c:1386-1404 | In 16- and 8-bit arithmetic, the first cut is the largest multiple of eight that fits; it takes the whole header exactly when the header fits after rounding |
| `LowpanSend.HeaderCut` | ext/picotcp/modules/pico_6lowpan.c:1386-1404 | A UDP datagram whose compressed IPv6 header of 12 bytes fits a link of 16 and is cut after 8 |
| `LowpanFrag.Cookie.Next` | ext/picotcp/modules/pico_6lowpan.c:1250-1330 | A further fragment carries the next piece and keeps eight times the offset equal to the bytes of datagram sent |
| `LowpanFrag.ProgressFrom13` | ext/picotcp/modules/pico_6lowpan.c:1298-1303 | A further fragment that is not the last one carries something exactly when the link has 13 bytes for it |
| `LowpanFrag.PayloadsJoin` | ext/picotcp/modules/pico_6lowpan.c:1269-1330 | What the fragments carry behind their headers, in order, is the frame up to the last cut, each byte once |
| `LowpanFrag.ChunksJoin` | ext/picotcp/modules/pico_6lowpan.c:1281-1404 | The pieces between all cuts, in order, are the frame |
| `LowpanFrag.HeaderRoundTrip` | ext/picotcp/modules/pico_6lowpan.c:1269-1279 | Size, tag, offset and data are read back from both kinds of fragment as they were written |
| `LowpanReassembly.ReassemblesInAnyOrder` | ext/picotcp/modules/pico_6lowpan.c:1518-1599 | If every fragment arrives once, in any order, then at every point of every run the datagram has been handed up if all have arrived, and otherwise nothing has been handed up for its key |
| `LowpanReassembly.EarlyExactly` | ext/picotcp/modules/pico_6lowpan.c:1518-1599 | Over every run, with any repetitions: nothing is handed up for the key before all pieces have arrived if and only if the bytes that arrived, repetitions counted, stay below the size as long as a piece is missing |
| `LowpanReassembly.CompletesDespiteRepeats` | ext/picotcp/modules/pico_6lowpan.c:1518-1599 | In such a run, repeats or not, the arrival of the last missing piece hands the datagram up |
| `LowpanReassembly.FewRepeatsHarmless` | ext/picotcp/modules/pico_6lowpan.c:1541-1560 | Repeats do no harm as long as they add up to less than some piece that is still missing |
| `LowpanReassembly.CountedCovers` | ext/picotcp/modules/pico_6lowpan.c:1541-1560 | The bytes counted are at least those of the pieces that have arrived |
| `LowpanReassembly.StepOver` | ext/picotcp/modules/pico_6lowpan.c:1541-1560 | The arrival that brings the count to the size hands up one datagram, and the right one if all pieces are there |
| `LowpanReassembly.BeforeCompletion` | ext/picotcp/modules/pico_6lowpan.c:1518-1599 | While the count is below the size, the table holds every piece that has arrived, in place, and nothing has been handed up |
| `LowpanReassembly.ThreeArrivalsOfFour` | ext/picotcp/modules/pico_6lowpan.c:1541-1560 | A repeat that is far less than half of the datagram and still hands it up with a hole |
| `LowpanReassembly.CoveredAll` | ext/picotcp/modules/pico_6lowpan.c:1541-1560 | The bytes counted reach the size of the datagram exactly when every piece has been received |
| `LowpanReassembly.OtherEvent` | ext/picotcp/modules/pico_6lowpan.c:159-222 | Fragments with another size, tag, source or destination, and a timer before the time-out, leave a reassembly alone |
| `LowpanReassembly.RepeatedFragmentCountsTwice` | ext/picotcp/modules/pico_6lowpan.c:1541-1560 | The shortest such run: one fragment of at least half the size, received twice |
| `LowpanDefrag.Reassembly.Defrag` | ext/picotcp/modules/pico_6lowpan.c:1518-1599 | A fragment starts, extends or completes the reassembly of its key, and completes it by handing up the datagram |
| `LowpanDefrag.Reassembly.Expire` | ext/picotcp/modules/pico_6lowpan.c:190-222 | The timer removes exactly the reassemblies that are five seconds old |
| `LowpanDefrag.BufMove` | ext/picotcp/modules/pico_6lowpan.c:125-144 | The moved bytes are those the source range held before, however the ranges overlap, and nothing else changes |
| `PppRuns.RunKeepsInv` | ext/picotcp/modules/pico_dev_ppp.c:683-2175 | Between events of every run: the modem is connected exactly when LCP has a lower layer; authentication is at rest unless LCP is open; the LCP timer runs exactly in states that react to it |
| `PppRuns.LayeringExactly` | ext/picotcp/modules/pico_dev_ppp.c:683-2175 | IPCP is up only over an authenticated, open link, at every point of a run, exactly when the run delivers no CHAP challenge to an authenticated device |
| `PppRuns.TransmitsOnlyOverFullStack` | ext/picotcp/modules/pico_dev_ppp.c:509-552 | In such runs a data frame goes out only with every layer up |
| `PppExample.TransmitsUnauthenticated` | ext/picotcp/modules/pico_dev_ppp.c:1874-1901 | A run that transmits while authentication is not in place |
| `PppLayering.DispatchKeepsInv` | ext/picotcp/modules/pico_dev_ppp.c:683-2022 | Whatever nested transitions an outside event sets off, the invariant holds when they are over |
| `PppRuns.StepKeepsInv` | ext/picotcp/modules/pico_dev_ppp.c:1012-1437 | So it does after every packet, modem line, tick and call of the application |
| `PppRuns.TickKeepsInv` | ext/picotcp/modules/pico_dev_ppp.c:2110-2175 | And after the periodic tick with its four time-out checks |
| `PppRuns.SilentPeer` | ext/picotcp/modules/pico_dev_ppp.c:365-399 | With a silent peer the device repeats its request exactly `timer_count` (at most 10) times, at the computed seconds, sends no other request, and then hangs up |
| `PppRuns.SilentSecond` | ext/picotcp/modules/pico_dev_ppp.c:2110-2175 | Each silent second takes one from the time left, and each request sent takes one from the retries |
| `PppRuns.ToPosEffect` | ext/picotcp/modules/pico_dev_ppp.c:1696-1727 | A time-out with retries left sends the request of the phase again and keeps the timer running |
| `PppRuns.ToNegEffect` | ext/picotcp/modules/pico_dev_ppp.c:1696-1727 | A time-out without retries closes every layer and hangs up |
| `PppDevice.TableRanks` | ext/picotcp/modules/pico_dev_ppp.c:667-681 | Every handler in the tables dispatches only events of lower rank than the one it runs for, so the nested dispatch ends |
| `PppDevice.CallRank` | ext/picotcp/modules/pico_dev_ppp.c:1441-1477 | The event a handler dispatches has lower rank than its own |
| `PppDevice.Ppp.Evaluate` | ext/picotcp/modules/pico_dev_ppp.c:748-765 | The dispatcher that looks up the table, changes state and runs the handlers, which dispatch again |
| `PppDevice.Ppp.Execute` | ext/picotcp/modules/pico_dev_ppp.c:1441-1477 | A handler, with the events it dispatches to the other layers |
| `PppRuns.Drive` | ext/picotcp/modules/pico_dev_ppp.c:683-2175 | A device object that receives any sequence of packets, modem lines, calls and ticks ends in the state of the run, with the invariant, and, if it transmits and was never challenged again, with every layer up |
| `PppRuns.WaitForPeer` | ext/picotcp/modules/pico_dev_ppp.c:365-399 | The device object that hears nothing for the computed number of seconds has sent its request exactly `timer_count` more times and has hung up |
| `PppLayering.LcpDownEffect` | ext/picotcp/modules/pico_dev_ppp.c:1461-1465 | The cascade when LCP loses its lower layer: authentication and IPCP go down with it |
| `PppLayering.ModemStopEffect` | ext/picotcp/modules/pico_dev_ppp.c:674-681 | The cascade when the modem hangs up |
| `PppFraming.WireDelivers` | ext/picotcp/modules/pico_dev_ppp.c:2024-2085 | Framed bodies fed to the receiver, from its clean state, are delivered in order, and nothing else is |
| `PppFraming.Receiver.Poll` | ext/picotcp/modules/pico_dev_ppp.c:2024-2085 | A poll takes what is there up to its score and leaves the receiver where the bytes taken leave it |
| `PppFraming.PollAll` | ext/picotcp/modules/pico_dev_ppp.c:2024-2085 | However the stream is cut into chunks that reach the line between polls, and whatever the score of each poll, the bodies are delivered, in order and nothing else, once the line is empty |
| `PppFraming.Pieces` | ext/picotcp/modules/pico_dev_ppp.c:2024-2085 | Feeding a stream in two pieces is feeding it whole |
| `PppFraming.FlagResyncs` | ext/picotcp/modules/pico_dev_ppp.c:2024-2085 | From any state, framed bodies are all delivered behind what the first flag completes, if and only if the receiver does not hold exactly one unescaped byte; if it does, only the first body is spoiled |
| `PppFraming.WireFrom` | ext/picotcp/modules/pico_dev_ppp.c:2024-2085 | What the receiver delivers from any state, frame by frame |
| `PppFraming.SendEscape` | ext/picotcp/modules/pico_dev_ppp.c:306-363 | What is written to the line is the buffer with the bytes between its flags stuffed |
| `PppFraming.Stuffed` | ext/picotcp/modules/pico_dev_ppp.c:306-363 | Stuffed bytes are taken in as the body they stand for |
| `PppFraming.FitsWire` | ext/picotcp/modules/pico_dev_ppp.c:2024-2085 | Bodies of up to 2047 bytes never overrun the receive buffer |
| `PppFraming.ControlEndToEnd` | ext/picotcp/modules/pico_dev_ppp.c:480-507 | Every control packet of up to 2041 bytes of payload fits the receive buffer, is received and accepted by the check sequence, with its protocol and payload |
| `PppFraming.CtlSend` | ext/picotcp/modules/pico_dev_ppp.c:480-507 | The line gets address, control, protocol, payload and check sequence, stuffed between flags |
| `PppFraming.ProcessChecked` | ext/picotcp/modules/pico_dev_ppp.c:1403-1420 | A packet with its check sequence is accepted and taken apart |
| `PppFcs.FcsCharIsBitSerial` | ext/picotcp/modules/pico_dev_ppp.c:439-445 | The shift-and-xor step is eight steps of the bit-serial CRC with polynomial 0x8408 |
| `PppFcs.BurstChangesFcs` | ext/picotcp/modules/pico_dev_ppp.c:439-466 | Buffers that differ only within two adjacent bytes never share a check sequence |
| `PppFcs.BurstDetected` | ext/picotcp/modules/pico_dev_ppp.c:468-478 | A frame damaged within two adjacent bytes is rejected |
| `PppFcs.TrailerVerifies` | ext/picotcp/modules/pico_dev_ppp.c:468-506 | Every frame with its own check sequence is accepted |
| `PppFcs.VerifiesIffGood` | ext/picotcp/modules/pico_dev_ppp.c:468-478 | A frame is accepted exactly when its last two bytes are the check sequence of the others |
| `PppFcs.FcsContinue` | ext/picotcp/modules/pico_dev_ppp.c:447-455 | The loop over a buffer |
| `PppFcs.FcsVerify` | ext/picotcp/modules/pico_dev_ppp.c:468-478 | The verification of a received frame |
| `DnsPacket.PackedMeans` | ext/picotcp/modules/pico_dns_common.c:1559-1637 | The compressed packet has the same header and holds the same entries: the names mean what they meant, and suffixes and record data are the same bytes |
| `DnsCompress.CompressPacket` | ext/picotcp/modules/pico_dns_common.c:1595-1637 | The code, in place, produces that packet and its length |
| `DnsCompress.CompressRecords` | ext/picotcp/modules/pico_dns_common.c:1561-1593 | The loop over the records, which reads record data lengths behind names it has just compressed |
| `DnsCompress.CompressQuestions` | ext/picotcp/modules/pico_dns_common.c:1620-1632 | The loop over the questions |
| `DnsCompress.CompressName` | ext/picotcp/modules/pico_dns_common.c:1494-1556 | A name is compressed at its first label whose rest occurs earlier |
| `DnsWire.MovesInsideExactly` | ext/picotcp/modules/pico_dns_common.c:1494-1556 | Behind an earlier name the search always ends with a match, and what follows moves up by no more than the bytes replaced if and only if the name shares a suffix; otherwise it stops at the root and the difference is 65535 |
| `DnsWire.StopsAtRoot` | ext/picotcp/modules/pico_dns_common.c:1519-1553 | The search reaches the root exactly if no suffix is shared |
| `DnsCompress.FindPtr` | ext/picotcp/modules/pico_dns_common.c:1463-1488 | The first earlier occurrence of the rest of a name |
| `DnsCompress.MoveUp` | ext/picotcp/modules/pico_dns_common.c:1540-1548 | The shifting loop: everything behind moves up unchanged |
| `DnsCompress.NamelenComp` | ext/picotcp/modules/pico_dns_common.c:49-74 | One less than the bytes a name takes, pointer or not, if it takes at most 256; never more |
| `DnsCompress.DecompressName` | ext/picotcp/modules/pico_dns_common.c:83-126 | Gives back the name, up to its first zero byte, that labels and pointers to anywhere lead to, if they end within the buffer of 256 bytes |
| `DnsWire.SelfPointer` | ext/picotcp/modules/pico_dns_common.c:97-102 | A pointer to itself is never read to an end |
| `DnsCompress.NameOfEntry` | ext/picotcp/modules/pico_dns_common.c:83-126 | Reading any entry of a compressed packet gives its original name |
| `DnsCompress.CommonEndCompresses` | ext/picotcp/modules/pico_dns_common.c:1494-1556 | A packet whose names all end in one label can always be compressed |
| `DnsWire.CompressedMeans` | ext/picotcp/modules/pico_dns_common.c:1494-1556 | Compressing a name leaves what is before it, moves what is behind it, saves at least one byte, and the name means the same |
| `DnsWire.MatchBefore` | ext/picotcp/modules/pico_dns_common.c:1475-1485 | An earlier occurrence of a name ends before the name begins |
| `DnsWire.ReadsFrame` | ext/picotcp/modules/pico_dns_common.c:83-112 | The meaning of a name depends only on the bytes before its end |
| `DnsPacket.StepKeeps` | ext/picotcp/modules/pico_dns_common.c:1561-1593 | Each step keeps the entries dealt with and leaves the others as they were written |
| `DnsNotation.NotationRoundTrip` | ext/picotcp/modules/pico_dns_common.c:226-355 | A name without zero bytes survives the way to DNS notation and back exactly when it has 2 to 253 bytes and no empty label |
| `DnsNotation.NameToDns` | ext/picotcp/modules/pico_dns_common.c:311-333 | The in-place loop writes each label length in place of the dot before the label |
| `DnsNotation.DnsToName` | ext/picotcp/modules/pico_dns_common.c:345-355 | The in-place loop writes a dot in place of each length |
| `DnsNotation.UrlToQname` | ext/picotcp/modules/pico_dns_common.c:263-285 | Names of 1 to 253 bytes are converted, others refused |
| `DnsNotation.QnameToUrl` | ext/picotcp/modules/pico_dns_common.c:226-252 | Names are converted up to the first zero byte, if that leaves 3 to 255 bytes |
| `DnsNotation.EncodedWalks` | ext/picotcp/modules/pico_dns_common.c:23-26 | The lengths lead from one label to the next and nowhere else |
| `DnsNotation.EncodedIsName` | ext/picotcp/modules/pico_dns_common.c:263-333 | The converted text is a name as compression understands it if and only if no label is empty or longer than 63 bytes |
| `Heap.Heap.Insert` | ext/picotcp/include/heap.h:42-65 | Adds exactly the element and keeps the order; fails, changing nothing, exactly when the storage is full |
| `Heap.Heap.Peek` | ext/picotcp/include/heap.h:66-95 | Takes out exactly one element, a minimum, and keeps the order |
| `Heap.Heap.Drain` | ext/picotcp/include/heap.h:66-95 | Taking out everything gives the elements in order |
| `Heap.Heap.First` | ext/picotcp/include/heap.h:96-101 | A minimum of the elements, without taking it out |
| `Heap.Heap.IncreaseSize` | ext/picotcp/include/heap.h:21-41 | Growing makes room for one more element, keeps all live ones, and fails exactly when sixteen blocks are full; the size counter stays at the high-water mark or one more |
| `Heap.Heap.SiftUp` | ext/picotcp/include/heap.h:56-63 | The hole moves up until the order holds; the elements are the same |
| `Heap.Heap.SiftDown` | ext/picotcp/include/heap.h:76-93 | The hole moves down until the order holds; the elements are the same |
| `HeapBlocks.GrownCovers` | ext/picotcp/include/heap.h:21-41 | Allocating a block anew keeps every element before the new one |
| `HeapBlocks.PutFlat` | ext/picotcp/include/heap.h:16-20 | Writing into a block is writing into one flat array |
| `HeapOrder.RootIsLeast` | ext/picotcp/include/heap.h:96-101 | The first element of a heap is a minimum |
| `RingBuffer.RingBuffer.Write` | src/RingBuffer.hpp:112-132 | Appends as much of the data as fits |
| `RingBuffer.RingBuffer.Read` | src/RingBuffer.hpp:134-154 | Takes out the oldest elements |
| `RingBuffer.RingBuffer.Consume` | src/RingBuffer.hpp:93-110 | Drops the oldest elements |
| `RingBuffer.RingBuffer.Produce` | src/RingBuffer.hpp:74-91 | Makes the elements behind the contents part of them |
| `RingBuffer.RingBuffer.Count` | src/RingBuffer.hpp:156-166 | The number of elements, even when both indices meet |
| `Transmit.Connection.Write` | src/picoTCP.cpp:775-836 | The buffer never gets full and the short write cannot happen; what the stack has taken followed by what is in the buffer is what was written, if and only if what the stack took did not run past the end of the ring, or the memory there held the same bytes |
| `Transmit.Connection.OnWritable` | src/picoTCP.cpp:263-297 | The same when the stack asks for more |
| `Transmit.ConservedExactly` | src/picoTCP.cpp:816-834 | The condition, for any contents of ring and memory |
| `Transmit.SpoiledAtTheTurn` | src/picoTCP.cpp:775-836 | Ten bytes through a ring of eight that reach the stack with two foreign ones |
| `RxFrames.RxBuffer.Add` | src/picoTCP.cpp:434-469 | The frame joins the queue; only an IPv6 frame that finds no room empties it first |
| `RxFrames.EmptyingEnds` | src/picoTCP.cpp:456-461 | The loop that makes room for an IPv6 frame ends exactly if the frame fits the empty buffer |
| `RxFrames.RxBuffer.Poll` | src/picoTCP.cpp:472-504 | Hands up as many frames as the score allows, whole and in order |
| `RxFrames.EncAdd` | src/picoTCP.cpp:463-466 | A frame written behind the others is the last of the queue |
| `Ieee802154.HeaderRoundTrip` | ext/picotcp/modules/pico_802154.c:92-175 | Both addresses, their modes and the header length come back from a formatted header, whatever follows it |
| `Ieee802154.Format` | ext/picotcp/modules/pico_802154.c:139-175 | The header as it is laid out |
| `Ieee802154.TurnAround` | ext/picotcp/modules/pico_802154.c:66-86 | The in-place loop reverses an address |
| `Ieee802154.ReversedTwice` | ext/picotcp/modules/pico_802154.c:66-86 | Turning an address around twice gives it back |
| `Ieee802154.Swap` | ext/picotcp/modules/pico_802154.c:57-62 | Two different places are exchanged |
| `Ieee802154.SameIid` | ext/picotcp/modules/pico_802154.c:384-402 | Both ends of a link compute the same interface identifier |
| `FrameQueue.Queue.Enqueue` | ext/picotcp/include/pico_queue.h:70-107 | A frame joins the end of the queue, or nothing changes, exactly when a limit is reached |
| `FrameQueue.Queue.Dequeue` | ext/picotcp/include/pico_queue.h:109-135 | The first frame leaves the queue |
| `FrameQueue.Queue.Empty` | ext/picotcp/include/pico_queue.h:152-159 | Every frame is taken out, in order, and the loop ends |
| `FrameQueue.Queue.Peek` | ext/picotcp/include/pico_queue.h:137-145 | The first frame |
| `FrameQueue.SizeExactly` | ext/picotcp/include/pico_queue.h:98-122 | The size counter is the bytes in the queue with one overhead for each frame, if and only if there is no overhead or nothing was taken out since the queue was last empty, but for multiples of 2 to the 32 |
| `FrameQueue.TwoInOneOut` | ext/picotcp/include/pico_queue.h:70-135 | Two frames in and one out: the counter is off by twice the overhead |

## Left out

- Stateful compression contexts: the context table is empty.
- Chains of extension headers with eight or more pieces, for which both sides write behind their table of pieces, and frames in which a believed length reaches outside the frame: the model gives no result. Extension headers are not carried through fragmentation.
- Compression clears the version nibble, and rewrites the length bytes of extension headers, in the original frame before it is known to succeed; the model leaves the original alone.
- Truncated compressed frames, whose header is read from behind the frame.
- The first fragment of an uncompressed datagram (`frag_1st_no_comp`), which is not rounded to eight bytes.
- Links that cannot carry the compressed header, or the four bytes of a fragment header, where the 16-bit arithmetic of `frag_1st_comp` wraps around.
- What happens to a reassembly after the timer fired, and fragments that reach outside their datagram.
- The text of AT commands, the line mode of `pico_ppp_poll` before the modem is connected, the options inside LCP and IPCP packets (a packet is its code and whether its options are acceptable), MD5, and PPP data frames, whose check sequence starts behind address and control.
- CompressName: asks for a shared suffix, because the code otherwise moves bytes outside the packet, as `DnsWire.MovesInsideExactly` shows; CompressPacket, CompressRecords and CompressQuestions ask the same of every name.
- DecompressName: asks that the name ends within 256 bytes; the code has no bound of its own.
- Building DNS packets, reverse names, and everything about resolving.
- The heap's `heap_insert` returns early for the first element; the loop does the same for it.
- The address of a heap element that is computed but not read.
- `RingBuffer`'s copy constructor, the receiving path through the ring (`pico_cb_tcp_read`), locks, and what the process does on a general failure.
- Add: a frame that is not IPv6 must find room, because the code writes behind the buffer otherwise; an IPv6 frame must fit the empty buffer.
- `frame_802154_format` with address modes above 3, and `pico_802154_estimator`.
- Q_LIMIT and locking in the frame queue.
- The red-black trees are maps; sockets, TCP, IPv4, routing, timers, device drivers, lwIP, the `zts_` API, language bindings and the other modules of picoTCP are not part of this model.
