# A verified model of the HLS network stack and the UART console

The repository builds an FPGA network stack: `udp_echo` is called over and over, takes at most one received byte and
writes at most one byte to the wire per call, and in between parses frames, answers ARP, ping, UDP and TCP echo traffic,
and runs a DHCP client, all in one shared 768-word buffer. Beside it stands a UART console clocked cycle by cycle. This
project models both in Dafny and proves what they do over whole runs.

## How it is built

Every stateful component is a class with the source's registers as fields (arrays where the source has memories), whose
methods are proved equal to a specification function on values; the properties are lemmas about those functions.

| files | component |
|---|---|
| `Bytes`, `Layout`, `Store` | words and bytes, the buffer partition and the request register, the packing loop of the builders |
| `Crc`, `Checksum` | CRC-32 over `bv32`; ones' complement sums over integers |
| `MacRx`, `MacTx`, `MacWire`, `MacFrames`, `MacForeign` | frame parser, frame FIFO and staging; frame printer; what leaves it; both put together; frames for other stations |
| `Arp`, `ArpHistory` | the two-level cache; the cache against the history of what it was taught |
| `Ip`, `Icmp`, `Igmp`, `Udp` | header check and header builder; the echo responder; the group reporter; port filter, gated sender and ARP frames |
| `DhcpOptions`, `Dhcp` | option reader and writer; the client and its frames |
| `Tcp`, `TcpOptions`, `TcpFrame`, `TcpTable`, `TcpEcho`, `TcpHandshake`, `TcpFailures`, `TcpLayer` | the echo server as a function; SYN options; segments as bytes; the table and Reno over runs; the echo stream; the handshake; inputs on which the echo fails; the server as an object |
| `TcpLife`, `TcpReno` | which segment moves a connection where, what answers it, and its whole life; slow start, avoidance and duplicates |
| `Echo`, `EchoIntegrity`, `EchoRuns`, `EchoBoard` | one call of `udp_echo`; what a call owes the wire; runs; the machine as an object |
| `EchoTcp`, `EchoData`, `EchoLive`, `EchoWhole`, `EchoStart` | the TCP echo on the wire; from received frames alone; when everything is out; when nothing is dropped; from power-up |
| `EchoReceive`, `EchoAnswers`, `EchoOrder` | from the bytes of a frame to the frame that answers it: ping and UDP echo; ARP, group queries and TCP segments; which builder gets the MAC, and when the DHCP client starts |
| `EchoDisturb`, `EchoFailures` | exactly what a received frame does to frames under way; frames torn and lost from power-up |
| `Uart`, `UartRx`, `UartTx`, `UartCommands`, `UartDialogue` | the console; reception at any bit rate; transmission and loopback; commands and responses; when they leave |

The main results, in short:

* **The TCP echo, end to end** (`EchoTcp.EchoOnLine`, `EchoData.EchoFromFrames`, `EchoWhole.EverythingReturns`,
  `EchoStart.EchoFromPowerUp`). In a run of the whole machine the bytes on the wire are the frames asked for, each whole
  and in order; the TCP segments among them are those of the connection table's own run, and carry every accepted byte of
  the stream at the offset its sequence number says. This holds of every run in which one connection sends data,
  established connections acknowledge, and nothing else asks for a reply; and if at most 576 bytes come between pauses,
  everything received comes back, from a handshake after power-up on, within 16960 calls of silence at the end, whatever
  the pacing of the HELLO frames from 2 calls on.
* **Every answer, end to end** (`EchoReceive.PingOnLine`, `UdpOnLine`, `EchoAnswers.AnswerOnLine`, `ReportOnLine`,
  `SegmentAnsweredOnLine`): from the bytes of an echo request, a datagram, an ARP question, a group query, a SYN or a FIN to
  the bytes of the wire frame that answers it, field by field. `EchoAnswers.ForeignIgnored` and `OthersIgnored` are the
  frames that change nothing.
* **The life of a connection** (`TcpLife.MovesExactly`, `RepliesExactly`, `NextIsServed`): which segment moves it where and
  what is sent at once, exactly; and after any whole life from power-up its slot is free and the next peer is served.
* **Damage** (`Ip.ValidIff`, `DamagedRefused`): the header check accepts exactly the 20 bytes with the right version,
  length, destination and word sum, and no header with one 16-bit word changed, except 0 against 0xFFFF.
* **Frame integrity** (`EchoRuns.FramesOnLine`, `LineCatchesUp`, `EchoLive.DebtFirst`, `EchoDisturb.CallKeepsIff`). Every
  request raised by any builder or handler becomes exactly one wire frame with the buffer contents at the end of the call
  that raised it, under one condition on what is received: a frame that completes while the MAC works asks for no reply
  that would replace a waiting request and writes no region being sent. The MAC never stalls. For a single call the
  condition is exact: a reply must find the register free, and what is written over payload bytes still to be sent, of the
  frame in flight or of the waiting one, must say the same as before. `EchoFailures.HelloTorn` and `ReplyLost` reach both
  failures from power-up.
* **The link** (`MacFrames.RoundTrip`, `AlignedExactly`, `MacForeign.ForeignFrame`, `FramesDelivered`): printer and parser
  are inverse; the frame FIFO stays aligned, and exactly when it would not; exactly what any frame for another station
  does to the parser, and what is reported of any line whatever (`MacForeign.LineReported`).
* **CRC-32** sees every burst of at most 32 bits, and four bytes bring the register to the residue exactly when they are
  the check sequence.
* **ARP** exactly as a recency list over an append-only table, and exactly when the newest MAC taught is the one returned
  (`ArpHistory.NewestReturnedIff`).
* **UART**: exactly the bit periods from 4948 to 5533 cycles are received back to back; a receiver on the console's line
  gets the echoes and the responses, each whole and in order; a typed line gets its whole answer (`UartDialogue.TypedLine`).

## What the code does that its documentation or tests say differently

The model follows the code in each case.

* `tb/udp_echo_tb.cpp:257` compares the register after a whole frame with 0x2144DF1C; the register itself ends in the
  complement, 0xDEBB20E3 (`Crc.ResidueIffFcs`).
* `udp_rx_process` raises `valid` only for port 8080, so the branch of `udp_echo` that hands port 68 to the DHCP client is
  never taken (`Udp.ParseUdp`): on the board the client sends DISCOVERs and gives up. Its receive half is modelled
  and proved all the same.
* The ARP request a HELLO to an unknown address raises is overwritten by the HELLO in the same call
  (`Udp.ArpRequestOverwritten`).
* A cache always giving the newest MAC is not a theorem: table copies are never replaced and the scan stops at the first.
  `ArpHistory.NewestReturnedIff` says exactly when the newest is returned, lookups of the address included;
  `ArpHistory.StaleReturned` is a run that returns an old one.
* `tcp_queue` drops what exceeds 576 bytes while the segment is acknowledged whole (`TcpEcho.AcceptedWholeIffFits`,
  `AcknowledgedWhole`; a run: `TcpFailures.ByteDropped`); a second connection's data queued behind another's is mixed up
  (`TcpEcho.StepConservesIff` gives the exact condition; a run: `TcpFailures.ConnectionsMixed`); a FIN with bytes still
  parked is sent ahead of them (`TcpEcho.FinAtEndIffDrained`; a run: `TcpFailures.FinAhead`).
* `0x12345678|(cid<<20)` is 0x12345678 for each of the three slots (`Tcp.SlotsShareIsn`); the branch `dup_ack_cnt>3` is
  dead; the comment `MSS=536` in `tcp_build_hdr` stands beside the value 460.
* Outside a payload the parser does not look at the end-of-frame flag, so it reads on in the rest of a frame for another
  station. Six bytes 0x55 in a row there lock it, any bytes then count, and the first 0xD5 behind the seventh starts a
  header, the count wrapping at 256: a frame carried inside is delivered (`MacForeign.EmbeddedFrameDelivered`), and a rest
  of seven 0x55 and 0xD5 makes the board miss its own next frame (`MacForeign.NextFrameLost`). `MacForeign.ForeignFrame`
  gives the exact condition.
* A frame waiting for the MAC is lost when a received one is answered meanwhile, and the copy of a UDP payload for its echo
  tears a frame in flight from the same region (`EchoDisturb.CallKeepsIff`; runs: `EchoFailures.ReplyLost`, `HelloTorn`).
* The broadcast flag of the DHCP messages stands in the field for the elapsed seconds, bytes 8 and 9, and the flags field is
  zero, because the shift by 16 in `src/layer_dhcp.cpp:38` reaches the upper half of the word (`Dhcp.FrameReadsBack`).
* The IP check takes the board's and the broadcast address only, so a query sent to a group address is never answered
  (`Ip.ValidIff`).
* An echo request whose IP length is above 256 spills from the scratch region into the words of the DHCP frame
  (`Icmp.SpillsIff`), although `src/layer_icmp.cpp` accepts messages of 256 bytes.
* At 5208 cycles a bit, the console's own rate, only every second byte typed without pauses is echoed
  (`UartDialogue.EchoedStream`); bytes that complete every 52081 cycles keep a response queued for ever
  (`UartDialogue.AnswerStarves`).

## Model

| member | source | states |
|---|---|---|
| Crc.Crc32Byte | src/eth_utils.h:34-44 | the bit loop advances the reflected CRC-32 register by exactly one byte |
| Crc.BurstDetected | src/eth_utils.h:34-44 | two strings of one length that differ only within 32 consecutive bits in wire order never end in the same register |
| Crc.FourByteBurstDetected | src/eth_utils.h:34-44 | damage confined to four consecutive bytes is always seen |
| Crc.ResidueIffFcs | src/layer_mac.cpp:294-312 | four more bytes bring the register to 0xDEBB20E3 if and only if they are the check sequence of what went before; section 3.2.9 of IEEE 802.3 |
| Checksum.OnesComplementChecksum | src/eth_utils.h:52-62 | the folding loop terminates and gives the complement of the folded 32-bit sum |
| Checksum.IcmpChecksum | src/layer_icmp.cpp:27-38 | the checksum of a byte string, odd lengths padded with zero |
| Checksum.TcpChecksum | src/layer_tcp.cpp:99-105 | the checksum over pseudo-header and segment, without overflow for any 16-bit length |
| Checksum.FoldValue | src/eth_utils.h:57-60 | folding gives 0 for 0 and ((s-1) mod 65535)+1 otherwise; RFC 1071 section 1 |
| Checksum.CheckAccepts | src/eth_utils.h:52-62 | exactly the computed value, or 0xFFFF beside a computed 0, makes the verification of any sum succeed |
| Checksum.InsertThenVerify | src/eth_utils.h:52-62 | writing a value into a zeroed header word makes the check return 0 exactly for the computed one or its alias |
| Checksum.FillVerifies | src/layer_tcp.cpp:186-188 | the same for two zero bytes at an even offset, on top of any pseudo-header sum |
| Checksum.SumIsWeighted | src/layer_icmp.cpp:27-38 | the sum the checksums are about, of any byte string: byte k counts 256 times at an even place and once at an odd one; RFC 1071 section 1 |
| Checksum.SumPadded | src/layer_icmp.cpp:33-35 | an odd string sums like itself with a zero byte behind |
| Checksum.TcpSumIs | src/layer_tcp.cpp:99-105 | the TCP sum is that of the bytes of the addresses, zero, protocol 6, the length, and the segment; RFC 9293 section 3.1 |
| Ip.Process | src/layer_ip.cpp:18-84 | the header check on the staged frame yields the parsed fields, valid exactly for version 4, length 5, a verifying checksum and the board's or the broadcast address |
| Ip.BuildHeader | src/layer_udp.cpp:159-187 | the header every builder writes, checksum over a zeroed field |
| Ip.HeaderAccepted | src/layer_ip.cpp:67-73 | every built header passes the receive check and reads back as the fields it was built from |
| Ip.ValidIff | src/layer_ip.cpp:18-84 | any 20 bytes are valid if and only if version 4, length 5, the board's or the broadcast address, and ten words that sum to a non-zero multiple of 65535 |
| Ip.FieldAcceptedIff | src/layer_ip.cpp:67-73 | of all values in the checksum field exactly the computed one, or 0xFFFF beside a computed 0, is accepted |
| Ip.DamagedRefused | src/layer_ip.cpp:67-81 | a valid header with one 16-bit word changed is refused, except 0 against 0xFFFF |
| Bytes.UnpackPack | src/layer_mac.cpp:142-156 | packing bytes into big-endian words loses nothing and pads with zeros |
| Arp.ArpCache.LruTouch | src/layer_arp.cpp:34-44 | the ages after a touch |
| Arp.ArpCache.L1Lookup | src/layer_arp.cpp:49-59 | a first-level hit answers the entry's MAC and makes it the newest, a miss changes nothing |
| Arp.ArpCache.L1Insert | src/layer_arp.cpp:64-88 | a present address is rewritten and touched; a new one goes to the front, the oldest of a full level to the table if it has room |
| Arp.ArpCache.Lookup | src/layer_arp.cpp:93-108 | the answer and the cache after it: first level, else the first table copy, which is promoted |
| Arp.ArpCache.Update | src/layer_arp.cpp:113-125 | the cache after learning a binding |
| Arp.TouchExact | src/layer_arp.cpp:34-44 | in every state where the k valid slots hold the ages 0..k-1 and the others k, a touch moves its slot to the front of the recency order; no 3-bit age wraps |
| Arp.GrowExact | src/layer_arp.cpp:64-88 | putting the first unused slot in use makes it the newest of k+1 |
| Arp.TouchSound | src/layer_arp.cpp:34-88 | distinct addresses and the entry list in age order survive rewriting and touching a slot |
| ArpHistory.AnswersWereTaught | src/layer_arp.cpp:93-125 | every MAC returned for an address was once taught for it |
| ArpHistory.TableCountsEvictions | src/layer_arp.cpp:64-88 | every eviction fills one table slot until all 256 are used |
| ArpHistory.FoundIffTaught | src/layer_arp.cpp:93-125 | while the table never had to refuse an entry, exactly the addresses ever taught are found |
| ArpHistory.ConsistentIsMap | src/layer_arp.cpp:93-125 | with one MAC per address the cache is a plain map |
| ArpHistory.RecencyExact | src/layer_arp.cpp:34-88 | the first level always holds the eight most recently used addresses, newest first, so a full one evicts the least recently used |
| ArpHistory.PresentIffFewSince | src/layer_arp.cpp:34-88 | an address stays in the first level exactly while fewer than eight others have been used since |
| ArpHistory.FreshMacReturned | src/layer_arp.cpp:93-125 | a MAC just taught is the one returned until eight other addresses have been used |
| ArpHistory.TableAnswerFrozen | src/layer_arp.cpp:93-108 | the table's answer for an address never changes once it is there |
| ArpHistory.NewestReturnedIff | src/layer_arp.cpp:93-125 | over any calls that do not teach the address again, lookups of it included: the MAC just taught is returned if and only if the address never had eight others used since its last use, or the table already held this MAC first, or held none and had room when the entry was pushed out; once pushed out, an address the table held gets the table's copy |
| ArpHistory.StaleReturned | src/layer_arp.cpp:93-125 | a run from the empty cache that returns an older MAC than the last one taught |
| MacRx.Parser.Process | src/layer_mac.cpp:20-171 | one pass of the parser: registers, words pushed, completed frame |
| MacRx.StepCovered | src/layer_mac.cpp:135-165 | whatever byte arrives, a completed frame finds at least its announced words in the FIFO, so staging never waits |
| MacRx.Receiver.Receive | src/udp_echo.cpp:120-147 | parse one byte and, if that completes a frame, pop exactly its words and keep the first 400 |
| MacFrames.AlignedExactly | src/layer_mac.cpp:135-165 | the FIFO holds exactly the words of the frame in progress after any pass unless it counts the 1024th word of a frame or resets over a non-empty FIFO, and in those cases it does not |
| MacFrames.FrameDelivered | src/layer_mac.cpp:20-171 | a well-formed frame for the board with any number of VLAN tags is delivered exactly once, on its last byte and not before, with its addresses, ethertype and words; sections 3.2.8 and 3.2.9 of IEEE 802.3 |
| MacFrames.PassesAreFeed | src/layer_mac.cpp:65-67 | passes without a byte make no difference |
| MacFrames.RoundTrip | src/layer_mac.cpp:20-318 | what the printer makes of a request, fed to the parser, is delivered once and on the last byte, with destination, ethertype, board source, and the zero-padded payload and check sequence as words |
| MacForeign.ForeignFrame | src/layer_mac.cpp:71-133 | for every frame to another station: what its rest spells decides whether it leaves no trace, delivers exactly one report, or leaves the parser in a preamble, a header or a payload; the channel is ready again exactly in the first two cases |
| MacForeign.NoSixIsClean | src/layer_mac.cpp:84-88 | without six bytes 0x55 in a row the rest is skipped, but for the bytes 0x55 it ends in, which count towards the next preamble |
| MacForeign.EmbeddedFrameDelivered | src/layer_mac.cpp:71-133 | a frame for another station that consists of one for the board delivers the latter |
| MacForeign.NextFrameMisread | src/layer_mac.cpp:71-133 | behind a rest that ends in a complete preamble the next frame is read as if its first byte began a header, and what it spells decides |
| MacForeign.NextFrameLost | src/layer_mac.cpp:71-133 | behind seven bytes 0x55 and 0xD5 sent to another station the next frame for the board goes unreported when no six bytes 0x55 in a row come up behind its first 14 bytes |
| MacForeign.LineReported | src/layer_mac.cpp:20-171 | whatever byte strings arrive at any pace, the last byte of each flagged: the reports are exactly those the bytes since the last report spell, and when the channel is ready again |
| MacForeign.FramesDelivered | src/udp_echo.cpp:136-147 | over any sequence of frames for the board and for others at any pace, those for others leaving no header cut and counted preamble bytes and the next lead staying below the counter's wrap: exactly the frames for the board and those embedded are reported, in order |
| MacTx.Printer.Process | src/layer_mac.cpp:176-318 | one pass of the printer: registers, request taken, byte written, busy flag |
| MacWire.StepEmits | src/layer_mac.cpp:210-318 | in flight every pass writes the next byte of the wire frame and advances by one, and the last byte leaves the MAC idle |
| MacWire.SendsWire | src/layer_mac.cpp:176-318 | a request given to an idle MAC comes out as exactly its wire frame in one pass more than it has bytes |
| MacWire.TornIff | src/layer_mac.cpp:273-292 | with other buffer contents the rest of a frame in flight goes out as asked for if and only if every payload byte still to be read is the same |
| Icmp.Responder.ShiftUp | src/layer_icmp.cpp:121-127 | moving the message five words up in place, last word first, loses nothing and touches nothing else |
| Icmp.Responder.PatchCopy | src/layer_icmp.cpp:79-117 | the copied request with reply type and the checksum over its own bytes |
| Icmp.Responder.Process | src/layer_icmp.cpp:47-182 | buffer, request and cache after an echo request; anything else changes nothing |
| Icmp.PingReply | src/layer_icmp.cpp:79-180 | for every echo request of 4 to 256 bytes, odd lengths included: an accepted IP header, then the request with only type and checksum changed, verifying, and no other word written; RFC 792 |
| Icmp.SpillsIff | src/layer_icmp.cpp:121-127 | a word of the DHCP region changes if and only if the message reaches it with another word, which takes an IP length above 256 |
| Igmp.Reporter.Process | src/layer_igmp.cpp:42-145 | buffer and request after a query about all groups or the board's own; anything else changes nothing |
| Igmp.ReportReads | src/layer_igmp.cpp:86-137 | the report is a packet from the board to its group with TTL 1, and a verifying message of the version of the querier with the group; RFC 2236 sections 2 and 4 |
| DhcpOptions.Access.WriteOpt | src/layer_dhcp.cpp:92-120 | code, length and at most four data bytes put at the offset, nothing else changed |
| DhcpOptions.Access.ReadOpt | src/layer_dhcp.cpp:103-139 | the scanning loop terminates and returns what the byte string says about the target option |
| DhcpOptions.OptionsRoundTrip | src/layer_dhcp.cpp:92-139 | options written from byte 240 and closed by 255 are found again: the first with the target code, or none; the fixed header stays; RFC 2132 section 2 |
| Dhcp.DhcpClient.Tx | src/layer_dhcp.cpp:181-278 | client, buffer and request after one call of the transmit half |
| Dhcp.DhcpClient.Rx | src/layer_dhcp.cpp:144-176 | client and start signal after one message, options of any length included: short ones leave the rest of the array as it was |
| Dhcp.FrameReadsBack | src/layer_dhcp.cpp:29-87 | a built frame reads back field by field: accepted IP header from no address to all, ports 68 and 67, a boot request with its identification, the board's hardware address and zeros, and the options of its kind: the message kind and, in a REQUEST, the offered address and the server; RFC 2131 section 2 |
| Dhcp.AtMostFiveFrames | src/layer_dhcp.cpp:181-278 | from reset, under any start signal and any messages, at most five frames are ever sent |
| Dhcp.FinishedForever | src/layer_dhcp.cpp:181-278 | DONE and FAILED are final and silent |
| Dhcp.FinishesInFiveTimeouts | src/layer_dhcp.cpp:181-278 | once started, the client has finished after five timeouts' worth of transmit calls, whatever arrives; RFC 2131 section 4.4.1 |
| Dhcp.SilentFails | src/layer_dhcp.cpp:181-278 | a client whom nobody answers sends exactly four DISCOVERs, at once and after each of three timeouts, and has failed after the fourth |
| Dhcp.MessageFields | src/layer_dhcp.cpp:144-176 | what is read from a received message: kind and server from its first options 53 and 54, the address from its bytes 16 to 19 |
| Dhcp.OfferRequested | src/layer_dhcp.cpp:144-278 | an offer in time is requested in the next call, with the offered address and the server named |
| Dhcp.AckEnds | src/layer_dhcp.cpp:144-176 | an acknowledgement in time ends the exchange; every other message at every other time changes nothing |
| Dhcp.Exchange | src/layer_dhcp.cpp:144-278 | the exchange whole, with any delays below the timeout: two frames sent, done with the address offered |
| Udp.EchoCarries | src/layer_udp.cpp:159-198 | an echo frame is a datagram from the board's port 8080 to the sender's address and port, behind an accepted header, with the captured bytes; RFC 768 |
| Udp.HelloCarries | src/layer_udp.cpp:148-198 | the periodic frame is a datagram to its fixed destination with the text HELLO PERFXLAB, blanks included |
| Udp.PacedExactly | src/layer_udp.cpp:112-144 | after any number of calls: what is captured is always echoed to its sender, the periodic frame goes out if and only if its interval ends in a call that finds nothing captured, and the identification counts the intervals |
| Udp.UdpSender.Process | src/layer_udp.cpp:82-207 | registers, buffer, request and cache after one call: the pacing counter, the job chosen, the frame built |
| Udp.ArpLayer.Process | src/layer_arp.cpp:149-198 | the sender is learned; a question about the board is answered in the scratch region |
| Udp.AnswerReads | src/layer_arp.cpp:176-198 | the 28 bytes of an answer read back as operation 2 with the board as sender and the asker as target; RFC 826 |
| Udp.QuestionReads | src/layer_arp.cpp:130-147 | a question of the board reads back as operation 1 from the board about the address, with no target hardware address |
| TcpOptions.ParseFrame | src/layer_tcp.cpp:350-361 | the option loop terminates on any bytes and yields what the byte string says |
| TcpOptions.ParseEncoded | src/layer_tcp.cpp:346-361 | on any well-formed option list: the last MSS, 460 by default, and the last window scale, 0 if above 7; RFC 9293 section 3.2, RFC 7323 section 2 |
| TcpOptions.OurBlockParses | src/layer_tcp.cpp:113-117 | the parser recovers 460 and 7 from the block the stack writes itself |
| TcpFrame.SegmentReadsBack | src/layer_tcp.cpp:106-118 | every segment sent verifies under its pseudo-header and reads back as ports, numbers, length, flags, window, urgent pointer, options and payload it was built from; RFC 9293 section 3.1 |
| TcpFrame.SendReads | src/layer_tcp.cpp:186-220 | the requested bytes are a packet from the board to the peer, an accepted header with both addresses read back and then the segment, whatever the scratch array held, and no other word is written |
| TcpTable.FindSpec | src/layer_tcp.cpp:91-98 | the lookup gives the matching live slot, else a free one, else none |
| TcpTable.StepKeepsInv | src/layer_tcp.cpp:337-382 | every event moves each connection only FREE, SYN_RCVD, ESTABLISHED, LAST_ACK, FREE in that order, and keeps live peers distinct and Reno within bounds; RFC 9293 section 3.3.2 |
| TcpTable.OnAckSane | src/layer_tcp.cpp:123-151 | one acknowledgement of any number: threshold at least 2 MSS, window positive and bounded, at most two duplicates on count; RFC 5681 sections 3.1 and 3.2 |
| TcpTable.TableAndRenoSane | src/layer_tcp.cpp:123-151 | in every run: distinct peers, no window zero or above max(211601, largest threshold + 3 MSS), no wrap-around |
| TcpReno.NewAck | src/layer_tcp.cpp:134-150 | a new acknowledgement: one segment of window below the threshold and up to it, else the largest increment whose product with the window is at most a segment squared; the flight shrinks by what is acknowledged; RFC 5681 section 3.1 |
| TcpReno.SlowStart | src/layer_tcp.cpp:134-150 | n new acknowledgements below the threshold raise the window by n segments, up to the threshold |
| TcpReno.Duplicates | src/layer_tcp.cpp:123-133 | any number of duplicates in a row: from the third on the threshold is half the flight, at least two segments, and the window three segments more; RFC 5681 section 3.2 |
| TcpReno.StartsSmall | src/layer_tcp.cpp:342-368 | a connection starts with one segment of window, the peer's size if smaller, and the largest threshold |
| TcpReno.WindowScaled | src/layer_tcp.cpp:331-368 | the peer's window is the announced one times two to its scale; RFC 7323 section 2 |
| TcpLife.HandledIff | src/layer_tcp.cpp:331-345 | a segment is handled in a slot if and only if it is for the echo port and the slot is its sender's or, for a SYN without ACK of a sender without one, the first free |
| TcpLife.MovesExactly | src/layer_tcp.cpp:369-382 | every segment, exactly: FREE to SYN_RCVD on an opening SYN, SYN_RCVD to ESTABLISHED if and only if the ACK carries the next number, ESTABLISHED to LAST_ACK if and only if FIN, LAST_ACK to FREE if and only if ACK; no other connection changes; RFC 9293 section 3.10 |
| TcpLife.RepliesExactly | src/layer_tcp.cpp:369-382 | what is sent at once, exactly: a SYN-ACK that acknowledges the SYN's number plus one, or a FIN-ACK that acknowledges payload and FIN, to the sender |
| TcpLife.NumbersExactly | src/layer_tcp.cpp:369-382 | the numbers and the peer a handled segment leaves behind in every state |
| TcpLife.IdleExactly | src/layer_tcp.cpp:264-281 | an idle pass sends if and only if bytes are parked: a chunk from their head with ACK alone, and no other connection changes |
| TcpLife.LifeEnds | src/layer_tcp.cpp:331-382 | over any run of SYN, handshake, data, FIN and last acknowledgement, with idle passes and repeated segments in between, the slot is free at the end |
| TcpLife.NextIsServed | src/layer_tcp.cpp:331-382 | after any such life from power-up whoever opens next gets the slot and a SYN-ACK that acknowledges its number plus one |
| TcpEcho.StepConservesIff | src/layer_tcp.cpp:242-281 | an event conserves every connection's bytes if and only if it adds to a queue that is empty or its own |
| TcpEcho.EchoStream | src/layer_tcp.cpp:175-281 | over every such run and for every connection: parked plus accepted bytes are sent plus still parked bytes, in order |
| TcpEcho.SegmentsContiguous | src/layer_tcp.cpp:192-192 | while a connection stays established its segments have contiguous sequence numbers |
| TcpEcho.EchoRefinement | src/layer_tcp.cpp:372-379 | each segment carries the accepted bytes its sequence number says, and all of them together every accepted byte but those parked |
| TcpEcho.DrainsInChunks | src/layer_tcp.cpp:264-281 | the queue empties in ceil(length/536) idle passes with one segment each |
| TcpEcho.AckKeepsFlightIff | src/layer_tcp.cpp:123-143 | an acknowledgement keeps the flight size exact if and only if it acknowledges nothing unsent |
| TcpEcho.FlightConserved | src/layer_tcp.cpp:123-143 | with such peers that close only drained connections, flight size is next sequence number minus last acknowledgement in every run |
| TcpEcho.HandshakeBase | src/layer_tcp.cpp:343-371 | the handshake ends at the initial number plus one with nothing in flight |
| Tcp.SlotsShareIsn | src/layer_tcp.cpp:344-344 | the initial number is the same for all three slots |
| TcpEcho.FinAtEndIffDrained | src/layer_tcp.cpp:373-380 | the FIN closes the stream at its end if and only if nothing was parked before the call and the FIN segment brings no accepted payload |
| TcpFailures.ConnectionsMixed | src/layer_tcp.cpp:242-256 | a run from the empty table after which data of a second connection lands in the queue of the first |
| TcpFailures.ByteDropped | src/layer_tcp.cpp:251-255 | a run after which a byte is dropped and acknowledged |
| TcpFailures.FinAhead | src/layer_tcp.cpp:373-380 | a run after which a FIN takes the sequence number of a byte that stays parked |
| TcpLayer.TcpServer.FindSlot | src/layer_tcp.cpp:91-98 | the loop computes the specified lookup |
| TcpLayer.TcpServer.RenoOnAck | src/layer_tcp.cpp:123-151 | the connection after an acknowledgement, with 32-bit wrap-around |
| TcpLayer.TcpServer.Send | src/layer_tcp.cpp:175-221 | connection, buffer, request and cache after a segment is handed over |
| TcpLayer.TcpServer.Enqueue | src/layer_tcp.cpp:242-256 | the queue after parking a payload |
| TcpLayer.TcpServer.Maintenance | src/layer_tcp.cpp:264-281 | at most one chunk leaves the queue and is handed over |
| TcpLayer.TcpServer.RxProcess | src/layer_tcp.cpp:286-383 | the whole server after a received segment, byte parsing included |
| EchoIntegrity.MacTurn | src/udp_echo.cpp:121-121 | the byte the MAC writes leaves the front of what is owed, and a waiting frame keeps its place |
| EchoIntegrity.ClientTurn | src/udp_echo.cpp:189-193 | the DHCP client never builds under its own streaming frame: its timer cannot be further than the frame |
| EchoIntegrity.DispatchEffect | src/udp_echo.cpp:148-187 | what handling a frame does to the transmit side: nothing, a reply confined to one region, or a datagram captured in the UDP region |
| EchoIntegrity.StepOwes | src/udp_echo.cpp:119-211 | one gated call: what was owed and is newly asked for is what is written and still owed |
| EchoRuns.FramesOnLine | src/udp_echo.cpp:119-211 | over any gated run every request yields exactly one wire frame with the buffer as it stood when asked for; none lost, doubled, torn or reordered |
| EchoRuns.LineIsFrames | src/udp_echo.cpp:119-211 | from power-up the line is the frames asked for, up to what is still to be written |
| EchoRuns.CallPays | src/layer_mac.cpp:198-318 | the MAC never stalls: a busy call pays exactly one of the calls due |
| EchoRuns.LineCatchesUp | src/udp_echo.cpp:119-211 | when no more is asked for, everything owed is written within as many calls as are due and the MAC falls idle |
| EchoRuns.AnsweredIff | src/layer_tcp.cpp:369-382 | a segment is answered at once exactly when it opens a connection or ends an established one, so data and acknowledgements never disturb a frame |
| EchoRuns.DataRunIsGated | src/udp_echo.cpp:148-187 | runs that receive only data segments and pure acknowledgements of established connections meet the condition of the frame theorems |
| EchoRuns.SilentRun | src/udp_echo.cpp:120-137 | so do runs that receive nothing, from every state |
| EchoDisturb.WritesAre | src/udp_echo.cpp:148-187 | the buffer after a received frame is the old one with the words of the built reply, or of the captured payload, put in |
| EchoDisturb.CallKeepsIff | src/udp_echo.cpp:119-211 | one call, exactly: what is owed and newly asked for is what it writes and what the MAC will write if nothing more happens, if and only if a reply finds the register free and the words written agree with the buffer on every payload byte still to be sent, of the frame in flight and of the waiting one |
| EchoDisturb.GatedUndisturbed | src/udp_echo.cpp:119-211 | the gate of the run theorems lies inside that condition |
| EchoFailures.HelloTorn | src/udp_echo.cpp:166-182 | from power-up: a datagram for the echo port that completes while a HELLO frame is in flight, at most 50 bytes written, tears it unless its first byte is the H that was there |
| EchoFailures.ReplyLost | src/udp_echo.cpp:148-149 | from power-up: of two ARP questions about the board that complete within one HELLO frame the first answer never goes out |
| EchoTcp.SegmentIsAsked | src/udp_echo.cpp:208-211 | a segment handed over is exactly the frame asked for in that call: a packet from the board to the peer, sent to the MAC the cache answers for it or to all |
| EchoTcp.TableRun | src/udp_echo.cpp:157-158 | a run of the machine is a run of the connection table, and the segments of that run are those in the frames asked for |
| EchoTcp.EchoOnLine | src/udp_echo.cpp:119-211 | end to end: over every gated run whose queue is owned, the line is the frames asked for, and the segments in them carry the whole accepted stream of an established connection in order |
| EchoData.EchoFromFrames | src/udp_echo.cpp:119-211 | the same from the received bytes alone: one connection sends data, established ones acknowledge, all other frames ask for nothing |
| EchoLive.DebtFirst | src/udp_echo.cpp:119-211 | what is owed is written first and without a break, whatever is asked for meanwhile |
| EchoLive.QueueEmpties | src/udp_echo.cpp:189-211 | in silence, with HELLO frames at a pacing of at least 2, the echo queue is empty after a computable number of calls |
| EchoLive.EchoDelivered | src/udp_echo.cpp:119-211 | after the data comes silence: 14840 calls later every accepted byte is in a segment asked for, and 2120 calls later all these frames are on the wire |
| EchoWhole.RoundsAccepted | src/layer_tcp.cpp:242-256 | if at most 576 bytes of payload come between silences of 14840 calls, every byte received is accepted |
| EchoWhole.EverythingReturns | src/udp_echo.cpp:119-211 | then the segments asked for carry exactly the bytes received, in order, and are all on the wire at the end |
| TcpHandshake.Shaken | src/layer_tcp.cpp:331-371 | a SYN and the acknowledgement of the SYN-ACK, among idle passes and segments for other ports, leave slot 0 established at the initial number plus one with an empty queue |
| EchoStart.EchoFromPowerUp | src/udp_echo.cpp:49-211 | from power-up through such a handshake: everything received comes back in segments numbered from the initial number plus one |
| EchoReceive.FrameStaged | src/udp_echo.cpp:138-147 | the call that takes the last byte of a frame for the board finds its bytes staged |
| EchoReceive.PingOnLine | src/layer_icmp.cpp:47-182 | from the bytes of an echo request, arriving when the register is free and the scratch region idle, to its reply on the wire, whole, behind what was owed before; RFC 792 |
| EchoReceive.UdpOnLine | src/udp_echo.cpp:159-206 | from the bytes of a datagram for the echo port, arriving at an idle MAC, to its echo on the wire |
| EchoAnswers.ArpLearned | src/layer_arp.cpp:149-182 | from the bytes of any ARP frame: the next lookup of its sender finds its MAC, and a frame that is no question about the board does nothing else |
| EchoAnswers.QuestionAsked | src/layer_arp.cpp:149-198 | a question about the board that finds the register free asks for exactly one frame: the answer, to the asker's MAC, with the board as sender |
| EchoAnswers.AnswerOnLine | src/layer_arp.cpp:149-198 | from the bytes of a question to its answer on the wire, whole, behind what was owed before |
| EchoAnswers.QueryAsked | src/layer_igmp.cpp:42-145 | from the bytes of a group message: one about all groups or the board's asks for exactly one report of the querier's version, any other does nothing |
| EchoAnswers.ReportOnLine | src/layer_igmp.cpp:42-145 | from the bytes of such a query to the report on the wire, whole |
| EchoAnswers.AnsweredIffRequest | src/layer_icmp.cpp:47-78 | an ICMP message is answered if and only if its type is 8 and its code 0 |
| EchoAnswers.OthersIgnored | src/layer_icmp.cpp:47-78 | the bytes of any other ICMP message change nothing |
| EchoAnswers.ForeignIgnored | src/udp_echo.cpp:148-187 | other ethertypes, refused headers, unknown protocols and datagrams to other ports change nothing |
| EchoAnswers.SegmentReceived | src/layer_tcp.cpp:319-336 | from the bytes of a segment for the echo port to the fields the connection table works on; RFC 9293 section 3.1 |
| EchoAnswers.OptionsParsed | src/layer_tcp.cpp:346-361 | a well-formed option list that fills the header of a staged segment tells its last MSS and window scale |
| EchoAnswers.SegmentAnswered | src/layer_tcp.cpp:286-383 | from the bytes of a SYN or a FIN to the one frame asked for: packet, checksum, ports, numbers and flags of the reply |
| EchoAnswers.SegmentAnsweredOnLine | src/udp_echo.cpp:119-211 | the same on the wire, whole, once the calls due have been made |
| EchoOrder.BuildersOrdered | src/udp_echo.cpp:189-211 | who gets the MAC in a call, exactly: a reply, else the DHCP client even beside a frame in flight, else on an idle MAC the UDP sender, else a chunk of the echo queue |
| EchoOrder.StartedExactly | src/udp_echo.cpp:112-116 | over any gated run from power-up the DHCP client is started in call 100000001 and not before |
| EchoBoard.Board.constructor | src/udp_echo.cpp:49-80 | the parts in their reset states make up the power-up state |
| EchoBoard.Board.Call | src/udp_echo.cpp:29-211 | one call computes the step function the runs are about, byte written included |
| Uart.UartConsole.Cycle | uart_hls/src/uart_console.cpp:60-253 | one clock cycle: all registers and the three output pins |
| UartRx.FrameReceived | uart_hls/src/uart_console.cpp:84-109 | a frame whose samples fall in their cells and that ends after the receiver is armed again is received as its byte |
| UartRx.StreamReceived | uart_hls/src/uart_console.cpp:84-109 | any stream of such frames with any pauses is received byte for byte |
| UartRx.ReceivesIff | uart_hls/src/uart_console.cpp:84-109 | exactly the bit periods from 4948 to 5533 cycles are received back to back for all byte strings |
| UartTx.BlockShape | uart_hls/src/uart_console.cpp:212-250 | every byte drives start, eight data bits and stop for full 5208-cycle cells, in 52081 cycles, whatever is offered meanwhile |
| UartTx.Loopback | uart_hls/src/uart_console.cpp:212-250 | a receiver on the line completes exactly the bytes taken, in order |
| UartCommands.OutputReceived | uart_hls/src/uart_console.cpp:212-250 | a receiver on the console's line gets exactly the bytes taken, echoes and answers; the echoes are the completed bytes that found the transmitter idle, and the answers followed by what is queued are the responses loaded, whole and in order |
| UartCommands.ResponsesWhole | uart_hls/src/uart_console.cpp:111-181 | the same from every state: response bytes taken and queued are the responses loaded, line ends arriving meanwhile included |
| UartCommands.EchoedIff | uart_hls/src/uart_console.cpp:103-107 | a completed byte is echoed exactly when the transmitter is idle, in the same cycle and before any response |
| UartCommands.AnsweredIff | uart_hls/src/uart_console.cpp:212-250 | a queued response byte leaves in a cycle if and only if the transmitter is idle and no byte completes |
| UartCommands.RecognizesIff | uart_hls/src/uart_console.cpp:183-201 | the matcher is in a command's state exactly when the line ends in the command and what precedes it left the matcher at rest |
| UartDialogue.Drains | uart_hls/src/uart_console.cpp:212-250 | in quiet the queue leaves whole and in order and is empty after one block per byte |
| UartDialogue.EchoedStream | uart_hls/src/uart_console.cpp:84-109 | of text typed without pauses every byte is echoed from 5209 cycles a bit on, and below that exactly every second one |
| UartDialogue.TypedLine | uart_hls/src/uart_console.cpp:84-250 | any text typed at any accepted rate and closed by CR or LF is received whole; after 25 quiet blocks a receiver on the line has got its echoes and then exactly its answer, and nothing is queued |
| UartDialogue.AnswerStarves | uart_hls/src/uart_console.cpp:212-250 | against bytes that complete whenever the transmitter falls idle a loaded answer never starts, however many come |

## Left out

- Retransmission: the timer scan of `tcp_rx_process` (`src/layer_tcp.cpp:292-318`) is not reached from `udp_echo`, so
  nothing is ever due for it; its fields, `tcp_update_rto` and the retransmission branch of `tcp_maintenance` are not modelled.
- Statistics, LEDs, `arp_dump`, `src/layer_uart.cpp`: counters, text and code `udp_echo` does not include.
- Reset of the whole machine in mid-run: `EchoBoard` runs with reset released; parser, printer and console have their reset branches.
- MacFrames.FrameDelivered: the frame FIFO of the source has 512 places; a frame of 513 to 1023 words, longer than Ethernet
  allows, would block there and is delivered here.
- Malformed lengths: TCP segments to the echo port whose header claims more than the datagram or that carry more than 576
  bytes, echo requests longer than 256 bytes or with an IP length below 20, and UDP lengths outside 8 to 1004 make the source
  read or write outside its arrays; they are preconditions.
- Dhcp.DhcpClient.Rx: a message type option longer than one byte overruns its variable in the source; the model reads its
  first byte.
- TcpLayer.TcpServer.Send: the bytes of the segment array beyond the segment are whatever the stack held; they are a ghost
  result here and an input of the machine's step.
- MacFrames.RoundTrip: payloads above 4088 bytes are excluded, because the word counter has 10 bits.
- MacForeign.LineReported: lines that spell a payload above 4092 bytes are excluded for the same reason.
- EchoTcp.EchoOnLine: speaks of a connection while it stays established; the handshake before it is in
  `EchoStart.EchoFromPowerUp`, the FIN after it in `TcpEcho.FinAtEndIffDrained`.
- EchoRuns.FramesOnLine: the gate goes by regions and also shuts out echo requests with an IP length above 256 that complete
  while the MAC works; the exact condition of `EchoDisturb.CallKeepsIff` is stated for one call.
- The pacing interval of the HELLO frames is a parameter, because the source has two values for it.
- The wrapper's own receive FIFO, RGMII, clocking, Verilog and scripts are not part of this model.
