# Verification of the modemstuff packet chain

A Dafny model of modemstuff (an AX.25 packet modem with a KISS TNC and a network sound card) and proofs about
it.  `dafny verify dfyconfig.toml` checks everything; on a slow machine it takes `--verification-time-limit 0`.

The C structures that are updated in place are classes with the same fields, and their functions are methods with
the same branches and loops.  Each method is proved against a plain function of the old state; what the code
promises is then proved about those functions.

| file | subject |
|---|---|
| `Bits.dfy` | bytes and bits, and the groupings between them |
| `Crc.dfy` | the frame check sequence: table, shift register, residue, what it detects |
| `Ax25Call.dfy`, `Ax25Packet.dfy`, `PacketStruct.dfy`, `Tnc2.dfy` | callsigns and packets: packed, unpacked, printed, parsed |
| `Hdlc.dfy` | flags and bit stuffing on bit strings |
| `Framer.dfy`, `Deframer.dfy`, `DeframerStruct.dfy` | the sender's bit buffer and the receiver's bit-at-a-time machine |
| `LineCode.dfy`, `BitDetector.dfy` | NRZI and clock recovery |
| `Link.dfy`, `Threshold.dfy` | one transmission, from any receiver state, and how many samples per bit it takes |
| `AllOnes.dfy`, `Idle.dfy`, `Session.dfy` | idle line, and any number of transmissions with it between them |
| `Channel.dfy`, `Tnc.dfy` | the whole chain, from the modulator's packets to the demodulator's |
| `Kiss.dfy`, `KissPackets.dfy` | the KISS codec, and packets over it |
| `LinkedBuffer.dfy`, `NetAudio.dfy` | the byte FIFO, and the two threads that share it |
| `Goertzel.dfy`, `Window.dfy` | the tone detector and the sliding window |

## Main results

* **The link.**  Any list of packets, each sent with its own framer and line encoder, heard in either polarity and
  after any time of idle line at either level, is delivered by one receiver exactly once, in order and with nothing at
  the seams, from 15 samples per bit on, if and only if each packet takes at most 255 bytes (`Channel.EndToEnd`, for
  frames that fit into the framer's memory and find it clean, which is exactly what it takes for the line to carry
  them, `Channel.LineIffClean`).  With longer packets among them every short one still arrives in its turn, and a long
  one costs at most one packet that is not it (`Session.EveryTurnDelivered`).  After any noise whatever, a receiver in
  any state delivers the next packet, with at most one left-over (`Session.AfterNoise`, `Link.Transmission`).  With 3
  to 14 samples per bit a fresh receiver delivers nothing of one transmission, in either polarity
  (`Threshold.NothingBelow`), so 15 is exact.
* **Idle line** is collected like data, 1s in bytes around the buffer, and handed to the check by the next flag.
  Nothing comes of it: the register of the FCS, fed with up to 255 bytes of 1s, is never near the complement of the
  last two bytes (`AllOnes.NotAccepted`, `Idle.IdleLineReports`).
* **The deframer** refines a batch description on every bit stream (`Deframer.RunDescribes`, `Deframer.RunDescribed`,
  `Deframer.ReportDescribed`), and one flag resets it from any state (`Deframer.FlagResets`).  Whatever it reports, from
  any state and by any bits, is a well-formed packet of at most 255 bytes (`Deframer.ReportsFit`), fits into the buffer
  of the callback that encodes it, and reaches the clients unchanged (`KissPackets.ReportsFitCallback`,
  `KissPackets.ReportsReachClients`).
* **The FCS.**  The table is eight shifts of its index; the code is the bit-serial register of polynomial 0x8408; the
  receiver's comparison is the residue test of RFC 1662, Appendix C; every burst of up to 16 line bits is detected.
* **Clock recovery** returns a closed-form number of bits on each run, and the right number exactly within the
  capacity (`BitDetector.BitsOnLevel`, `BitDetector.ExactIffWithinCapacity`).
* **What is on the wire** is stated in numbers, apart from the functions that compute it: address bytes and packet
  layout (`Ax25Call.PackedCallBytes`, `Ax25Packet.PackedAddress`, `Ax25Packet.EndMark`, `Ax25Packet.PackedFields`),
  what any bytes unpack to (`Ax25Packet.UnpackedFields`), the printed line (`Tnc2.LineText`), and the escape rule of
  KISS on both sides, for malformed frames too (`Kiss.EscapeRule`, `Kiss.FrameMeans`).
* **KISS** gives back exactly the messages of an explicit class, in any list, and one of them synchronises a decoder
  in any state (`Kiss.ExactlyGood`, `Kiss.StreamDecoded`, `Kiss.Resynchronised`).
* **The FIFO** in linked nodes refines a byte string.  The lock protocol of its two threads, with recv, the callbacks
  and the audio callback as steps of their own, keeps bursts whole and loses nothing in every interleaving; the
  threads get stuck without the network exactly when the server waits in recv with the mutex held
  (`NetAudio.StuckIffRecvWithMutex`).
* **Goertzel's recurrence** is the squared magnitude of a DFT bin, with its bounds; **the window** is always the last
  values pushed, at an amortised cost.

## Where the code falls short of what its callers may expect

Each with the exact condition and a failing input.

* A packet that takes more than 255 bytes can be packed and sent (up to 329 bytes) but is never delivered: the
  receiver's buffer starts over at 255 (src/hamstuff/ax25_deframer.c:75).  Condition: `Threshold.ArrivesIff`,
  `Channel.EndToEnd`; input: `Link.LongestPacketLost`.
* The framer ORs its bits into memory that nobody clears (src/hamstuff/ax25_framer.c:8 and 27-35).  What is read back
  is what was meant exactly when it fits and the old memory has no 1 where a 0 is meant.  Condition:
  `Framer.ReadBackIffClean`, `Channel.LineIffClean`; input: `Channel.StrayBitSpoilsLine`.
* The audio server keeps its mutex locked while recv blocks, when a chunk has filled its buffer
  (src/netstuff/netserver.c:278-305): a client that sends exactly 1024 bytes and pauses stops the audio callback.
  Condition: `NetAudio.FullChunkKeepsMutex`, `NetAudio.RecvWithMutexIff`, `NetAudio.StuckIffRecvWithMutex`; input:
  `NetAudio.FullChunkStopsAudio`.
* When the FIFO of the audio server runs empty in the middle of a frame, the bytes of that frame are taken out and
  overwritten with silence (apps/netaud/netaud.c:164-169).  Condition: `NetAudio.LostIff`; input:
  `NetAudio.FifthByteLost`.
* The KISS command byte is not escaped (src/hamstuff/kiss.c:120), and 0xFF stands for RETURN whatever was meant.
  Condition: `Kiss.ExactlyGood`; input: `Kiss.PortTwelve`, a data frame of port 12.
* A repeated call without SSID and with fewer than six letters is printed as `BASE*` and parsed as a base that ends in
  a star (src/hamstuff/ax25_call.c:91-96 and 107-113).  Condition: `Ax25Call.ParsePrintCall`; input:
  `Ax25Call.MarkBecomesLetter`.

## Model

| member | source | states |
|---|---|---|
| Crc.TableIsEightShifts | src/hamstuff/ax25_crc.c:4-36 | each of the 256 entries is eight shifts of its index through the register of polynomial 0x8408 |
| Crc.UpdateIsBitSerial | src/hamstuff/ax25_crc.c:43-46 | one table look-up is the shift register fed with the eight bits of the byte in line order |
| Crc.RunIsBitSerial | src/hamstuff/ax25_crc.c:38-51 | the same over every byte string, from every register value |
| Crc.FcsIsBitSerial | src/hamstuff/ax25_crc.c:38-51 | the check sequence is the complement of the shift register, run from 0xffff over all bits in line order |
| Crc.AcceptedIffResidue | src/hamstuff/ax25_deframer.c:28-36 | recomputing and comparing accepts a frame if and only if the register, run over all of it from 0xffff, ends at 0xf0b8 |
| Crc.BurstDetected | src/hamstuff/ax25_deframer.c:29-36 | a frame that differs from an accepted one only within 16 consecutive line bits is rejected, whatever its length |
| Crc.AdjacentBytesDetected | src/hamstuff/ax25_packet.c:40-46 | a frame that differs from an accepted one in one byte or two neighbouring bytes, FCS included, is rejected |
| Ax25Call.UnpackPackCall | src/hamstuff/ax25_call.c:10-57 | unpacking a packed call gives the call and its end mark back, for every well-formed call |
| Ax25Call.PackedCallBytes | src/hamstuff/ax25_call.c:10-34 | as numbers: twice each character, 0x40 up to six, then 96 + 128 * repeated + 2 * SSID + end mark |
| Ax25Call.UnpackedCallFields | src/hamstuff/ax25_call.c:36-57 | as numbers, for any seven bytes: half of each of six bytes up to the first space or NUL, and SSID, repeated and end mark from the seventh |
| Ax25Call.PrintedCall | src/hamstuff/ax25_call.c:59-101 | the text in characters: base, then 0x2d and the SSID in decimal unless it is 0, then 0x2a if repeated |
| Ax25Call.ParsedCall | src/hamstuff/ax25_call.c:103-132 | what any text says: the base ends at a dash, after six characters or with the text; at most two digits after a dash are the SSID; a star right behind is the mark |
| Ax25Call.ParsePrintCall | src/hamstuff/ax25_call.c:59-132 | parsing a printed call gives it back if and only if its base has no dash, its SSID has at most two digits, its mark is 0 or 1, and it is not repeated, without SSID and shorter than six |
| Ax25Call.MarkBecomesLetter | src/hamstuff/ax25_call.c:91-96 | a repeated call of two letters without SSID is parsed as a call of three |
| Ax25Call.UnpackedCallWellFormed | src/hamstuff/ax25_call.c:36-57 | whatever seven bytes are unpacked, the call is well-formed |
| Ax25Call.CallStruct.constructor | src/hamstuff/ax25_call.c:3-8 | the structure starts as the empty call |
| Ax25Call.CallStruct.Pack | src/hamstuff/ax25_call.c:10-34 | the seven bytes written are the packed call; nothing else in the output changes |
| Ax25Call.CallStruct.Unpack | src/hamstuff/ax25_call.c:36-57 | the structure becomes the call in the seven bytes; the result is the end mark |
| Ax25Call.CallStruct.ToStr | src/hamstuff/ax25_call.c:59-101 | the text written is the printed call; the result is its length |
| Ax25Call.CallStruct.FromStr | src/hamstuff/ax25_call.c:103-132 | the structure becomes what the text says |
| Ax25Packet.UnpackPack | src/hamstuff/ax25_packet.c:14-86 | unpacking a packed packet gives it back for every well-formed packet, whatever follows it in the buffer, and its check sequence is accepted |
| Ax25Packet.PackedAddress | src/hamstuff/ax25_packet.c:20-30 | destination, source and repeaters stand in this order in seven bytes each, and only the last is packed with the end mark |
| Ax25Packet.EndMark | src/hamstuff/ax25_packet.c:20-30 | in the address field of a packed packet bit 0 is set in byte 7(repeaters + 2) - 1 and in no other |
| Ax25Packet.PackedFields | src/hamstuff/ax25_packet.c:32-46 | control, protocol and information follow the addresses, then the check sequence of everything before it, low byte first |
| Ax25Packet.UnpackedCount | src/hamstuff/ax25_packet.c:61-75 | repeaters are read up to the first end mark from the source on, and at most eight, for any bytes |
| Ax25Packet.UnpackedFields | src/hamstuff/ax25_packet.c:57-85 | which bytes each part of an unpacked packet comes from, for any bytes and length; the information stops two bytes before the end and after 255 at the latest |
| Ax25Packet.UnpackedWellFormed | src/hamstuff/ax25_packet.c:51-86 | whatever bytes are unpacked, the packet is well-formed |
| PacketStruct.PacketStruct.Pack | src/hamstuff/ax25_packet.c:14-49 | the bytes written are the packed packet; the structure keeps its value |
| PacketStruct.AppendFcs | src/hamstuff/ax25_packet.c:40-46 | the two check bytes of everything before them follow, low byte first |
| PacketStruct.PacketStruct.Unpack | src/hamstuff/ax25_packet.c:51-86 | the structure becomes the packet in the bytes, for every input, also without an end mark |
| PacketStruct.PacketStruct.PackTnc2 | src/hamstuff/ax25_packet.c:88-120 | the text written is the packet's monitor line and its NUL |
| Tnc2.HeaderInjective | src/hamstuff/ax25_packet.c:100-108 | destination and repeaters are determined by their part of the monitor line |
| Tnc2.LineDetermines | src/hamstuff/ax25_packet.c:88-120 | two packets have the same line if and only if source, destination, repeaters and information agree, when bases have no separators in them |
| Tnc2.LineText | src/hamstuff/ax25_packet.c:94-115 | the line in characters: source, 0x3e, destination, repeaters, 0x3a, information |
| Tnc2.PathText | src/hamstuff/ax25_packet.c:103-108 | each repeater is printed behind a 0x2c, in order |
| Hdlc.DestuffStuff | src/hamstuff/ax25_framer.c:58-78 | the receiver's destuffing gives back exactly the stuffed bits |
| Hdlc.StepDestuff | src/hamstuff/ax25_deframer.c:54-69 | a 0 after five 1s or more is dropped, counted modulo 256; every other bit is kept |
| Hdlc.StuffQuiet | src/hamstuff/ax25_framer.c:58-78 | no flag is ever seen within a stuffed body |
| Hdlc.FlagSeen | src/hamstuff/ax25_deframer.c:20-23 | the eight-bit window shows a flag if and only if a 0 follows exactly six 1s |
| Hdlc.FrameLength | src/hamstuff/ax25_framer.c:47-86 | a frame has 8(head + tail + n) bits and the stuffed ones, of which there are at most 8n/5 |
| Framer.ReadBackIffClean | src/hamstuff/ax25_framer.c:3-17 | what is read back is all that was inserted if and only if it fits and the memory had no 1 where a 0 is meant |
| Framer.ReadBack | src/hamstuff/ax25_framer.c:3-17 | the first 8192 bits inserted are read back, each OR-ed with what the memory held |
| Framer.FramerStruct.constructor | src/hamstuff/ax25_framer.c:27-35 | counters start at 0 and flags at 4 and 2; the memory keeps its contents |
| Framer.FramerStruct.InsertBit | src/hamstuff/ax25_framer.c:3-17 | the bit is OR-ed in at the next of 8192 positions; a full buffer stays as it is |
| Framer.FramerStruct.InsertByte | src/hamstuff/ax25_framer.c:19-25 | the eight bits of the byte follow, least significant first |
| Framer.FramerStruct.InsertBody | src/hamstuff/ax25_framer.c:58-78 | the stuffed bits of the whole body follow |
| Framer.FramerStruct.Process | src/hamstuff/ax25_framer.c:37-86 | the memory is the old memory with flags, stuffed packet and flags OR-ed in as far as they fit, and the packet is unchanged |
| Framer.FramerStruct.NextBit | src/hamstuff/ax25_framer.c:88-100 | the stored bits come out in order, then nothing |
| Deframer.RunDescribes | src/hamstuff/ax25_deframer.c:14-87 | after every bit stream window, count of 1s, bits and bytes are those of the destuffed bits since the last flag, for every unset count of 1s |
| Deframer.RunDescribed | src/hamstuff/ax25_deframer.c:71-82 | of n bytes since the last flag the buffer has the latest (n - 1) % 255 + 1, at its beginning |
| Deframer.CandidateDescribed | src/hamstuff/ax25_deframer.c:22-26 | a buffer goes to the check if and only if a flag ends and it has at least 18 bytes |
| Deframer.ReportDescribed | src/hamstuff/ax25_deframer.c:22-42 | a packet is reported if and only if such a buffer has a right check sequence, and it is what the buffer unpacks to |
| Deframer.FlagResets | src/hamstuff/ax25_deframer.c:19-49 | the eight bits of one flag lead from every state to the reset state |
| Deframer.Frame | src/hamstuff/ax25_deframer.c:52-83 | from the reset state a stuffed body and seven bits of a flag report nothing and leave exactly the body in the buffer, with the flag about to end |
| Deframer.FewBits | src/hamstuff/ax25_deframer.c:25-50 | up to 18 bits complete at most one packet, and none if nothing was collected |
| Deframer.ReportsFit | src/hamstuff/ax25_deframer.c:75-80 | whatever a stream makes any state report is well-formed and takes at most 255 packed bytes |
| DeframerStruct.DeframerStruct.constructor | src/hamstuff/ax25_deframer.c:6-12 | everything is cleared but the count of 1s and the buffer |
| DeframerStruct.DeframerStruct.Process | src/hamstuff/ax25_deframer.c:14-87 | one call is one step of the machine, and its packet and result are the machine's report |
| DeframerStruct.DeframerStruct.FcsMatches | src/hamstuff/ax25_deframer.c:28-36 | the loop over the buffer decides whether the frame is accepted |
| LineCode.NrziEncoder.Encode | src/modemstuff/linecode.c:26-30 | a 0 changes the level, a 1 keeps it |
| LineCode.NrziDecoder.Decode | src/modemstuff/linecode.c:8-19 | a bit is 1 if the level stayed; no bit passes through |
| LineCode.DecodeEncoded | src/modemstuff/linecode.c:8-30 | decoding inverts encoding in either polarity, but for the first bit |
| BitDetector.BitDetector.Process | src/modemstuff/bitdet.c:10-34 | one sample is one step of the counter machine |
| BitDetector.BitsOnLevel | src/modemstuff/bitdet.c:19-33 | L samples from a change on give (L + P - 1 - P/2) / (P + 1) bits, all of that level |
| BitDetector.ExactIffWithinCapacity | src/modemstuff/bitdet.c:19-33 | k bits of P samples come out as k bits if and only if k is at most (P+1)/2 - 1 |
| BitDetector.LineComesThrough | src/modemstuff/bitdet.c:10-34 | a line whose runs are within the capacity comes out bit for bit |
| BitDetector.SevenBitsFromAnyWait | src/modemstuff/bitdet.c:10-34 | of seven bits at the level the detector is already at, at most one is lost, whatever it waits for |
| BitDetector.WaitStaysWithin | src/modemstuff/bitdet.c:10-34 | the counter stays between 0 and the period over every run |
| Link.ReceiveKeepsValid | apps/ax25tnc/demodulator.c:27-35 | every state a receiver can reach is one of those that the theorems quantify over |
| Link.OnceAtClosingFlag | src/hamstuff/ax25_deframer.c:23-50 | a fresh receiver, in either polarity, delivers one packet exactly at the last bit of the first tail flag, and nothing before or after |
| Link.Transmission | apps/ax25tnc/demodulator.c:27-35 | a receiver in any state delivers the packet last and once, after at most one packet collected before |
| Link.LongestPacketLost | src/hamstuff/ax25_deframer.c:75-80 | a packet of 329 bytes is delivered by no receiver, whatever it hears |
| Threshold.NothingBelow | src/modemstuff/bitdet.c:19-33 | with 3 to 14 samples per bit a fresh receiver delivers nothing of a transmission, in either polarity |
| Threshold.ArrivesIff | src/modemstuff/bitdet.c:3-33 | one packet to a fresh receiver is delivered if and only if there are 15 samples per bit and it takes at most 255 bytes |
| AllOnes.FeedNotSparse | src/hamstuff/ax25_crc.c:43-46 | after 3 to 255 bytes of 1s, or 1s but for the first bit, the register is not the complement of two bytes of 1s with up to two neighbouring 0s |
| AllOnes.NotAccepted | src/hamstuff/ax25_deframer.c:28-36 | no frame of such bytes is accepted |
| Idle.IdleLineReports | src/hamstuff/ax25_deframer.c:19-83 | from a cleared receiver an idle line of any length and the next flag report nothing and reset it |
| Idle.IdleAlone | src/hamstuff/ax25_deframer.c:52-83 | an idle line without a flag reports nothing |
| Session.TurnDelivered | apps/ax25tnc/demodulator.c:27-35 | after any idle time a transmission delivers its packet and nothing else, or if it is too long at most one packet, and not it |
| Session.EveryTurnDelivered | apps/ax25tnc/demodulator.c:27-35 | the same for each of any number of transmissions, in turn |
| Session.AllDeliveredIffShort | src/hamstuff/ax25_deframer.c:75-80 | one receiver delivers exactly the packets sent, in order, if and only if each takes at most 255 bytes |
| Session.AfterNoise | apps/ax25tnc/demodulator.c:27-35 | after any noise, to a receiver in any state, the packet is delivered last and once, with at most one more than the noise brings |
| LineCode.EncodedInjective | src/modemstuff/linecode.c:26-30 | different bits never give the same line |
| Channel.LineIffClean | apps/ax25tnc/modulator.c:41-52 | the line is the code of the whole frame if and only if it fits into 8192 bits and the framer's memory has no 1 where it has a 0 |
| Channel.StrayBitSpoilsLine | src/hamstuff/ax25_framer.c:3-17 | one stray 1 at the start of the memory changes the line of every frame |
| Channel.EndToEnd | apps/ax25tnc/modulator.c:41-57 | what is modulated any number of times, with the line idle between, is what is demodulated, the same packets in the same order, if and only if each takes at most 255 bytes |
| Tnc.Modulator.constructor | apps/ax25tnc/modulator.c:14-21 | a modulator starts with a delay of 320 ms and a tail of 80 ms |
| Tnc.FlagCount | apps/ax25tnc/modulator.c:42-43 | the largest number of flags that take no longer than the given time, but at least so many |
| Tnc.Modulator.Process | apps/ax25tnc/modulator.c:27-58 | the line levels sent are the code, over the framer's old memory, of flags, stuffed packet and flags; the numbers of flags are fixed by delay, tail and baud rate with at least four and two; the packet is unchanged |
| Tnc.Drain | apps/ax25tnc/modulator.c:45-57 | every stored bit goes through the line encoder once, in order |
| Tnc.Demodulator.constructor | apps/ax25tnc/demodulator.c:3-13 | all stages start fresh |
| Tnc.Demodulator.Sample | apps/ax25tnc/demodulator.c:29-34 | one sample goes through the three stages as through the receiver model |
| Tnc.Demodulator.Process | apps/ax25tnc/demodulator.c:20-36 | the callback gets exactly the deliveries of the receiver model, in order |
| Kiss.EncodeMessage | src/hamstuff/kiss.c:111-144 | the bytes written are the encoded message, and the rest of the buffer is unchanged |
| Kiss.Decoder.constructor | src/hamstuff/kiss.c:12-17 | the decoder starts in the undefined state |
| Kiss.Decoder.Process | src/hamstuff/kiss.c:19-82 | one byte is one step of the three-state machine, with its message if one ends and there is a callback |
| Kiss.Decoder.ProcessFrame | src/hamstuff/kiss.c:84-109 | the message is what the buffer says, 0xFF being RETURN |
| Kiss.Decoder.ProcessAll | apps/ax25tnc/ax25tnc.c:163-170 | a chunk of bytes hands out what its bytes hand out, in order |
| Kiss.EscapeRule | src/hamstuff/kiss.c:122-139 | 0xC0 is written as 0xDB 0xDC, 0xDB as 0xDB 0xDD, every other byte as itself |
| Kiss.EncodedBytes | src/hamstuff/kiss.c:116-142 | a message is 0xC0, 16 * port + command, the escaped data and 0xC0 |
| Kiss.FrameMeans | src/hamstuff/kiss.c:19-109 | what the decoder makes of every frame on the link, well-formed or not: 0xDB 0xDC is 0xC0, 0xDB 0xDD is 0xDB, 0xDB and any other byte is nothing; one message with the port and command in the first byte if there is room in 512 bytes, else none |
| Kiss.Tokens | src/hamstuff/kiss.c:31-81 | any bytes without 0xC0 are such a frame, up to an escape at the end |
| Kiss.ExactlyGood | src/hamstuff/kiss.c:84-144 | an encoded message comes out as it went in if and only if it is the RETURN of port 0 without data, or port and command are at most 15 and not (12, 0), (13, 11) or (15, 15), with at most 511 bytes |
| Kiss.PortTwelve | src/hamstuff/kiss.c:120 | a data frame of port 12 comes out as another message |
| Kiss.StreamDecoded | src/hamstuff/kiss.c:19-144 | decoding the encodings of any list of such messages gives exactly that list |
| Kiss.Resynchronised | src/hamstuff/kiss.c:19-82 | from any decoder state, after one such message, of which it hands out at most two, all later ones come out exactly |
| KissPackets.PacketsOverKiss | apps/ax25tnc/ax25tnc.c:129-133 | packets put into data frames, encoded, decoded and unpacked are the same packets, for every list |
| KissPackets.DataFrameLength | src/hamstuff/kiss.c:111-144 | a data frame has at most 3 + 2n - (repeaters + 2) bytes: the SSIDs are never escaped |
| KissPackets.ReportsFitCallback | apps/ax25tnc/ax25tnc.c:117-133 | whatever is demodulated, its data frame has at most 511 bytes, so the callback's 512 are enough |
| KissPackets.EncodePacket | apps/ax25tnc/ax25tnc.c:129-133 | the callback's buffer starts with the data frame of the packet |
| KissPackets.ReportsReachClients | apps/ax25tnc/ax25tnc.c:117-142 | whatever is demodulated, the clients get data frames with exactly these packets, in order |
| KissPackets.FromModulatorToClient | apps/ax25tnc/ax25tnc.c:117-142 | a client gets exactly the packets modulated at the other station, in order |
| LinkedBuffer.FirstInFirstOut | src/datastuff/linkedbuffer.c:39-168 | over any run of pushes and pops, what was popped and what is left are what was pushed, in order |
| LinkedBuffer.Buffer.Init | src/datastuff/linkedbuffer.c:7-23 | a single empty node |
| LinkedBuffer.Buffer.Size | src/datastuff/linkedbuffer.c:25-37 | the sum over the nodes is the number of bytes held |
| LinkedBuffer.Buffer.Push | src/datastuff/linkedbuffer.c:39-100 | the contents grow by the data at the end, over as many nodes as needed |
| LinkedBuffer.Buffer.Pop | src/datastuff/linkedbuffer.c:102-168 | the first min(size, contents) bytes are handed out and removed, and nothing else of the output changes |
| LinkedBuffer.Buffer.NodesBound | src/datastuff/linkedbuffer.c:68-99 | the node count is the length of the list, at least contents/1024 and at most 2 + contents/1024 |
| LinkedBuffer.Buffer.RunAll | src/datastuff/linkedbuffer.c:39-168 | the same for any run on the nodes: what comes out and what is left are what was there and what went in |
| NetAudio.ReadBurst | src/netstuff/netserver.c:273-309 | the callbacks are none for an empty burst, else start, every chunk read, end; the burst ends with the first short or failed read, and if there is none yet the loop waits with the bracket open |
| NetAudio.MutexDiscipline | apps/netaud/netaud.c:162-187 | in every reachable state a thread about to lock the mutex does not hold it, and one about to push, pop or unlock does |
| NetAudio.CallsBracketed | src/netstuff/netserver.c:291-309 | in every reachable state the callbacks made are start, one chunk or more, end, again and again, with the last bracket open while the server holds the mutex |
| NetAudio.PopSeesWholeBursts | apps/netaud/netaud.c:163-165 | whenever the audio thread holds the mutex, popped bytes and contents are exactly the bursts that have ended |
| NetAudio.NothingLost | apps/netaud/netaud.c:174-187 | in every reachable state, popped bytes, contents and the chunk in hand are all bytes received, in order |
| NetAudio.FullChunkKeepsMutex | src/netstuff/netserver.c:297-305 | after pushing a chunk the server goes back to recv with the mutex held if and only if the chunk has 1024 bytes |
| NetAudio.RecvWithMutexIff | src/netstuff/netserver.c:275-305 | in recv it holds the mutex if and only if it has pushed a chunk since the burst began, which then has 1024 bytes |
| NetAudio.StuckIffRecvWithMutex | src/netstuff/netserver.c:275-305 | in every reachable state no step is possible without the network if and only if the server is in recv with the mutex held |
| NetAudio.FullChunkStopsAudio | apps/netaud/netaud.c:163-165 | one chunk of 1024 bytes and a pause lead to such a state, in which the audio callback cannot lock |
| NetAudio.StreamCallback | apps/netaud/netaud.c:162-171 | min(4 * frames, contents) bytes leave the FIFO, the whole frames among them are played, the rest of the output is silence, and what is lost is the difference |
| NetAudio.LostIff | apps/netaud/netaud.c:164-169 | bytes are lost if and only if the FIFO runs empty in the middle of a frame, and then fewer than four |
| NetAudio.FifthByteLost | apps/netaud/netaud.c:164-169 | of five bytes and two frames asked for, the fifth byte is lost |
| Goertzel.ResonatorIsBin | src/modemstuff/goertzel.c:24-33 | the recurrence's result is the squared magnitude of the rotated sum and of the DFT bin |
| Goertzel.RotatedBound | src/modemstuff/goertzel.c:12-36 | the squared magnitude is at most N times the energy |
| Goertzel.FilterWindowed | src/modemstuff/goertzel.c:14-22 | the loop with a window is the recurrence on the sequence of the products |
| Goertzel.FilterPlain | src/modemstuff/goertzel.c:23-31 | the loop without one is the recurrence on the samples |
| Goertzel.Process | src/modemstuff/goertzel.c:3-36 | the power is the squared magnitude of the bin of the samples, or of their products with the window, over 2N, between 0 and half the energy |
| Window.Window.constructor | src/modemstuff/window.c:7-25 | head is 0, tail is the size, and the window between them is zeros |
| Window.Window.Push | src/modemstuff/window.c:27-38 | the window is the last values of zeros and everything pushed |
| Window.Window.Position | src/modemstuff/window.c:27-38 | head is the number of pushes modulo size(oversizing - 1) + 2, tail is head + size, at most one value is copied for each oversizing - 1 pushes, and once there are enough the window is the last values pushed |

## Left out

- FSK generator and detector, DDS, AGC, filters (src/modemstuff/fsk.c, dds.c, butterworth.c): single-precision
  trigonometry; replaced by an ideal channel with the same whole number of samples for each bit and the right signs,
  or all wrong ones.  A symbol that is not a number is not modelled.
- BitDetector.BitDetector.constructor: the period is given as a whole number; its computation from two floats is not
  modelled.
- Tnc.Modulator.Process: delay times baud rate is computed in real numbers; the samples made of each level are not
  modelled.
- Tnc.Demodulator.Process: starts from the soft symbols, and so do Tnc.Demodulator.Sample and
  Tnc.Demodulator.constructor: the FSK detector and its initialisation are not modelled.
- Threshold.NothingBelow: starts at three samples per bit, and so does Threshold.ArrivesIff.  With one or two, the
  single bits of a line vanish (the capacity is 0) and the runs beside them merge, so that what comes out depends on
  the packet.
- Threshold.ArrivesIff: asks for a second head flag when the polarity is inverted, as a fresh receiver loses the first
  one; the code sends at least four.
- Channel.EndToEnd: assumes frames that fit and clean framer memory, which the code does not ensure; Channel.LineIffClean
  says that nothing less will do for the line.  Between transmissions the line stays at one level; Session.AfterNoise
  says what is left of it with anything else there.
- Framer.FramerStruct.Process: the local array for the packed packet is allocated, not declared on the stack.
- PacketStruct.PacketStruct.constructor: the embedded calls are objects that the packet owns.
- Kiss.EncodeMessage: the caller's buffer is taken to be long enough, which KissPackets.EncodePacket proves of the
  caller; commands are bytes.
- incoming_kiss_message_callback: the commands other than data frames only set parameters.
- LinkedBuffer.Buffer.Init: the offset of a fresh node, which the code does not set, is 0; sizes do not wrap at 32
  bits; null arguments and failing allocations are not modelled; freed nodes simply leave the list.
- NetAudio.ReadBurst: sockets, select, accept, the slot table and broadcast are left out; the results of recv so far
  are a parameter.
- NetAudio.StreamCallback: PortAudio, the start time and the broadcast of the input are left out; the lock steps
  around the pop are in the state machine of the two threads.
- Goertzel.Process: samples are real numbers, not floats; the choice of the bin and its cosine are left out.
- Window.Window.Push: the copy takes size - 1 values; the slot after them, which the code also copies, is overwritten
  at once.  Oversizing is at least 2, below which source and target of the copy overlap.
- Window generators (src/modemstuff/window.c:45-67), configuration, argument parsing, the network client, the test
  demodulator: formulas, input and output, or duplicates.
