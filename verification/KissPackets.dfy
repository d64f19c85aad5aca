/** Packets between the TNC and its clients: the callbacks of apps/ax25tnc/ax25tnc.c that pack a packet into a
    KISS data frame (demodulated_packet_callback) and unpack one from it (incoming_kiss_message_callback). */
module KissPackets {
  import opened Bits
  import opened Ax25Call
  import opened Ax25Packet
  import Channel
  import Deframer
  import Kiss
  import Link
  import Crc
  import PacketStruct

  function DataFrame(p: Packet): Kiss.Message
    requires p.WellFormed()
  {
    Kiss.Message(0, Kiss.DATA_FRAME, Pack(p))
  }

  /** The packet in a message whose data array held `memory` before. */
  function PacketIn(m: Kiss.Message, memory: seq<byte>): Packet
    requires |m.data| <= |memory| == Kiss.BUFFER_SIZE
  {
    Unpack(m.data + memory[|m.data|..], |m.data|)
  }

  /** A data frame from which this packet is unpacked, whatever the data array held before. */
  ghost predicate Unpacks(m: Kiss.Message, p: Packet) {
    && m.port == 0 && m.command == 0 && |m.data| <= 512
    && forall memory: seq<byte> | |memory| == 512 :: PacketIn(m, memory) == p
  }

  lemma DataFrameUnpacks(p: Packet)
    requires p.WellFormed()
    ensures Kiss.Good(DataFrame(p)) && Unpacks(DataFrame(p), p)
  {
    assert Kiss.Header(0, Kiss.DATA_FRAME) == 0;
    forall memory: seq<byte> | |memory| == Kiss.BUFFER_SIZE
      ensures PacketIn(DataFrame(p), memory) == p
    {
      UnpackPack(p, memory[|Pack(p)|..]);
    }
  }

  function DataFrames(ps: seq<Packet>): (r: seq<Kiss.Message>)
    requires forall i | 0 <= i < |ps| :: ps[i].WellFormed()
    ensures |r| == |ps|
  {
    seq(|ps|, i requires 0 <= i < |ps| => DataFrame(ps[i]))
  }

  ghost predicate AllUnpack(ms: seq<Kiss.Message>, ps: seq<Packet>) {
    |ms| == |ps| && forall i | 0 <= i < |ps| :: Unpacks(ms[i], ps[i])
  }

  /** Packets put into data frames, escaped, decoded and unpacked again are the same packets. */
  lemma PacketsOverKiss(s: Kiss.State, ps: seq<Packet>)
    requires s.Valid() && Kiss.Fresh(s)
    requires forall i | 0 <= i < |ps| :: ps[i].WellFormed()
    ensures AllUnpack(Kiss.Decoded(s, Kiss.Stream(DataFrames(ps))), ps)
  {
    var ms := DataFrames(ps);
    forall i | 0 <= i < |ms|
      ensures Kiss.Good(ms[i]) && Unpacks(ms[i], ps[i])
    {
      DataFrameUnpacks(ps[i]);
    }
    Kiss.StreamDecoded(s, ms);
  }

  // ----- the callback's buffer -----

  lemma SsidIsPlain(call: Call, isLast: byte)
    ensures Ssid(call, isLast) != Kiss.END && Ssid(call, isLast) != Kiss.ESC
  {
  }

  /** At most six of the seven bytes of a call are escaped. */
  lemma EscapedCall(call: Call, isLast: byte)
    requires |call.base| <= MAX_CALLSIGN_LEN
    ensures |Kiss.Escape(PackCall(call, isLast))| <= 13
  {
    var z := PackCall(call, isLast);
    SsidIsPlain(call, isLast);
    Kiss.EscapeLength(Front(z));
    assert Last(z) == Ssid(call, isLast);
  }

  lemma {:induction false} EscapedCalls(calls: seq<Call>, n: nat)
    requires n <= |calls| && forall k | 0 <= k < n :: |calls[k].base| <= MAX_CALLSIGN_LEN
    ensures |Kiss.Escape(PackCalls(calls, n))| <= 13 * n
  {
    if n == 0 {
    } else {
      EscapedCalls(calls, n - 1);
      EscapedCall(calls[n - 1], Mark(n == |calls|));
      Kiss.EscapeConcat(PackCalls(calls, n - 1), PackCall(calls[n - 1], Mark(n == |calls|)));
    }
  }

  lemma AfterCalls(p: Packet) returns (rest: seq<byte>)
    requires p.Packable()
    ensures Pack(p) == PackCalls(p.Calls(), |p.Calls()|) + rest && |rest| == 4 + |p.info|
  {
    var fields := [p.control, p.protocol] + p.info;
    var fcs := [Crc.Lo(Crc.Fcs(Content(p))), Crc.Hi(Crc.Fcs(Content(p)))];
    var calls := PackCalls(p.Calls(), |p.Calls()|);
    Assoc(calls, [p.control, p.protocol], p.info);
    Assoc(calls, fields, fcs);
    rest := fields + fcs;
  }

  lemma EscapedPack(p: Packet)
    requires p.Packable()
    ensures |Kiss.Escape(Pack(p))| <= 2 * |Pack(p)| - (|p.repeaters| + 2)
  {
    var rest := AfterCalls(p);
    Kiss.EscapeConcat(PackCalls(p.Calls(), |p.Calls()|), rest);
    EscapedCalls(p.Calls(), |p.Calls()|);
    Kiss.EscapeLength(rest);
  }

  /** How long a data frame can get: every byte but the SSIDs may be escaped. */
  lemma DataFrameLength(p: Packet)
    requires p.WellFormed()
    ensures |Kiss.Encode(DataFrame(p))| <= 3 + 2 * |Pack(p)| - (|p.repeaters| + 2)
  {
    EscapedPack(p);
  }

  /** Every packet that a receiver hands out, from any state and by any bits, can be put into a data frame, and
      the frame fits into the callback's buffer. */
  lemma ReportsFitCallback(s: Deframer.State, bits: seq<bit>)
    requires s.Valid()
    ensures forall q | q in Deframer.Reports(s, bits) ::
              q.WellFormed() && |Kiss.Encode(DataFrame(q))| <= 511
  {
    Deframer.ReportsFit(s, bits);
    forall q | q in Deframer.Reports(s, bits)
      ensures q.WellFormed() && |Kiss.Encode(DataFrame(q))| <= 511
    {
      DataFrameLength(q);
    }
  }

  /** The part of demodulated_packet_callback that makes the data frame for the clients. */
  method EncodePacket(packet: PacketStruct.PacketStruct, buf: array<byte>) returns (length: nat)
    requires packet.Valid() && buf !in packet.Repr() && buf.Length == 512
    requires packet.Value().WellFormed() && |Pack(packet.Value())| <= 255
    modifies buf
    ensures packet.Valid() && packet.Value() == old(packet.Value())
    ensures length < buf.Length && buf[..length] == Kiss.Encode(DataFrame(packet.Value()))
  {
    var data := new byte[Kiss.BUFFER_SIZE];
    packet.SameValue();
    DataFrameLength(packet.Value());
    var n := packet.Pack(data);
    length := Kiss.EncodeMessage(Kiss.Message(0, Kiss.DATA_FRAME, data[..n]), buf);
    packet.SameValue();
  }

  /** Whatever a receiver hands out, the clients get: data frames with exactly these packets, in order. */
  lemma ReportsReachClients(s: Deframer.State, bits: seq<bit>)
    requires s.Valid()
    ensures var packets := Deframer.Reports(s, bits);
      && (forall i | 0 <= i < |packets| :: packets[i].WellFormed())
      && AllUnpack(Kiss.Decoded(Kiss.State(Kiss.Undefined, []), Kiss.Stream(DataFrames(packets))), packets)
  {
    var packets := Deframer.Reports(s, bits);
    Deframer.ReportsFit(s, bits);
    forall i | 0 <= i < |packets|
      ensures packets[i].WellFormed()
    {
      assert packets[i] in packets;
    }
    PacketsOverKiss(Kiss.State(Kiss.Undefined, []), packets);
  }

  /** From the modulator of one station to a KISS client of another: what the client gets are data frames
      with exactly the packets that were sent, in order. */
  lemma FromModulatorToClient(p: nat, calls: seq<Channel.Call>, rest: seq<real>, level: bit,
                              ones: nat, buffer: seq<byte>)
    requires p >= 15 && ones < 256 && |buffer| == Deframer.BUFFER_LEN
    requires forall call | call in calls :: call.Fits() && call.Arrives(p)
    requires (forall call | call in calls :: call.Short()) && Channel.Signs(rest, level)
    ensures var levels := Channel.SymbolLevels(Channel.AllSymbols(calls) + rest);
      var delivered := Link.Deliveries(p, Link.Fresh(ones, buffer), levels);
      && (forall i | 0 <= i < |delivered| :: delivered[i].WellFormed())
      && AllUnpack(Kiss.Decoded(Kiss.State(Kiss.Undefined, []), Kiss.Stream(DataFrames(delivered))),
                  Channel.Packets(calls))
  {
    Channel.EndToEnd(p, calls, rest, level, ones, buffer);
    var packets := Channel.Packets(calls);
    forall i | 0 <= i < |packets|
      ensures packets[i].WellFormed()
    {
      assert calls[i] in calls;
    }
    PacketsOverKiss(Kiss.State(Kiss.Undefined, []), packets);
  }
}
