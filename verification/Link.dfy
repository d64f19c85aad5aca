/** The whole link: what apps/ax25tnc/modulator.c sends against what apps/ax25tnc/demodulator.c delivers.

    The channel between them is ideal: each line bit becomes `p` soft symbols of the right sign, or all of
    the wrong sign when mark and space are exchanged.  Everything is a function of the sent packets. */
module Link {
  import opened Bits
  import opened Hdlc
  import opened LineCode
  import opened Ax25Call
  import opened Ax25Packet
  import BitDetector
  import Deframer
  import Crc

  // ----- sending -----

  /** The line of one transmission; the encoder starts at 0. */
  function SentLine(head: nat, body: seq<byte>, tail: nat): seq<bit> {
    Encoded(false, FrameBits(head, body, tail))
  }

  // ----- receiving -----

  /** The stages of the receiver: bit detector, NRZI decoder, deframer. */
  datatype Receiver = Receiver(detector: BitDetector.State, level: bit, deframer: Deframer.State) {
    /** What every receiver satisfies at all times; see ReceiveKeepsValid. */
    predicate Valid(p: nat) {
      0 <= detector.wait <= p && deframer.Valid()
    }
  }

  /** After initialisation; the deframer's count of 1s and its buffer are not set. */
  function Fresh(ones: nat, buffer: seq<byte>): Receiver {
    Receiver(BitDetector.State(0, None), false, Deframer.Reset(ones, buffer))
  }

  /** The bits that reach the deframer. */
  function DecodedBits(p: nat, r: Receiver, levels: seq<bit>): seq<bit> {
    Decoded(r.level, BitDetector.Output(p, r.detector, levels))
  }

  function Receive(p: nat, r: Receiver, levels: seq<bit>): Receiver
    requires r.deframer.Valid()
  {
    Receiver(BitDetector.Run(p, r.detector, levels),
             LevelAfter(r.level, BitDetector.Output(p, r.detector, levels)),
             Deframer.Run(r.deframer, DecodedBits(p, r, levels)))
  }

  function Deliveries(p: nat, r: Receiver, levels: seq<bit>): seq<Packet>
    requires r.deframer.Valid()
  {
    Deframer.Reports(r.deframer, DecodedBits(p, r, levels))
  }

  lemma FreshIsValid(p: nat, ones: nat, buffer: seq<byte>)
    requires ones < 256 && |buffer| == Deframer.BUFFER_LEN
    ensures Fresh(ones, buffer).Valid(p)
  {
  }

  lemma ReceiveKeepsValid(p: nat, r: Receiver, levels: seq<bit>)
    requires r.Valid(p)
    ensures Receive(p, r, levels).Valid(p)
  {
    BitDetector.WaitStaysWithin(p, r.detector, levels);
  }

  lemma ReceiveConcat(p: nat, r: Receiver, a: seq<bit>, b: seq<bit>)
    requires r.deframer.Valid()
    ensures Receive(p, r, a + b) == Receive(p, Receive(p, r, a), b)
    ensures Deliveries(p, r, a + b) == Deliveries(p, r, a) + Deliveries(p, Receive(p, r, a), b)
  {
    var x, y := BitDetector.Output(p, r.detector, a), BitDetector.Output(p, BitDetector.Run(p, r.detector, a), b);
    BitDetector.RunConcat(p, r.detector, a, b);
    DecodedConcat(r.level, x, y);
    LevelAfterConcat(r.level, x, y);
    Deframer.RunConcat(r.deframer, Decoded(r.level, x), Decoded(LevelAfter(r.level, x), y));
    Deframer.ReportsConcat(r.deframer, Decoded(r.level, x), Decoded(LevelAfter(r.level, x), y));
  }

  // ----- runs of the line -----

  /** No more than `k` 1s in a row. */
  predicate OnesWithin(bits: seq<bit>, k: nat) {
    bits == [] || (OnesWithin(Front(bits), k) && Ones(bits, 0) <= k)
  }

  lemma OnesWithinSnoc(a: seq<bit>, b: bit, k: nat)
    requires OnesWithin(a, k) && (b ==> Ones(a, 0) < k)
    ensures OnesWithin(a + [b], k) && Ones(a + [b], 0) == if b then Ones(a, 0) + 1 else 0
  {
    assert Front(a + [b]) == a;
  }

  lemma OnesWithinOne(a: seq<bit>, n: nat, k: nat)
    requires OnesWithin(a + Trues(n), k) && Ones(a + Trues(n), 0) < k
    ensures OnesWithin(a + Trues(n + 1), k) && Ones(a + Trues(n + 1), 0) == Ones(a + Trues(n), 0) + 1
  {
    OnesWithinSnoc(a + Trues(n), true, k);
    Assoc(a, Trues(n), [true]);
  }

  lemma {:induction false} OnesWithinTrues(a: seq<bit>, n: nat, k: nat)
    requires OnesWithin(a, k) && Ones(a, 0) + n <= k
    ensures OnesWithin(a + Trues(n), k) && Ones(a + Trues(n), 0) == Ones(a, 0) + n
  {
    if n == 0 {
      assert a + Trues(0) == a;
    } else {
      OnesWithinTrues(a, n - 1, k);
      OnesWithinOne(a, n - 1, k);
    }
  }

  lemma OnesWithinFlag(a: seq<bit>)
    requires OnesWithin(a, 6)
    ensures OnesWithin(a + FlagBits(), 6) && Ones(a + FlagBits(), 0) == 0
  {
    OnesWithinSnoc(a, false, 6);
    OnesWithinTrues(a + [false], 6, 6);
    OnesWithinSnoc(a + [false] + Trues(6), false, 6);
    FlagBitsShape();
    assert a + FlagBits() == a + [false] + Trues(6) + [false];
  }

  lemma {:induction false} OnesWithinFlags(a: seq<bit>, n: nat)
    requires OnesWithin(a, 6)
    ensures OnesWithin(a + Flags(n), 6) && (n > 0 || Ones(a, 0) == 0 ==> Ones(a + Flags(n), 0) == 0)
  {
    if n == 0 {
      assert a + Flags(0) == a;
    } else {
      OnesWithinFlags(a, n - 1);
      OnesWithinFlag(a + Flags(n - 1));
      Assoc(a, Flags(n - 1), FlagBits());
    }
  }

  lemma {:induction false} OnesWithinStuff(a: seq<bit>, bits: seq<bit>)
    requires OnesWithin(a, 6) && Ones(a, 0) == 0
    ensures OnesWithin(a + Stuff(bits), 6) && Ones(a + Stuff(bits), 0) == SenderOnes(bits)
  {
    if bits == [] {
      assert a + Stuff(bits) == a;
    } else {
      var f, b := Front(bits), Last(bits);
      OnesWithinStuff(a, f);
      OnesWithinSnoc(a + Stuff(f), b, 6);
      Assoc(a, Stuff(f), Emitted(f, b));
      if b && SenderOnes(f) == 4 {
        OnesWithinSnoc(a + Stuff(f) + [true], false, 6);
        assert a + Stuff(f) + Emitted(f, b) == a + Stuff(f) + [true] + [false];
      }
    }
  }

  /** In the line code a run is one level longer than the 1s that keep it. */
  lemma {:induction false} RunIsOnesPlusOne(level: bit, c: seq<bit>, inverted: bool)
    requires c != [] && !c[0] && OnesWithin(c, 6)
    ensures var line := Heard(Encoded(level, c), inverted);
      && line[0] == (!level != inverted)
      && BitDetector.RunLength(line) == Ones(c, 0) + 1
      && BitDetector.RunsWithin(line, 7)
  {
    var f := Front(c);
    var e := Encoded(level, f);
    var b := Level(LevelAfter(level, e), Last(c));
    HeardSnoc(e, b, inverted);
    var h := Heard(e, inverted);
    assert Front(h + [b != inverted]) == h;
    if f == [] {
      assert Front(h + [b != inverted]) == [];
    } else {
      RunIsOnesPlusOne(level, f, inverted);
      assert Last(h) == (Last(e) != inverted);
    }
  }

  // ----- one transmission, from any receiver state -----

  /** The levels heard for one transmission. */
  function HeardLevels(p: nat, head: nat, body: seq<byte>, tail: nat, inverted: bool): seq<bit> {
    BitDetector.Stretch(Heard(SentLine(head, body, tail), inverted), p)
  }

  /** What follows the first seven bits of the first flag. */
  function AfterOpening(head: nat, body: seq<byte>, tail: nat): seq<bit>
    requires head >= 1
  {
    [false] + Flags(head - 1) + Stuff(BytesBits(body)) + Flags(tail)
  }

  lemma OpeningSplits(head: nat, body: seq<byte>, tail: nat)
    requires head >= 1
    ensures FrameBits(head, body, tail) == ([false] + Trues(6)) + AfterOpening(head, body, tail)
  {
    FlagsFromFront(head);
    FlagBitsShape();
    assert Flags(head) == ([false] + Trues(6)) + ([false] + Flags(head - 1));
    var o, f, b, t := [false] + Trues(6), [false] + Flags(head - 1), Stuff(BytesBits(body)), Flags(tail);
    Assoc(o, f, b);
    Assoc(o, f + b, t);
  }

  lemma AfterOpeningOnes(head: nat, body: seq<byte>, tail: nat)
    requires head >= 1
    ensures OnesWithin(AfterOpening(head, body, tail), 6)
  {
    OnesWithinSnoc([], false, 6);
    assert [] + [false] == [false];
    OnesWithinFlags([false], head - 1);
    OnesWithinStuff([false] + Flags(head - 1), BytesBits(body));
    OnesWithinFlags([false] + Flags(head - 1) + Stuff(BytesBits(body)), tail);
  }

  lemma {:induction false} EncodedConcat(level: bit, a: seq<bit>, b: seq<bit>)
    ensures Encoded(level, a + b) == Encoded(level, a) + Encoded(LevelAfter(level, Encoded(level, a)), b)
  {
    if b == [] {
      assert a + b == a;
    } else {
      EncodedConcat(level, a, Front(b));
      FrontOfConcat(a, b);
      var x := Encoded(level, a);
      var y := Encoded(LevelAfter(level, x), Front(b));
      LevelAfterConcat(level, x, y);
      Assoc(x, y, [Level(LevelAfter(level, x + y), Last(b))]);
    }
  }

  /** The first seven line bits are at one level. */
  lemma EncodedOpening()
    ensures Encoded(false, [false] + Trues(6)) == BitDetector.Same(true, 7)
  {
    KeptLevel(6);
    assert BitDetector.Same(true, 1) == [true];
    BitDetector.SamePlus(true, 1, 6);
  }

  lemma {:induction false} KeptLevel(n: nat)
    ensures Encoded(false, [false] + Trues(n)) == [true] + BitDetector.Same(true, n)
  {
    if n == 0 {
      assert [false] + Trues(0) == [false] && Front([false]) == [];
    } else {
      KeptLevel(n - 1);
      assert [false] + Trues(n) == ([false] + Trues(n - 1)) + [true];
      assert Front([false] + Trues(n)) == [false] + Trues(n - 1);
    }
  }

  lemma {:induction false} HeardSame(v: bit, n: nat, inverted: bool)
    ensures Heard(BitDetector.Same(v, n), inverted) == BitDetector.Same(v != inverted, n)
  {
    if n == 0 {
    } else {
      HeardSame(v, n - 1, inverted);
      HeardSnoc(BitDetector.Same(v, n - 1), v, inverted);
    }
  }

  lemma HeardConcat(a: seq<bit>, b: seq<bit>, inverted: bool)
    ensures Heard(a + b, inverted) == Heard(a, inverted) + Heard(b, inverted)
  {
  }

  lemma HeardSplits(head: nat, body: seq<byte>, tail: nat, inverted: bool)
    requires head >= 1
    ensures Heard(SentLine(head, body, tail), inverted) ==
            BitDetector.Same(true != inverted, 7) + Heard(Encoded(true, AfterOpening(head, body, tail)), inverted)
  {
    var o, c := [false] + Trues(6), AfterOpening(head, body, tail);
    OpeningSplits(head, body, tail);
    EncodedOpening();
    EncodedConcat(false, o, c);
    HeardConcat(Encoded(false, o), Encoded(true, c), inverted);
    HeardSame(true, 7, inverted);
  }

  /** From a change of level on, bits with at most six 1s in a row come through the line and its code. */
  lemma CodedLineComesThrough(p: nat, d: BitDetector.State, c: seq<bit>, level: bit, inverted: bool)
    requires p >= 15 && c != [] && !c[0] && OnesWithin(c, 6) && d.last != Some(!level != inverted)
    ensures var line := Heard(Encoded(level, c), inverted);
      && BitDetector.Output(p, d, BitDetector.Stretch(line, p)) == line
      && 0 <= BitDetector.Run(p, d, BitDetector.Stretch(line, p)).wait <= p
      && Decoded(level != inverted, line) == c
  {
    var line := Heard(Encoded(level, c), inverted);
    RunIsOnesPlusOne(level, c, inverted);
    RunsWithinMore(line, 7, BitDetector.Capacity(p));
    RunLengthBound(line, BitDetector.Capacity(p));
    BitDetector.LineComesThrough(p, d, line);
    DecodeEncoded(level != inverted, level, c, inverted);
    assert c == [false] + c[1..];
  }

  lemma DecodedTwoParts(p: nat, r: Receiver, a: seq<bit>, x: seq<bit>, b: seq<bit>, y: seq<bit>)
    requires BitDetector.Output(p, r.detector, a) == x
    requires BitDetector.Output(p, BitDetector.Run(p, r.detector, a), b) == y
    ensures DecodedBits(p, r, a + b) == Decoded(r.level, x) + Decoded(LevelAfter(r.level, x), y)
    ensures BitDetector.Run(p, r.detector, a + b) == BitDetector.Run(p, BitDetector.Run(p, r.detector, a), b)
  {
    BitDetector.RunConcat(p, r.detector, a, b);
    DecodedConcat(r.level, x, y);
  }

  /** The bits at the deframer, cut where it is reset: the end of the first flag, the second flag, the other
      head flags, the frame with its closing flag, the other tail flags. */
  function AtDeframer(first: seq<bit>, n: nat, body: seq<byte>, m: nat): seq<bit> {
    first + [false] + FlagBits() + Flags(n) + (Stuff(BytesBits(body)) + FlagBits()) + Flags(m)
  }

  lemma TransmissionParts(first: seq<bit>, head: nat, body: seq<byte>, tail: nat)
    requires head >= 2 && tail >= 1
    ensures first + AfterOpening(head, body, tail) == AtDeframer(first, head - 2, body, tail - 1)
  {
    FlagsFromFront(head - 1);
    FlagsFromFront(tail);
  }

  /** What the deframer gets from one transmission: what the decoder makes of six or seven bits at the first
      level -- seven if that is a change -- and then everything as it was sent. */
  lemma DecodedLine(p: nat, r: Receiver, head: nat, body: seq<byte>, tail: nat, inverted: bool) returns (m: nat)
    requires p >= 15 && head >= 1 && r.Valid(p)
    ensures 6 <= m <= 7 && (r.detector.last != Some(true != inverted) ==> m == 7)
    ensures var levels := HeardLevels(p, head, body, tail, inverted);
      DecodedBits(p, r, levels) ==
        Decoded(r.level, BitDetector.Same(true != inverted, m)) + AfterOpening(head, body, tail)
  {
    var c, v := AfterOpening(head, body, tail), true != inverted;
    var x, y := BitDetector.Same(v, 7), Heard(Encoded(true, c), inverted);
    HeardSplits(head, body, tail, inverted);
    BitDetector.StretchConcat(x, y, p);
    var w;
    m, w := BitDetector.SevenBitsFromAnyWait(p, r.detector, v);
    AfterOpeningOnes(head, body, tail);
    CodedLineComesThrough(p, BitDetector.State(w, Some(v)), c, true, inverted);
    DecodedTwoParts(p, r, BitDetector.Stretch(x, p), BitDetector.Same(v, m), BitDetector.Stretch(y, p), y);
  }

  lemma {:induction false} RunsWithinMore(line: seq<bit>, k: int, l: int)
    requires BitDetector.RunsWithin(line, k) && k <= l
    ensures BitDetector.RunsWithin(line, l)
  {
    if line == [] {
    } else {
      RunsWithinMore(Front(line), k, l);
    }
  }

  lemma RunLengthBound(line: seq<bit>, k: int)
    requires line != [] && BitDetector.RunsWithin(line, k)
    ensures BitDetector.RunLength(line) <= k
  {
  }

  /** The deframer's part: after a few bits of anything, a transmission without its first flag. */
  lemma TransmissionCarries(first: seq<bit>, n: nat, body: seq<byte>, m: nat)
    requires |first| <= 7 && MIN_PACKET_LEN <= |body| <= 255
    ensures Deframer.Carries(AtDeframer(first, n, body, m), body)
  {
    var opening, frame := first + [false] + FlagBits(), Stuff(BytesBits(body)) + FlagBits();
    Deframer.FlagOpens(first + [false]);
    Deframer.FlagsIdle(n);
    Deframer.OpensThenIdles(opening, Flags(n));
    Deframer.StuffedBodyFrames(body);
    Deframer.OpensThenFrames(opening + Flags(n), frame, body);
    Deframer.FlagsIdle(m);
    Deframer.CarriesThenIdles(opening + Flags(n) + frame, Flags(m), body);
  }

  /** A transmission: a packed packet, the numbers of flags, and whether mark and space are exchanged. */
  datatype Send = Send(body: seq<byte>, head: nat, tail: nat, inverted: bool) {
    predicate Fits() {
      MIN_PACKET_LEN <= |body| <= 255 && head >= 2 && tail >= 1
    }
  }

  function Levels(p: nat, x: Send): seq<bit> {
    HeardLevels(p, x.head, x.body, x.tail, x.inverted)
  }

  /** The buffers that reach the check. */
  function Collected(p: nat, r: Receiver, levels: seq<bit>): (cs: seq<Deframer.Candidate>)
    requires r.deframer.Valid()
    ensures forall c | c in cs :: c.Valid()
  {
    Deframer.Found(r.deframer, DecodedBits(p, r, levels))
  }

  predicate Between(p: nat, r: Receiver) {
    r.Valid(p) && Deframer.IsReset(r.deframer)
  }

  lemma SendCarries(x: Send, first: seq<bit>, line: seq<bit>)
    requires x.Fits() && |first| <= 7 && line == first + AfterOpening(x.head, x.body, x.tail)
    ensures Deframer.Carries(line, x.body)
  {
    TransmissionParts(first, x.head, x.body, x.tail);
    TransmissionCarries(first, x.head - 2, x.body, x.tail - 1);
  }

  lemma DecodedCarries(p: nat, r: Receiver, x: Send)
    requires p >= 15 && r.Valid(p) && x.Fits()
    ensures Deframer.Carries(DecodedBits(p, r, Levels(p, x)), x.body)
  {
    var m := DecodedLine(p, r, x.head, x.body, x.tail, x.inverted);
    SendCarries(x, Decoded(r.level, BitDetector.Same(true != x.inverted, m)), DecodedBits(p, r, Levels(p, x)));
  }

  /** One transmission, heard by a receiver in any state whatever: its body is collected, last and once. */
  lemma FrameTransmission(p: nat, r: Receiver, x: Send)
    requires p >= 15 && r.Valid(p) && x.Fits()
    ensures var found := Collected(p, r, Levels(p, x));
      && 1 <= |found| <= 2 && (r.deframer.pos == 0 ==> |found| == 1)
      && Deframer.Holds(Last(found), x.body)
    ensures Between(p, Receive(p, r, Levels(p, x)))
  {
    DecodedCarries(p, r, x);
    ReceiveKeepsValid(p, r, Levels(p, x));
    assert Deframer.CarriesAt(r.deframer, DecodedBits(p, r, Levels(p, x)), x.body);
  }

  predicate Packs(x: Send, packet: Packet) {
    packet.WellFormed() && x.body == Pack(packet)
  }

  lemma PackedAccepted(x: Send, packet: Packet, c: Deframer.Candidate)
    requires Packs(x, packet) && Deframer.Holds(c, x.body)
    ensures Deframer.Checked(c) == [packet]
  {
    var n := |x.body|;
    assert c.buffer == x.body + c.buffer[n..] && c.buffer[..n] == x.body;
    UnpackPack(packet, c.buffer[n..]);
  }

  lemma PackedLongEnough(x: Send, packet: Packet)
    requires Packs(x, packet)
    ensures MIN_PACKET_LEN <= |x.body|
  {
  }

  /** One transmission of a packet, heard by a receiver in any state whatever: the packet is delivered once,
      after at most one packet that the receiver had collected before, and none if it had collected nothing. */
  lemma Transmission(p: nat, r: Receiver, x: Send, packet: Packet) returns (junk: seq<Packet>)
    requires p >= 15 && r.Valid(p)
    requires Packs(x, packet) && |x.body| <= 255 && x.head >= 2 && x.tail >= 1
    ensures Deliveries(p, r, Levels(p, x)) == junk + [packet]
    ensures |junk| <= 1 && (r.deframer.pos == 0 ==> junk == [])
    ensures Between(p, Receive(p, r, Levels(p, x)))
  {
    PackedLongEnough(x, packet);
    FrameTransmission(p, r, x);
    var found := Collected(p, r, Levels(p, x));
    PackedAccepted(x, packet, Last(found));
    junk := CheckedWithJunk(found);
  }

  lemma CheckedWithJunk(found: seq<Deframer.Candidate>) returns (junk: seq<Packet>)
    requires 1 <= |found| <= 2 && (forall c | c in found :: c.Valid())
    ensures Last(found) in found && |junk| <= 1 && (|found| == 1 ==> junk == [])
    ensures Deframer.CheckedAll(found) == junk + Deframer.Checked(Last(found))
  {
    junk := Deframer.CheckedAll(Front(found));
    if |found| == 2 {
      assert found[0] in found;
      Deframer.CheckedOne(found[0]);
      assert Front(found) == [found[0]];
    }
  }

  // ----- what no receiver delivers -----

  lemma DeliveriesFit(p: nat, r: Receiver, levels: seq<bit>)
    requires r.deframer.Valid()
    ensures forall q | q in Deliveries(p, r, levels) :: q.WellFormed() && |Pack(q)| <= 255
  {
    Deframer.ReportsFit(r.deframer, DecodedBits(p, r, levels));
  }

  /** The longest packet there is: eight repeaters and 255 bytes of information. */
  function LongestPacket(call: Call, control: byte, protocol: byte, b: byte): (r: Packet)
    requires call.WellFormed()
    ensures r.WellFormed() && |Pack(r)| == 329
  {
    Packet(call, call, seq(MAX_REPEATER_COUNT, _ => call), control, protocol, seq(MAX_INFO_LEN, _ => b))
  }

  /** It can be packed and sent, and no receiver ever delivers it. */
  lemma LongestPacketLost(p: nat, r: Receiver, levels: seq<bit>, packet: Packet)
    requires r.deframer.Valid() && packet == LongestPacket(Call([0x41], 0, 0), 0x03, 0xf0, 0x20)
    ensures packet.WellFormed() && packet !in Deliveries(p, r, levels)
  {
    DeliveriesFit(p, r, levels);
  }

  // ----- one transmission to a fresh receiver -----

  lemma {:induction false} OnesWithinPrefix(bits: seq<bit>, n: nat, k: nat)
    requires OnesWithin(bits, k) && n <= |bits|
    ensures OnesWithin(bits[..n], k)
  {
    if n < |bits| {
      OnesWithinPrefix(Front(bits), n, k);
      assert Front(bits)[..n] == bits[..n];
    } else {
      assert bits[..n] == bits;
    }
  }

  lemma EncodedPrefix(level: bit, bits: seq<bit>, n: nat)
    requires n <= |bits|
    ensures Encoded(level, bits)[..n] == Encoded(level, bits[..n])
  {
    EncodedConcat(level, bits[..n], bits[n..]);
    assert bits == bits[..n] + bits[n..];
  }

  lemma FrameBitsOnes(head: nat, body: seq<byte>, tail: nat)
    requires head >= 1
    ensures OnesWithin(FrameBits(head, body, tail), 6)
    ensures FrameBits(head, body, tail) != [] && !FrameBits(head, body, tail)[0]
  {
    OnesWithinFlags([], head);
    assert [] + Flags(head) == Flags(head);
    OnesWithinStuff(Flags(head), BytesBits(body));
    OnesWithinFlags(Flags(head) + Stuff(BytesBits(body)), tail);
    FlagsFromFront(head);
  }

  /** What a fresh receiver makes of the bits of a line: its decoder starts at the other level when mark and
      space are exchanged, and takes the first 0 for a 1. */
  function Turned(bits: seq<bit>, inverted: bool): (r: seq<bit>)
    ensures |r| == |bits|
  {
    if bits == [] then [] else [inverted] + bits[1..]
  }

  lemma FreshLine(p: nat, bits: seq<bit>, ones: nat, buffer: seq<byte>, inverted: bool)
    requires p >= 15 && bits != [] && !bits[0] && OnesWithin(bits, 6)
    ensures DecodedBits(p, Fresh(ones, buffer), BitDetector.Stretch(Heard(Encoded(false, bits), inverted), p)) ==
            Turned(bits, inverted)
  {
    CodedLineComesThrough(p, BitDetector.State(0, None), bits, false, inverted);
    DecodeEncoded(false, false, bits, inverted);
    RunIsOnesPlusOne(false, bits, inverted);
  }

  lemma HeardTake(line: seq<bit>, k: nat, inverted: bool)
    requires k <= |line|
    ensures Heard(line, inverted)[..k] == Heard(line[..k], inverted)
  {
  }

  lemma TurnedTake(bits: seq<bit>, k: nat, inverted: bool)
    requires k <= |bits|
    ensures Turned(bits, inverted)[..k] == Turned(bits[..k], inverted)
  {
  }

  /** Every prefix of a line that starts with a change comes through to a fresh receiver. */
  lemma FreshPrefix(p: nat, bits: seq<bit>, k: nat, ones: nat, buffer: seq<byte>, inverted: bool)
    requires p >= 15 && bits != [] && !bits[0] && OnesWithin(bits, 6) && k <= |bits|
    ensures DecodedBits(p, Fresh(ones, buffer), BitDetector.Stretch(Heard(Encoded(false, bits), inverted)[..k], p)) ==
            Turned(bits, inverted)[..k]
  {
    EncodedPrefix(false, bits, k);
    HeardTake(Encoded(false, bits), k, inverted);
    TurnedTake(bits, k, inverted);
    OnesWithinPrefix(bits, k, 6);
    if k > 0 {
      FreshLine(p, bits[..k], ones, buffer, inverted);
    }
  }

  /** What is found at bit `n` and is all there is in the end is found exactly from there on. */
  lemma FoundInPrefix(s: Deframer.State, x: seq<bit>, n: nat, c: seq<Deframer.Candidate>, k: nat)
    requires s.Valid() && n < |x| && k <= |x|
    requires Deframer.Found(s, x[..n]) == [] && Deframer.Found(s, x[..n + 1]) == c == Deframer.Found(s, x)
    ensures Deframer.Found(s, x[..k]) == if k <= n then [] else c
  {
    if k <= n {
      Deframer.FoundTake(s, x, k, n);
    } else {
      Deframer.FoundTake(s, x, n + 1, k);
      Deframer.FoundTake(s, x, k, |x|);
      assert x[..|x|] == x;
    }
  }

  /** The head flags as a fresh receiver gets them. */
  function Opening(head: nat, inverted: bool): (r: seq<bit>)
    ensures |r| == 8 * head
  {
    Turned(Flags(head), inverted)
  }

  lemma HeadOpens(head: nat)
    requires head >= 1
    ensures Deframer.Opens(Opening(head, false))
  {
    FlagsFromFront(head);
    Deframer.FlagOpens([]);
    assert [] + FlagBits() == FlagBits() == [false] + FlagBits()[1..];
    assert Opening(head, false) == FlagBits() + Flags(head - 1);
    Deframer.FlagsIdle(head - 1);
    Deframer.OpensThenIdles(FlagBits(), Flags(head - 1));
  }

  /** When mark and space are exchanged the first flag is lost, and the second one opens. */
  lemma TurnedHeadOpens(head: nat)
    requires head >= 2
    ensures Deframer.Opens(Opening(head, true))
  {
    var lost := [true] + FlagBits()[1..];
    FlagsFromFront(head);
    FlagsFromFront(head - 1);
    assert Opening(head, true) == lost + FlagBits() + Flags(head - 2);
    Deframer.FlagOpens(lost);
    Deframer.FlagsIdle(head - 2);
    Deframer.OpensThenIdles(lost + FlagBits(), Flags(head - 2));
  }

  /** Everything up to the last bit of the closing flag, after an opening. */
  function UpToClosing(opening: seq<bit>, body: seq<byte>): (r: seq<bit>)
    ensures |r| == |opening| + |Stuff(BytesBits(body))| + 7
  {
    opening + (Stuff(BytesBits(body)) + [false] + Trues(6))
  }

  function FrameAfter(opening: seq<bit>, body: seq<byte>, tail: nat): seq<bit> {
    opening + Stuff(BytesBits(body)) + Flags(tail)
  }

  lemma FrameCut(opening: seq<bit>, body: seq<byte>, tail: nat)
    requires tail >= 1
    ensures FrameAfter(opening, body, tail) == UpToClosing(opening, body) + [false] + Flags(tail - 1)
    ensures UpToClosing(opening, body) + [false] == opening + (Stuff(BytesBits(body)) + FlagBits())
  {
    FlagsFromFront(tail);
    FlagBitsShape();
    var b, o := Stuff(BytesBits(body)), [false] + Trues(6);
    assert b + [false] + Trues(6) == b + o;
    assert (opening + (b + o)) + [false] == opening + (b + (o + [false]));
    assert (opening + (b + FlagBits())) + Flags(tail - 1) == (opening + b) + (FlagBits() + Flags(tail - 1));
  }

  lemma NothingBeforeClosing(s: Deframer.State, opening: seq<bit>, body: seq<byte>)
    requires s.Valid() && s.pos == 0 && |body| <= 255 && Deframer.Opens(opening)
    ensures Deframer.Found(s, UpToClosing(opening, body)) == []
  {
    assert Deframer.OpensAt(s, opening);
    Deframer.Frame(body, Deframer.Run(s, opening).buffer);
    Deframer.RunConcat(s, opening, Stuff(BytesBits(body)) + [false] + Trues(6));
  }

  lemma FrameCarries(opening: seq<bit>, body: seq<byte>, tail: nat)
    requires Deframer.Opens(opening) && tail >= 1 && MIN_PACKET_LEN <= |body| <= 255
    ensures Deframer.Carries(FrameAfter(opening, body, tail), body)
    ensures Deframer.Carries(UpToClosing(opening, body) + [false], body)
  {
    var closed := UpToClosing(opening, body) + [false];
    FrameCut(opening, body, tail);
    FrameCloses(opening, body, closed);
    Deframer.FlagsIdle(tail - 1);
    Deframer.CarriesThenIdles(closed, Flags(tail - 1), body);
  }

  lemma FrameCloses(opening: seq<bit>, body: seq<byte>, closed: seq<bit>)
    requires Deframer.Opens(opening) && MIN_PACKET_LEN <= |body| <= 255
    requires closed == opening + (Stuff(BytesBits(body)) + FlagBits())
    ensures Deframer.Carries(closed, body)
  {
    Deframer.StuffedBodyFrames(body);
    Deframer.OpensThenFrames(opening, Stuff(BytesBits(body)) + FlagBits(), body);
  }

  lemma CarriesOnly(s: Deframer.State, line: seq<bit>, body: seq<byte>) returns (c: Deframer.Candidate)
    requires s.Valid() && s.pos == 0 && Deframer.Carries(line, body)
    ensures Deframer.Holds(c, body) && Deframer.Found(s, line) == [c]
  {
    assert Deframer.CarriesAt(s, line, body);
    c := Deframer.Found(s, line)[0];
    assert Last(Deframer.Found(s, line)) == c;
  }

  lemma CarriesOnce(s: Deframer.State, a: seq<bit>, x: seq<bit>, body: seq<byte>) returns (c: Deframer.Candidate)
    requires s.Valid() && s.pos == 0 && a <= x && Deframer.Carries(a, body) && Deframer.Carries(x, body)
    ensures Deframer.Holds(c, body) && Deframer.Found(s, a) == [c] == Deframer.Found(s, x)
  {
    c := CarriesOnly(s, a, body);
    var d := CarriesOnly(s, x, body);
    assert x[..|a|] == a && x[..|x|] == x;
    Deframer.FoundTake(s, x, |a|, |x|);
  }

  /** The closing flag is where the frame is found, and nothing else is. */
  lemma FoundAtClosing(s: Deframer.State, opening: seq<bit>, body: seq<byte>, tail: nat)
    returns (c: Deframer.Candidate)
    requires Deframer.Opens(opening) && tail >= 1 && s.Valid() && s.pos == 0
    requires MIN_PACKET_LEN <= |body| <= 255
    ensures Deframer.Holds(c, body)
    ensures Deframer.Found(s, UpToClosing(opening, body)) == []
    ensures Deframer.Found(s, UpToClosing(opening, body) + [false]) == [c]
    ensures Deframer.Found(s, FrameAfter(opening, body, tail)) == [c]
  {
    NothingBeforeClosing(s, opening, body);
    FrameCarries(opening, body, tail);
    FrameCut(opening, body, tail);
    c := CarriesOnce(s, UpToClosing(opening, body) + [false], FrameAfter(opening, body, tail), body);
  }

  lemma FrameClosing(s: Deframer.State, opening: seq<bit>, x: Send, k: nat, packet: Packet)
    requires Deframer.Opens(opening) && x.tail >= 1 && s.Valid() && s.pos == 0
    requires Packs(x, packet) && |x.body| <= 255 && k <= |FrameAfter(opening, x.body, x.tail)|
    ensures Deframer.Reports(s, FrameAfter(opening, x.body, x.tail)[..k]) ==
            if k <= |UpToClosing(opening, x.body)| then [] else [packet]
  {
    var y, a := FrameAfter(opening, x.body, x.tail), UpToClosing(opening, x.body);
    PackedLongEnough(x, packet);
    var c := FoundAtClosing(s, opening, x.body, x.tail);
    FrameCut(opening, x.body, x.tail);
    assert y[..|a|] == a && y[..|a| + 1] == a + [false];
    FoundInPrefix(s, y, |a|, [c], k);
    PackedAccepted(x, packet, c);
    Deframer.CheckedOne(c);
  }

  /** The bits of the line up to the last bit of the closing flag. */
  function ClosingBit(x: Send): nat {
    8 * x.head + |Stuff(BytesBits(x.body))| + 7
  }

  lemma FrameTurned(x: Send)
    requires x.head >= 1
    ensures Turned(FrameBits(x.head, x.body, x.tail), x.inverted) ==
            FrameAfter(Opening(x.head, x.inverted), x.body, x.tail)
  {
    assert Flags(x.head) != [];
  }

  /** One packet to a fresh receiver, in either polarity: nothing is delivered before the last bit of the first
      tail flag, exactly the packet with that bit, and nothing more however many flags follow. */
  lemma OnceAtClosingFlag(p: nat, packet: Packet, x: Send, k: nat, ones: nat, buffer: seq<byte>)
    requires p >= 15 && ones < 256 && |buffer| == Deframer.BUFFER_LEN
    requires Packs(x, packet) && |x.body| <= 255
    requires x.head >= (if x.inverted then 2 else 1) && x.tail >= 1
    requires k <= |SentLine(x.head, x.body, x.tail)|
    ensures var line := Heard(SentLine(x.head, x.body, x.tail), x.inverted);
      Deliveries(p, Fresh(ones, buffer), BitDetector.Stretch(line[..k], p)) ==
        if k <= ClosingBit(x) then [] else [packet]
  {
    var opening := Opening(x.head, x.inverted);
    FrameBitsOnes(x.head, x.body, x.tail);
    FreshPrefix(p, FrameBits(x.head, x.body, x.tail), k, ones, buffer, x.inverted);
    FrameTurned(x);
    if x.inverted {
      TurnedHeadOpens(x.head);
    } else {
      HeadOpens(x.head);
    }
    FrameClosing(Deframer.Reset(ones, buffer), opening, x, k, packet);
  }
}
