/** The two ends of the link as the program runs them: apps/ax25tnc/modulator.c and demodulator.c.

    The FSK generator and detector between them are not modelled: the modulator hands on the level of
    each line bit, the demodulator starts from the soft symbol of each sample. */
module Tnc {
  import opened Bits
  import opened Hdlc
  import opened LineCode
  import opened Ax25Packet
  import BitDetector
  import Deframer
  import DeframerStruct
  import Framer
  import Link
  import opened Channel
  import PacketStruct

  const DEFAULT_TX_DELAY := 320
  const DEFAULT_TX_TAIL := 80
  const MIN_HEAD_FLAGS := 4
  const MIN_TAIL_FLAGS := 2

  /** The flags that take so long, in thousandths of a line bit, but at least so many. */
  function FlagCount(duration: real, least: nat): (n: nat)
    ensures n >= least
    ensures n > least ==> 8000.0 * n as real <= duration
    ensures duration < 8000.0 * (n + 1) as real
  {
    var flags := duration / 8000.0;
    if flags > least as real then flags.Floor else least
  }

  class Modulator {
    const baudRate: real
    var txDelay: int
    var txTail: int

    constructor (baudRate: real)
      ensures this.baudRate == baudRate && txDelay == 320 && txTail == 80
    {
      this.baudRate := baudRate;
      txDelay := DEFAULT_TX_DELAY;
      txTail := DEFAULT_TX_TAIL;
    }

    /** ax25tnc_modulator_process up to the samples.  The flags before and after the packet take the delay and
        the tail, in milliseconds and rounded down, but are at least four and two. */
    method Process(packet: PacketStruct.PacketStruct, memory: array<bv32>, ghost delay: real, ghost after: real)
      returns (line: seq<bit>, ghost head: nat, ghost tail: nat)
      requires packet.Valid() && memory.Length == 256 && memory !in packet.Repr()
      requires delay == txDelay as real * baudRate && after == txTail as real * baudRate
      modifies memory
      ensures packet.Valid() && packet.Value() == old(packet.Value()) && packet.Value().Packable()
      ensures head >= 4 && delay < 8000.0 * (head + 1) as real && (head > 4 ==> 8000.0 * head as real <= delay)
      ensures tail >= 2 && after < 8000.0 * (tail + 1) as real && (tail > 2 ==> 8000.0 * tail as real <= after)
      ensures line == LineOver(old(Framer.MemoryBits(memory[..])),
                               Flags(head) + Stuff(BytesBits(Pack(packet.Value()))) + Flags(tail))
    {
      var headFlags, tailFlags := FlagNumbers(delay, after);
      head, tail := headFlags, tailFlags;
      line := Modulate(packet, headFlags, tailFlags, memory);
    }

    method FlagNumbers(ghost delay: real, ghost after: real) returns (head: nat, tail: nat)
      requires delay == txDelay as real * baudRate && after == txTail as real * baudRate
      ensures head >= 4 && delay < 8000.0 * (head + 1) as real && (head > 4 ==> 8000.0 * head as real <= delay)
      ensures tail >= 2 && after < 8000.0 * (tail + 1) as real && (tail > 2 ==> 8000.0 * tail as real <= after)
    {
      head := FlagCount(txDelay as real * baudRate, MIN_HEAD_FLAGS);
      tail := FlagCount(txTail as real * baudRate, MIN_TAIL_FLAGS);
    }
  }

  /** The framer is a local structure in memory with any contents. */
  method Modulate(packet: PacketStruct.PacketStruct, head: nat, tail: nat, memory: array<bv32>) returns (line: seq<bit>)
    requires packet.Valid() && memory.Length == Framer.BUFFER_WORDS && memory !in packet.Repr()
    modifies memory
    ensures packet.Valid() && packet.Value() == old(packet.Value()) && packet.Value().Packable()
    ensures line == LineOver(old(Framer.MemoryBits(memory[..])), FrameBits(head, Pack(packet.Value()), tail))
  {
    var framer := new Framer.FramerStruct(memory);
    framer.headFlags := head;
    framer.tailFlags := tail;
    packet.SameValue();
    var total := framer.Process(packet);
    ghost var sent := framer.Memory()[..total];
    line := Drain(framer, sent);
    packet.SameValue();
  }

  /** `line` is the code of the bits read so far, and `b` is the next bit. */
  ghost predicate Draining(framer: Framer.FramerStruct, level: bit, sent: seq<bit>, line: seq<bit>, b: Option<bit>)
    reads framer, framer.bitBuffer
  {
    && framer.Valid() && sent == framer.Memory()[..framer.bitBufferTotalBits]
    && |line| <= |sent| && line == Encoded(false, sent[..|line|]) && level == LevelAfter(false, line)
    && b == (if |line| < |sent| then Some(sent[|line|]) else None)
    && framer.readingBit == if |line| < |sent| then |line| + 1 else |line|
  }

  method DrainBit(framer: Framer.FramerStruct, nrzi: NrziEncoder, ghost sent: seq<bit>, line: seq<bit>, b: Option<bit>)
    returns (line': seq<bit>, b': Option<bit>)
    requires Draining(framer, nrzi.nrziBit, sent, line, b) && b != None
    modifies framer`readingBit, nrzi
    ensures Draining(framer, nrzi.nrziBit, sent, line', b') && |line'| == |line| + 1
  {
    assert Front(sent[..|line| + 1]) == sent[..|line|];
    var level := nrzi.Encode(b.value);
    line' := line + [level];
    b' := framer.NextBit();
  }

  /** The loop that empties the framer into the line encoder. */
  method Drain(framer: Framer.FramerStruct, ghost sent: seq<bit>) returns (line: seq<bit>)
    requires framer.Valid() && framer.readingBit == 0
    requires sent == framer.Memory()[..framer.bitBufferTotalBits]
    modifies framer`readingBit
    ensures line == Encoded(false, sent)
  {
    var nrzi := new NrziEncoder();
    line := [];
    assert sent[..0] == [];
    var b := framer.NextBit();
    while b != None
      invariant Draining(framer, nrzi.nrziBit, sent, line, b)
      decreases |sent| - |line|
    {
      line, b := DrainBit(framer, nrzi, sent, line, b);
    }
    assert sent[..|line|] == sent;
  }

  // ----- receiving -----

  /** What the first two stages make of a sample. */
  function DecodedBit(r: Link.Receiver, level: bit): Option<bit> {
    var b := BitDetector.Emitted(r.detector, level);
    if b == None then None else Some(b.value == r.level)
  }

  function AfterDecoder(p: nat, r: Link.Receiver, level: bit): Link.Receiver {
    var b := BitDetector.Emitted(r.detector, level);
    r.(detector := BitDetector.Next(p, r.detector, level), level := if b == None then r.level else b.value)
  }

  /** One sample through all stages. */
  lemma ReceiveOne(p: nat, r: Link.Receiver, level: bit)
    requires r.deframer.Valid()
    ensures var d, t := DecodedBit(r, level), AfterDecoder(p, r, level);
      && Link.Receive(p, r, [level]) ==
         (if d == None then t else t.(deframer := Deframer.Next(r.deframer, d.value)))
      && Link.Deliveries(p, r, [level]) == if d == None then [] else Deframer.Report(r.deframer, d.value)
  {
    var b := BitDetector.Emitted(r.detector, level);
    BitDetector.RunSnoc(p, r.detector, [], level);
    assert [] + [level] == [level];
    assert BitDetector.Output(p, r.detector, [level]) == BitDetector.AsSeq(b);
    if b != None {
      assert Front([b.value]) == [];
      assert Decoded(r.level, [b.value]) == [b.value == r.level];
      Deframer.ReportsSnoc(r.deframer, [], b.value == r.level);
      Deframer.RunSnoc(r.deframer, [], b.value == r.level);
      assert [] + [b.value == r.level] == [b.value == r.level];
    }
  }

  class Demodulator {
    const detector: BitDetector.BitDetector
    const decoder: NrziDecoder
    const deframer: DeframerStruct.DeframerStruct

    ghost predicate Valid()
      reads deframer, deframer.buffer
    {
      deframer.Valid()
    }

    ghost function Value(): Link.Receiver
      reads detector, decoder, deframer, deframer.buffer
    {
      Link.Receiver(detector.Value(), decoder.lastBit, deframer.Value())
    }

    /** ax25tnc_demodulator_init on a structure with any contents. */
    constructor (bitPeriod: nat, ones: nat)
      requires ones < 256
      ensures Valid() && detector.bitPeriod == bitPeriod
      ensures fresh(detector) && fresh(decoder) && fresh(deframer) && fresh(deframer.buffer)
      ensures Value() == Link.Fresh(ones, deframer.buffer[..])
    {
      detector := new BitDetector.BitDetector(bitPeriod);
      decoder := new NrziDecoder();
      deframer := new DeframerStruct.DeframerStruct(ones);
    }

    /** The stages up to the line decoder. */
    method DecodeSample(symbol: real) returns (d: Option<bit>)
      requires Valid()
      modifies detector, decoder
      ensures Valid() && d == DecodedBit(old(Value()), symbol > 0.0)
      ensures Value() == AfterDecoder(detector.bitPeriod, old(Value()), symbol > 0.0)
    {
      var b := detector.Process(symbol);
      d := decoder.Decode(b);
    }

    /** The last stage. */
    method Deframe(b: bit, packet: PacketStruct.PacketStruct) returns (out: seq<Packet>)
      requires Valid() && packet.Valid()
      requires packet.Repr() !! {detector, decoder, deframer, deframer.buffer}
      modifies deframer, deframer.buffer, packet.Repr()
      ensures Valid() && packet.Valid()
      ensures Value() == old(Value()).(deframer := Deframer.Next(old(Value()).deframer, b))
      ensures out == Deframer.Report(old(Value()).deframer, b)
    {
      var ready := deframer.Process(packet, b);
      out := if ready then [packet.Value()] else [];
    }

    /** One pass of the loop of ax25tnc_demodulator_process: what the callback gets. */
    method Sample(symbol: real, packet: PacketStruct.PacketStruct) returns (out: seq<Packet>)
      requires Valid() && packet.Valid()
      requires packet.Repr() !! {detector, decoder, deframer, deframer.buffer}
      modifies detector, decoder, deframer, deframer.buffer, packet.Repr()
      ensures Valid() && packet.Valid()
      ensures Value() == Link.Receive(detector.bitPeriod, old(Value()), [symbol > 0.0])
      ensures out == Link.Deliveries(detector.bitPeriod, old(Value()), [symbol > 0.0])
    {
      ReceiveOne(detector.bitPeriod, Value(), symbol > 0.0);
      out := [];
      var d := DecodeSample(symbol);
      packet.SameValue();
      if d != None {
        out := Deframe(d.value, packet);
      }
    }

    /** These symbols have been processed since the stages were `r`, and the callback got `out`. */
    ghost predicate Heard(r: Link.Receiver, symbols: seq<real>, out: seq<Packet>)
      reads detector, decoder, deframer, deframer.buffer
    {
      && Valid() && r.deframer.Valid()
      && Value() == Link.Receive(detector.bitPeriod, r, SymbolLevels(symbols))
      && out == Link.Deliveries(detector.bitPeriod, r, SymbolLevels(symbols))
    }

    method OneMore(symbols: seq<real>, i: nat, packet: PacketStruct.PacketStruct, out: seq<Packet>,
                   ghost r: Link.Receiver)
      returns (out': seq<Packet>)
      requires i < |symbols| && Heard(r, symbols[..i], out) && packet.Valid()
      requires packet.Repr() !! {detector, decoder, deframer, deframer.buffer}
      modifies detector, decoder, deframer, deframer.buffer, packet.Repr()
      ensures Heard(r, symbols[..i + 1], out') && packet.Valid()
    {
      OneMoreSample(detector.bitPeriod, r, symbols, i);
      var more := Sample(symbols[i], packet);
      out' := out + more;
    }

    method Samples(symbols: seq<real>, packet: PacketStruct.PacketStruct) returns (out: seq<Packet>)
      requires Valid() && packet.Valid()
      requires packet.Repr() !! {detector, decoder, deframer, deframer.buffer}
      modifies detector, decoder, deframer, deframer.buffer, packet.Repr()
      ensures Heard(old(Value()), symbols, out)
    {
      ghost var r := Value();
      out := [];
      NoSamples(detector.bitPeriod, r);
      assert symbols[..0] == [];
      for i := 0 to |symbols|
        invariant Heard(r, symbols[..i], out) && packet.Valid()
      {
        out := OneMore(symbols, i, packet, out, r);
      }
      assert symbols[..|symbols|] == symbols;
    }

    /** ax25tnc_demodulator_process from the soft symbols on: what the callback gets, in order. */
    method Process(symbols: seq<real>) returns (out: seq<Packet>)
      requires Valid()
      modifies detector, decoder, deframer, deframer.buffer
      ensures Valid()
      ensures Value() == Link.Receive(detector.bitPeriod, old(Value()), SymbolLevels(symbols))
      ensures out == Link.Deliveries(detector.bitPeriod, old(Value()), SymbolLevels(symbols))
    {
      var packet := new PacketStruct.PacketStruct();
      out := Samples(symbols, packet);
    }
  }

  lemma NoSamples(p: nat, r: Link.Receiver)
    requires r.deframer.Valid()
    ensures Link.Receive(p, r, SymbolLevels([])) == r && Link.Deliveries(p, r, SymbolLevels([])) == []
  {
    assert SymbolLevels([]) == [];
  }

  lemma OneMoreSample(p: nat, r: Link.Receiver, symbols: seq<real>, i: nat)
    requires r.deframer.Valid() && i < |symbols|
    ensures var a, b := SymbolLevels(symbols[..i]), [symbols[i] > 0.0];
      && SymbolLevels(symbols[..i + 1]) == a + b
      && Link.Receive(p, r, a + b) == Link.Receive(p, Link.Receive(p, r, a), b)
      && Link.Deliveries(p, r, a + b) == Link.Deliveries(p, r, a) + Link.Deliveries(p, Link.Receive(p, r, a), b)
  {
    assert SymbolLevels(symbols[..i + 1]) == SymbolLevels(symbols[..i]) + [symbols[i] > 0.0];
    Link.ReceiveConcat(p, r, SymbolLevels(symbols[..i]), [symbols[i] > 0.0]);
  }
}
