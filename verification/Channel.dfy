/** From the modulator's packets to the demodulator's: the ideal channel and the theorem about both ends.

    The FSK generator and detector (src/modemstuff/fsk.c) are replaced by the channel: every line bit is
    heard as the same whole number of soft symbols, all of the right sign or all of the wrong one. */
module Channel {
  import opened Bits
  import opened Hdlc
  import opened LineCode
  import opened Ax25Packet
  import BitDetector
  import Deframer
  import Framer
  import Link
  import Session

  /** What is on the line when the framer's memory held `mem`. */
  function LineOver(mem: seq<bit>, frame: seq<bit>): seq<bit>
    requires |mem| == Framer.CAPACITY
  {
    Encoded(false, Framer.Overlay(mem, frame)[..Framer.Fitting(|frame|)])
  }

  /** The line carries the frame exactly when the frame fits into the memory and the memory was clean. */
  lemma LineIffClean(mem: seq<bit>, head: nat, body: seq<byte>, tail: nat)
    requires |mem| == 8192
    ensures var frame := Flags(head) + Stuff(BytesBits(body)) + Flags(tail);
      LineOver(mem, frame) == Encoded(false, frame) <==> |frame| <= 8192 && Framer.Clean(mem, frame)
  {
    var frame := FrameBits(head, body, tail);
    var stored := Framer.Overlay(mem, frame)[..Framer.Fitting(|frame|)];
    Framer.ReadBackIffClean(mem, frame);
    if LineOver(mem, frame) == Link.SentLine(head, body, tail) {
      EncodedInjective(false, stored, frame);
    }
  }

  /** One stray 1 under the first bit of the first flag is enough to spoil the line. */
  lemma StrayBitSpoilsLine(mem: seq<bit>, head: nat, body: seq<byte>, tail: nat)
    requires mem == [true] + seq(8191, _ => false) && head >= 1
    ensures LineOver(mem, FrameBits(head, body, tail)) != Link.SentLine(head, body, tail)
  {
    Link.FrameBitsOnes(head, body, tail);
    LineIffClean(mem, head, body, tail);
    assert mem[0] && !FrameBits(head, body, tail)[0];
  }

  function SymbolLevels(symbols: seq<real>): (r: seq<bit>)
    ensures |r| == |symbols|
  {
    seq(|symbols|, i requires 0 <= i < |symbols| => symbols[i] > 0.0)
  }

  /** All symbols have this sign. */
  predicate Signs(symbols: seq<real>, v: bit) {
    forall k | 0 <= k < |symbols| :: (symbols[k] > 0.0) == v
  }

  /** Each line bit arrives as `p` symbols of the right sign, or all of the wrong sign. */
  predicate Carried(line: seq<bit>, p: nat, inverted: bool, symbols: seq<real>) {
    if line == [] then symbols == []
    else
      var n := |symbols| - p;
      n >= 0 && Carried(Front(line), p, inverted, symbols[..n]) && Signs(symbols[n..], Last(line) != inverted)
  }

  lemma {:induction false} SignsLevels(symbols: seq<real>, v: bit)
    requires Signs(symbols, v)
    ensures SymbolLevels(symbols) == BitDetector.Same(v, |symbols|)
  {
    if symbols == [] {
    } else {
      SignsLevels(Front(symbols), v);
      SymbolLevelsConcat(Front(symbols), [Last(symbols)]);
      FrontLast(symbols);
    }
  }

  lemma SymbolLevelsConcat(a: seq<real>, b: seq<real>)
    ensures SymbolLevels(a + b) == SymbolLevels(a) + SymbolLevels(b)
  {
  }

  lemma {:induction false} CarriedLevels(line: seq<bit>, p: nat, inverted: bool, symbols: seq<real>)
    requires Carried(line, p, inverted, symbols)
    ensures SymbolLevels(symbols) == BitDetector.Stretch(Heard(line, inverted), p)
  {
    if line == [] {
    } else {
      var n := |symbols| - p;
      CarriedLevels(Front(line), p, inverted, symbols[..n]);
      SignsLevels(symbols[n..], Last(line) != inverted);
      SymbolLevelsConcat(symbols[..n], symbols[n..]);
      assert symbols[..n] + symbols[n..] == symbols;
      assert Front(Heard(line, inverted)) == Heard(Front(line), inverted);
    }
  }

  // ----- end to end -----

  /** One transmission: the packet, the flags, the framer's memory, and what the detector makes of it; before
      that, what it makes of the idle line, which stays at one level. */
  datatype Call = Call(packet: Packet, head: nat, tail: nat, mem: seq<bit>, inverted: bool, symbols: seq<real>,
                       idle: seq<real>, level: bit)
  {
    /** What the sender has to keep to. */
    predicate Fits() {
      && packet.WellFormed()
      && head >= 2 && tail >= 1 && |FrameBits(head, Pack(packet), tail)| <= 8192
      && |mem| == 8192 && Framer.Clean(mem, FrameBits(head, Pack(packet), tail))
    }

    /** It takes at most 255 bytes. */
    predicate Short() {
      packet.Packable() && |Pack(packet)| <= 255
    }

    /** The modulator sent it and the channel carried it. */
    predicate Arrives(p: nat)
      requires Fits()
    {
      Carried(LineOver(mem, FrameBits(head, Pack(packet), tail)), p, inverted, symbols) && Signs(idle, level)
    }

    function Turn(): Session.Turn
      requires Fits()
    {
      Session.Turn(|idle|, level, Link.Send(Pack(packet), head, tail, inverted), packet)
    }
  }

  lemma ArrivesAsSent(p: nat, call: Call)
    requires call.Fits() && call.Arrives(p)
    ensures SymbolLevels(call.idle + call.symbols) == call.Turn().Levels(p)
  {
    LineIffClean(call.mem, call.head, Pack(call.packet), call.tail);
    CarriedLevels(Link.SentLine(call.head, Pack(call.packet), call.tail), p, call.inverted, call.symbols);
    SignsLevels(call.idle, call.level);
    SymbolLevelsConcat(call.idle, call.symbols);
  }

  function AllSymbols(calls: seq<Call>): seq<real> {
    if calls == [] then [] else AllSymbols(Front(calls)) + (Last(calls).idle + Last(calls).symbols)
  }

  function Turns(calls: seq<Call>): (r: seq<Session.Turn>)
    requires forall call | call in calls :: call.Fits()
    ensures |r| == |calls|
  {
    seq(|calls|, i requires 0 <= i < |calls| => calls[i].Turn())
  }

  function Packets(calls: seq<Call>): (r: seq<Packet>)
    ensures |r| == |calls|
  {
    seq(|calls|, i requires 0 <= i < |calls| => calls[i].packet)
  }

  lemma {:induction false} AllArriveAsSent(p: nat, calls: seq<Call>)
    requires forall call | call in calls :: call.Fits() && call.Arrives(p)
    ensures SymbolLevels(AllSymbols(calls)) == Session.AllLevels(p, Turns(calls))
  {
    if calls == [] {
    } else {
      AllArriveAsSent(p, Front(calls));
      ArrivesAsSent(p, Last(calls));
      SymbolLevelsConcat(AllSymbols(Front(calls)), Last(calls).idle + Last(calls).symbols);
      assert Front(Turns(calls)) == Turns(Front(calls));
    }
  }

  lemma TurnsAreValid(calls: seq<Call>)
    requires forall call | call in calls :: call.Fits()
    ensures forall i | 0 <= i < |calls| :: Turns(calls)[i].Valid()
    ensures Session.Packets(Turns(calls)) == Packets(calls)
    ensures (forall i | 0 <= i < |calls| :: Turns(calls)[i].Short()) <==> forall call | call in calls :: call.Short()
  {
    forall i | 0 <= i < |calls|
      ensures Turns(calls)[i].Valid() && (Turns(calls)[i].Short() <==> calls[i].Short())
    {
      assert calls[i] in calls && Turns(calls)[i] == calls[i].Turn();
    }
  }

  /** What the modulator sends, any number of times and with the line idle for any time before each and after
      all, is what the demodulator hands to its callback: the same packets in the same order and no others, in
      either polarity, from fifteen samples per bit on -- if and only if each of them takes at most 255 bytes.
      Tnc.Modulate computes the line and Tnc.Demodulator.Process the deliveries. */
  lemma EndToEnd(p: nat, calls: seq<Call>, rest: seq<real>, level: bit, ones: nat, buffer: seq<byte>)
    requires p >= 15 && ones < 256 && |buffer| == Deframer.BUFFER_LEN
    requires (forall call | call in calls :: call.Fits() && call.Arrives(p)) && Signs(rest, level)
    ensures Link.Deliveries(p, Link.Fresh(ones, buffer), SymbolLevels(AllSymbols(calls) + rest)) == Packets(calls) <==>
            forall call | call in calls :: call.packet.Packable() && |Pack(call.packet)| <= 255
  {
    AllArriveAsSent(p, calls);
    SignsLevels(rest, level);
    SymbolLevelsConcat(AllSymbols(calls), rest);
    TurnsAreValid(calls);
    Session.ShortMeans(Turns(calls));
    Session.AllDeliveredIffShort(p, Turns(calls), level, |rest|, ones, buffer);
  }
}
