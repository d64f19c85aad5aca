/** Flags and bit stuffing (AX.25 v2.2, sections 3.1 and 3.6), on plain bit strings.

    The sender inserts a 0 after five 1s; the receiver drops a 0 that follows five 1s or more and takes
    a 0 after exactly six 1s for the end of a flag.  Everything here is about bit strings alone; the
    machines that work on them are in Framer.dfy and Deframer.dfy. */
module Hdlc {
  import opened Bits

  const FLAG: byte := 0x7e

  /** One flag in line order: six 1s between two 0s. */
  function FlagBits(): (r: seq<bit>)
    ensures |r| == 8
  {
    seq(8, i => 0 < i < 7)
  }

  lemma FlagBitsAreFlag()
    ensures ByteBits(FLAG) == FlagBits()
  {
    DropIsShift(FLAG);
  }

  function Trues(n: nat): (r: seq<bit>)
    ensures |r| == n
  {
    if n == 0 then [] else Trues(n - 1) + [true]
  }

  lemma {:induction false} TruesAre(n: nat)
    ensures forall k | 0 <= k < n :: Trues(n)[k]
  {
    if n == 0 {
    } else {
      TruesAre(n - 1);
    }
  }

  lemma FlagBitsShape()
    ensures FlagBits() == [false] + Trues(6) + [false]
  {
    TruesAre(6);
  }

  function Flags(n: nat): (r: seq<bit>)
    ensures |r| == 8 * n
  {
    if n == 0 then [] else Flags(n - 1) + FlagBits()
  }

  lemma {:induction false} FlagsFromFront(n: nat)
    requires n > 0
    ensures Flags(n) == FlagBits() + Flags(n - 1)
  {
    if n == 1 {
      assert Flags(0) == [];
      assert Flags(1) == Flags(0) + FlagBits();
    } else {
      FlagsFromFront(n - 1);
      Assoc(FlagBits(), Flags(n - 2), FlagBits());
    }
  }

  /** The number of 1s at the end of `bits`, when `from` 1s came just before them. */
  function Ones(bits: seq<bit>, from: nat): nat {
    if bits == [] then from
    else if Last(bits) then Ones(Front(bits), from) + 1
    else 0
  }

  // ----- the sender -----

  /** The sender's count of 1s after `bits`: it goes back to 0 at a 0, also at a stuffed one. */
  function SenderOnes(bits: seq<bit>): (r: nat)
    ensures r < 5
  {
    if bits == [] || !Last(bits) then 0
    else if SenderOnes(Front(bits)) == 4 then 0
    else SenderOnes(Front(bits)) + 1
  }

  /** What goes on the line for one more bit. */
  function Emitted(before: seq<bit>, b: bit): seq<bit> {
    if b && SenderOnes(before) == 4 then [true, false] else [b]
  }

  function Stuff(bits: seq<bit>): seq<bit> {
    if bits == [] then [] else Stuff(Front(bits)) + Emitted(Front(bits), Last(bits))
  }

  /** All bits of a frame: flags, the stuffed body, flags. */
  function FrameBits(head: nat, body: seq<byte>, tail: nat): seq<bit> {
    Flags(head) + Stuff(BytesBits(body)) + Flags(tail)
  }

  // ----- the receiver -----

  /** What is left when the stuffed 0s are dropped.  The receiver counts 1s in eight bits. */
  function Destuff(bits: seq<bit>, from: nat): seq<bit> {
    if bits == [] then []
    else if Last(bits) || Ones(Front(bits), from) % 256 < 5 then Destuff(Front(bits), from) + [Last(bits)]
    else Destuff(Front(bits), from)
  }

  lemma StepDestuff(bits: seq<bit>, b: bit, from: nat)
    ensures Ones(bits + [b], from) == if b then Ones(bits, from) + 1 else 0
    ensures Destuff(bits + [b], from) ==
            if b || Ones(bits, from) % 256 < 5 then Destuff(bits, from) + [b] else Destuff(bits, from)
  {
    assert Front(bits + [b]) == bits;
  }

  lemma DestuffEmitted(line: seq<bit>, p: seq<bit>, b: bit)
    requires Destuff(line, 0) == p && Ones(line, 0) == SenderOnes(p)
    ensures Destuff(line + Emitted(p, b), 0) == p + [b]
    ensures Ones(line + Emitted(p, b), 0) == SenderOnes(p + [b])
  {
    assert Front(p + [b]) == p;
    StepDestuff(line, b, 0);
    if b && SenderOnes(p) == 4 {
      StepDestuff(line + [true], false, 0);
      assert line + Emitted(p, b) == line + [true] + [false];
    }
  }

  /** Stuffing is transparent: the receiver gets back exactly the bits that were stuffed. */
  lemma {:induction false} DestuffStuff(bits: seq<bit>)
    ensures Destuff(Stuff(bits), 0) == bits
    ensures Ones(Stuff(bits), 0) == SenderOnes(bits)
  {
    if bits == [] {
    } else {
      DestuffStuff(Front(bits));
      DestuffEmitted(Stuff(Front(bits)), Front(bits), Last(bits));
      FrontLast(bits);
    }
  }

  /** At most one 0 is added for each five bits. */
  lemma {:induction false} StuffLength(bits: seq<bit>)
    ensures |bits| <= |Stuff(bits)|
    ensures 5 * (|Stuff(bits)| - |bits|) + SenderOnes(bits) <= |bits|
  {
    if bits == [] {
    } else {
      StuffLength(Front(bits));
    }
  }

  /** The length of a frame: eight bits for each flag and byte, and at most eight more for five bytes. */
  lemma FrameLength(head: nat, body: seq<byte>, tail: nat)
    ensures var stuffed := |Stuff(BytesBits(body))| - 8 * |body|;
      && |FrameBits(head, body, tail)| == 8 * (head + tail + |body|) + stuffed
      && 0 <= stuffed <= 8 * |body| / 5
  {
    StuffLength(BytesBits(body));
  }

  // ----- flag detection: the receiver's eight-bit window -----

  function Push(raw: byte, b: bit): byte {
    (raw << 1) | Unit(b)
  }

  /** The last eight bits, the newest in bit 0, with 0s where nothing has come yet. */
  function Raw(bits: seq<bit>): byte {
    if bits == [] then 0 else Push(Raw(Front(bits)), Last(bits))
  }

  function LowOnes(raw: byte): nat {
    if raw & 0x01 == 0 then 0 else if raw & 0x02 == 0 then 1 else if raw & 0x04 == 0 then 2
    else if raw & 0x08 == 0 then 3 else if raw & 0x10 == 0 then 4 else if raw & 0x20 == 0 then 5
    else if raw & 0x40 == 0 then 6 else if raw & 0x80 == 0 then 7 else 8
  }

  /** The window shows a flag exactly when a 0 follows exactly six 1s. */
  lemma FlagSeen(raw: byte, b: bit)
    ensures Push(raw, b) == FLAG <==> !b && LowOnes(raw) == 6
    ensures LowOnes(Push(raw, b)) == if !b then 0 else if LowOnes(raw) == 8 then 8 else LowOnes(raw) + 1
  {
  }

  lemma {:induction false} RawOnes(bits: seq<bit>)
    ensures LowOnes(Raw(bits)) == if Ones(bits, 0) < 8 then Ones(bits, 0) else 8
  {
    if bits == [] {
    } else {
      RawOnes(Front(bits));
      FlagSeen(Raw(Front(bits)), Last(bits));
    }
  }

  /** No flag ends anywhere in `bits`. */
  predicate Quiet(bits: seq<bit>) {
    bits == [] || (Quiet(Front(bits)) && Raw(bits) != FLAG)
  }

  lemma QuietStep(bits: seq<bit>, b: bit)
    requires Quiet(bits)
    ensures Quiet(bits + [b]) <==> b || Ones(bits, 0) != 6
    ensures Raw(bits + [b]) == Push(Raw(bits), b)
  {
    assert Front(bits + [b]) == bits;
    RawOnes(bits);
    FlagSeen(Raw(bits), b);
  }

  /** A stuffed body never looks like a flag. */
  lemma {:induction false} StuffQuiet(bits: seq<bit>)
    ensures Quiet(Stuff(bits))
  {
    if bits == [] {
    } else {
      var p, b := Front(bits), Last(bits);
      StuffQuiet(p);
      DestuffStuff(p);
      QuietStep(Stuff(p), b);
      if b && SenderOnes(p) == 4 {
        StepDestuff(Stuff(p), true, 0);
        QuietStep(Stuff(p) + [true], false);
        assert Stuff(bits) == Stuff(p) + [true] + [false];
      }
    }
  }
}
