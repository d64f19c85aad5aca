/** The sending end of the frame layer: src/hamstuff/ax25_framer.c.

    Bits go into an array of 256 words of 32 bits, which is never cleared: every bit is OR-ed into what
    the memory held before.  The reference is the plain bit string `FrameBits`. */
module Framer {
  import opened Bits
  import opened Hdlc
  import opened Ax25Packet
  import PacketStruct

  const BUFFER_WORDS := 256
  const WORD_BITS := 32
  const CAPACITY := 8192
  const MAX_PACKED_PACKET_SIZE := 512

  // ----- bits in words -----

  predicate WordBit(w: bv32, k: nat)
    requires k < WORD_BITS
  {
    (w >> k) & 1 == 1
  }

  function SetBit(w: bv32, k: nat): bv32
    requires k < WORD_BITS
  {
    w | (1 << k)
  }

  lemma SetBitInWord(w: bv32, p: bv32, q: bv32)
    requires p < 32 && q < 32
    ensures ((w | (1 << p)) >> q) & 1 == 1 <==> (p == q || (w >> q) & 1 == 1)
  {
  }

  lemma SetBitSets(w: bv32, p: nat, q: nat)
    requires p < WORD_BITS && q < WORD_BITS
    ensures WordBit(SetBit(w, p), q) <==> (p == q || WordBit(w, q))
  {
    SetBitInWord(w, p as bv32, q as bv32);
  }

  /** The memory as one string of bits. */
  function MemoryBits(words: seq<bv32>): (r: seq<bit>)
    requires |words| == BUFFER_WORDS
    ensures |r| == CAPACITY
  {
    seq(CAPACITY, k requires 0 <= k < CAPACITY => WordBit(words[k / WORD_BITS], k % WORD_BITS))
  }

  lemma MemorySet(words: seq<bv32>, unit: nat, pos: nat)
    requires |words| == BUFFER_WORDS && unit < BUFFER_WORDS && pos < WORD_BITS
    ensures MemoryBits(words[unit := SetBit(words[unit], pos)]) == MemoryBits(words)[WORD_BITS * unit + pos := true]
  {
    var after := words[unit := SetBit(words[unit], pos)];
    forall k | 0 <= k < CAPACITY
      ensures MemoryBits(after)[k] == MemoryBits(words)[WORD_BITS * unit + pos := true][k]
    {
      if k / WORD_BITS == unit {
        SetBitSets(words[unit], pos, k % WORD_BITS);
      }
    }
  }

  // ----- the stream in the memory -----

  /** `s` OR-ed into the memory from its start on, as far as it fits. */
  function Overlay(mem: seq<bit>, s: seq<bit>): (r: seq<bit>)
    ensures |r| == |mem|
  {
    seq(|mem|, k requires 0 <= k < |mem| => mem[k] || (k < |s| && s[k]))
  }

  function Fitting(n: nat): nat {
    if n <= CAPACITY then n else CAPACITY
  }

  lemma OverlaySnoc(mem: seq<bit>, s: seq<bit>, b: bit)
    ensures Overlay(mem, s + [b]) ==
      if |s| < |mem| then Overlay(mem, s)[|s| := mem[|s|] || b] else Overlay(mem, s)
  {
  }

  /** The memory has no 1 where a 0 is meant. */
  predicate Clean(mem: seq<bit>, s: seq<bit>)
    requires |mem| == CAPACITY
  {
    forall k | 0 <= k < Fitting(|s|) :: mem[k] ==> s[k]
  }

  /** What is read back: the first 8192 bits of what was inserted, each OR-ed with what the memory held. */
  lemma ReadBack(mem: seq<bit>, s: seq<bit>, stored: seq<bit>)
    requires |mem| == 8192 && stored == Overlay(mem, s)[..Fitting(|s|)]
    ensures |stored| == if |s| <= 8192 then |s| else 8192
    ensures forall k | 0 <= k < |stored| :: stored[k] <==> mem[k] || s[k]
  {
  }

  /** What is read back is all that was inserted exactly when it fits and the old memory is clean. */
  lemma ReadBackIffClean(mem: seq<bit>, s: seq<bit>)
    requires |mem| == 8192
    ensures Overlay(mem, s)[..Fitting(|s|)] == s <==> |s| <= 8192 && Clean(mem, s)
  {
    var n := Fitting(|s|);
    if Overlay(mem, s)[..n] == s {
      forall k | 0 <= k < n && mem[k]
        ensures s[k]
      {
        assert Overlay(mem, s)[..n][k] == s[k];
      }
    }
  }

  // ----- the structure -----

  class FramerStruct {
    var headFlags: nat
    var tailFlags: nat
    const bitBuffer: array<bv32>
    var bitBufferUnit: nat
    var bitBufferBit: nat
    var bitBufferTotalBits: nat
    var readingBit: nat

    ghost predicate Valid()
      reads this
    {
      && bitBuffer.Length == BUFFER_WORDS
      && bitBufferBit < WORD_BITS && bitBufferTotalBits <= CAPACITY
      && bitBufferTotalBits == WORD_BITS * bitBufferUnit + bitBufferBit
    }

    ghost function Memory(): (r: seq<bit>)
      requires bitBuffer.Length == BUFFER_WORDS
      reads bitBuffer
      ensures |r| == CAPACITY
    {
      MemoryBits(bitBuffer[..])
    }

    /** hs_ax25_framer_init on a structure that lies in memory with any contents. */
    constructor (memory: array<bv32>)
      requires memory.Length == 256
      ensures Valid() && bitBuffer == memory && headFlags == 4 && tailFlags == 2
      ensures bitBufferTotalBits == 0 && readingBit == 0
    {
      bitBuffer := memory;
      headFlags := 4;
      tailFlags := 2;
      bitBufferUnit := 0;
      bitBufferBit := 0;
      bitBufferTotalBits := 0;
      readingBit := 0;
    }

    /** The stream `s` has been put into what was `mem`. */
    ghost predicate Holds(mem: seq<bit>, s: seq<bit>)
      reads this, bitBuffer
    {
      Valid() && |mem| == CAPACITY && Memory() == Overlay(mem, s) && bitBufferTotalBits == Fitting(|s|)
    }

    /** _hs_ax25_insert_bit. */
    method InsertBit(b: bit, ghost mem: seq<bit>, ghost s: seq<bit>)
      requires Holds(mem, s)
      modifies this`bitBufferUnit, this`bitBufferBit, this`bitBufferTotalBits, bitBuffer
      ensures Holds(mem, s + [b])
    {
      OverlaySnoc(mem, s, b);
      if bitBufferUnit >= BUFFER_WORDS {
        return;
      }
      if b {
        ghost var words := bitBuffer[..];
        MemorySet(words, bitBufferUnit, bitBufferBit);
        bitBuffer[bitBufferUnit] := SetBit(bitBuffer[bitBufferUnit], bitBufferBit);
        assert bitBuffer[..] == words[bitBufferUnit := SetBit(words[bitBufferUnit], bitBufferBit)];
      }
      bitBufferBit := bitBufferBit + 1;
      bitBufferTotalBits := bitBufferTotalBits + 1;
      if bitBufferBit >= WORD_BITS {
        bitBufferUnit := bitBufferUnit + 1;
        bitBufferBit := 0;
      }
    }

    /** _hs_ax25_insert_byte. */
    method InsertByte(byte: byte, ghost mem: seq<bit>, ghost s: seq<bit>)
      requires Holds(mem, s)
      modifies this`bitBufferUnit, this`bitBufferBit, this`bitBufferTotalBits, bitBuffer
      ensures Holds(mem, s + ByteBits(byte))
    {
      assert s + ByteBits(byte)[..0] == s;
      for i := 0 to 8
        invariant Holds(mem, s + ByteBits(byte)[..i])
      {
        InsertBit(BitOf(byte, i), mem, s + ByteBits(byte)[..i]);
        assert s + ByteBits(byte)[..i] + [BitOf(byte, i)] == s + ByteBits(byte)[..i + 1];
      }
      assert ByteBits(byte)[..8] == ByteBits(byte);
    }

    /** The loops that insert flags. */
    method InsertFlags(n: nat, ghost mem: seq<bit>, ghost s: seq<bit>)
      requires Holds(mem, s)
      modifies this`bitBufferUnit, this`bitBufferBit, this`bitBufferTotalBits, bitBuffer
      ensures Holds(mem, s + Flags(n))
    {
      assert s + Flags(0) == s;
      FlagBitsAreFlag();
      for i := 0 to n
        invariant Holds(mem, s + Flags(i))
      {
        InsertByte(FLAG, mem, s + Flags(i));
        Assoc(s, Flags(i), FlagBits());
      }
    }

    /** One bit of the body, with a 0 after it if it is the fifth 1 in a row. */
    method InsertStuffed(b: bit, ones: nat, ghost mem: seq<bit>, ghost s: seq<bit>, ghost d: seq<bit>)
      returns (ones': nat)
      requires Holds(mem, s + Stuff(d)) && ones == SenderOnes(d)
      modifies this`bitBufferUnit, this`bitBufferBit, this`bitBufferTotalBits, bitBuffer
      ensures Holds(mem, s + Stuff(d + [b])) && ones' == SenderOnes(d + [b])
    {
      StuffGrows(s, d, b);
      InsertBit(b, mem, s + Stuff(d));
      ones' := if b then ones + 1 else 0;
      if ones' == 5 {
        InsertBit(false, mem, s + Stuff(d) + [b]);
        ones' := 0;
      }
    }

    /** The inner loop: the bits of one byte of the body. */
    method InsertStuffedByte(byte: byte, ones: nat, ghost mem: seq<bit>, ghost s: seq<bit>, ghost d: seq<bit>)
      returns (ones': nat)
      requires Holds(mem, s + Stuff(d)) && ones == SenderOnes(d)
      modifies this`bitBufferUnit, this`bitBufferBit, this`bitBufferTotalBits, bitBuffer
      ensures Holds(mem, s + Stuff(d + ByteBits(byte))) && ones' == SenderOnes(d + ByteBits(byte))
    {
      ones' := ones;
      FirstBitsEnds(d, byte);
      for j := 0 to 8
        invariant Holds(mem, s + Stuff(FirstBits(d, byte, j))) && ones' == SenderOnes(FirstBits(d, byte, j))
      {
        FirstBitsGrow(d, byte, j);
        ones' := InsertStuffed(BitOf(byte, j), ones', mem, s, FirstBits(d, byte, j));
      }
    }

    /** The outer loop: all bytes of the body. */
    method InsertBody(body: array<byte>, n: nat, ghost mem: seq<bit>, ghost s: seq<bit>)
      requires n <= body.Length && Holds(mem, s)
      modifies this`bitBufferUnit, this`bitBufferBit, this`bitBufferTotalBits, bitBuffer
      ensures Holds(mem, s + Stuff(BytesBits(body[..n])))
    {
      var ones := 0;
      assert s + Stuff(BytesBits(body[..0])) == s;
      for i := 0 to n
        invariant Holds(mem, s + Stuff(BytesBits(body[..i]))) && ones == SenderOnes(BytesBits(body[..i]))
      {
        ones := InsertStuffedByte(body[i], ones, mem, s, BytesBits(body[..i]));
        assert Front(body[..i + 1]) == body[..i];
      }
    }

    /** hs_ax25_framer_process. */
    method Process(packet: PacketStruct.PacketStruct) returns (totalBits: nat)
      requires Valid() && packet.Valid()
      requires this !in packet.Repr() && bitBuffer !in packet.Repr()
      modifies this`bitBufferUnit, this`bitBufferBit, this`bitBufferTotalBits, this`readingBit, bitBuffer
      ensures packet.Valid() && packet.Value() == old(packet.Value()) && packet.Value().Packable()
      ensures readingBit == 0 && totalBits == bitBufferTotalBits
      ensures Holds(old(Memory()), Flags(headFlags) + Stuff(BytesBits(Pack(packet.Value()))) + Flags(tailFlags))
    {
      packet.ValueCalls();
      ghost var mem, body := Memory(), Pack(packet.Value());
      FillMemory(packet, mem, body);
      totalBits := bitBufferTotalBits;
    }

    method FillMemory(packet: PacketStruct.PacketStruct, ghost mem: seq<bit>, ghost body: seq<byte>)
      requires Valid() && mem == Memory()
      requires packet.Valid() && packet.Value().Packable() && body == Pack(packet.Value())
      requires this !in packet.Repr() && bitBuffer !in packet.Repr()
      modifies this`bitBufferUnit, this`bitBufferBit, this`bitBufferTotalBits, this`readingBit, bitBuffer
      ensures packet.Valid() && packet.Value() == old(packet.Value())
      ensures readingBit == 0 && Holds(mem, Flags(headFlags) + Stuff(BytesBits(body)) + Flags(tailFlags))
    {
      Restart();
      packet.SameValue();
      InsertFrame(packet, mem, body);
      Rewind(mem, FrameBits(headFlags, body, tailFlags));
      packet.SameValue();
    }

    method Restart()
      requires Valid()
      modifies this`bitBufferUnit, this`bitBufferBit, this`bitBufferTotalBits
      ensures Valid() && bitBufferTotalBits == 0
    {
      bitBufferUnit := 0;
      bitBufferBit := 0;
      bitBufferTotalBits := 0;
    }

    method Rewind(ghost mem: seq<bit>, ghost s: seq<bit>)
      requires Holds(mem, s)
      modifies this`readingBit
      ensures Holds(mem, s) && readingBit == 0
    {
      readingBit := 0;
    }

    method InsertFrame(packet: PacketStruct.PacketStruct, ghost mem: seq<bit>, ghost body: seq<byte>)
      requires Valid() && bitBufferTotalBits == 0 && mem == Memory()
      requires packet.Valid() && packet.Value().Packable() && body == Pack(packet.Value())
      requires this !in packet.Repr() && bitBuffer !in packet.Repr()
      modifies this`bitBufferUnit, this`bitBufferBit, this`bitBufferTotalBits, bitBuffer
      ensures Holds(mem, FrameBits(headFlags, body, tailFlags))
    {
      InsertHead(mem);
      packet.SameValue();
      InsertPacket(packet, mem, Flags(headFlags), body);
      InsertFlags(tailFlags, mem, Flags(headFlags) + Stuff(BytesBits(body)));
    }

    method InsertHead(ghost mem: seq<bit>)
      requires Valid() && bitBufferTotalBits == 0 && mem == Memory()
      modifies this`bitBufferUnit, this`bitBufferBit, this`bitBufferTotalBits, bitBuffer
      ensures Holds(mem, Flags(headFlags))
    {
      assert Overlay(mem, []) == mem;
      InsertFlags(headFlags, mem, []);
      assert [] + Flags(headFlags) == Flags(headFlags);
    }

    /** The packet is packed into a buffer of its own and goes in with stuffing. */
    method InsertPacket(packet: PacketStruct.PacketStruct, ghost mem: seq<bit>, ghost s: seq<bit>, ghost body: seq<byte>)
      requires Holds(mem, s) && packet.Valid() && packet.Value().Packable() && body == Pack(packet.Value())
      requires this !in packet.Repr() && bitBuffer !in packet.Repr()
      modifies this`bitBufferUnit, this`bitBufferBit, this`bitBufferTotalBits, bitBuffer
      ensures Holds(mem, s + Stuff(BytesBits(body)))
    {
      var packedPacket := new byte[MAX_PACKED_PACKET_SIZE];
      packet.SameValue();
      var n := packet.Pack(packedPacket);
      InsertBody(packedPacket, n, mem, s);
    }

    /** hs_ax25_framer_next_bit; None is the -1 at the end. */
    method NextBit() returns (b: Option<bit>)
      requires Valid()
      modifies this`readingBit
      ensures b == if old(readingBit) < bitBufferTotalBits then Some(Memory()[old(readingBit)]) else None
      ensures readingBit == if b == None then old(readingBit) else old(readingBit) + 1
    {
      if readingBit >= bitBufferTotalBits {
        return None;
      }
      var unitIdx := readingBit / WORD_BITS;
      var bitIdx := readingBit % WORD_BITS;
      b := Some((bitBuffer[unitIdx] >> bitIdx) & 1 == 1);
      readingBit := readingBit + 1;
    }
  }

  function FirstBits(d: seq<bit>, byte: byte, j: nat): seq<bit>
    requires j <= 8
  {
    d + ByteBits(byte)[..j]
  }

  lemma FirstBitsGrow(d: seq<bit>, byte: byte, j: nat)
    requires j < 8
    ensures FirstBits(d, byte, j + 1) == FirstBits(d, byte, j) + [BitOf(byte, j)]
  {
  }

  lemma FirstBitsEnds(d: seq<bit>, byte: byte)
    ensures FirstBits(d, byte, 0) == d && FirstBits(d, byte, 8) == d + ByteBits(byte)
  {
  }

  lemma StuffGrows(s: seq<bit>, d: seq<bit>, b: bit)
    ensures s + Stuff(d + [b]) ==
      if b && SenderOnes(d) == 4 then s + Stuff(d) + [b] + [false] else s + Stuff(d) + [b]
    ensures SenderOnes(d + [b]) == if !b || SenderOnes(d) == 4 then 0 else SenderOnes(d) + 1
  {
    assert Front(d + [b]) == d;
  }
}
