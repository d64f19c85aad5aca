/** The structure of include/hamstuff/ax25_deframer.h and its two functions. */
module DeframerStruct {
  import opened Bits
  import opened Hdlc
  import opened Ax25Packet
  import opened Deframer
  import PacketStruct
  import Crc

  class DeframerStruct {
    const buffer: array<byte>
    var bufferPos: nat
    var rawBits: byte
    var unstuffedBits: byte
    var unstuffedBitCount: nat
    var onesCount: nat

    ghost function Value(): State
      reads this, buffer
    {
      State(rawBits, unstuffedBits, unstuffedBitCount, onesCount, bufferPos, buffer[..])
    }

    ghost predicate Valid()
      reads this, buffer
    {
      Value().Valid()
    }

    /** hs_ax25_deframer_init on a structure with any contents: the count of 1s keeps the value `ones`. */
    constructor (ones: nat)
      requires ones < 256
      ensures Valid() && fresh(buffer) && Value() == Reset(ones, buffer[..])
    {
      buffer := new byte[BUFFER_LEN];
      bufferPos := 0;
      rawBits := 0;
      unstuffedBits := 0;
      unstuffedBitCount := 0;
      onesCount := ones;
    }

    /** hs_ax25_deframer_process. */
    method Process(packet: PacketStruct.PacketStruct, b: bit) returns (ready: bool)
      requires Valid() && packet.Valid() && this !in packet.Repr() && buffer !in packet.Repr()
      modifies this, buffer, packet.Repr()
      ensures Valid() && packet.Valid()
      ensures Value() == Next(old(Value()), b)
      ensures Report(old(Value()), b) == if ready then [packet.Value()] else []
    {
      ghost var s := Value();
      rawBits := Push(rawBits, b);
      if rawBits == FLAG {
        ready := EndFrame(packet, b, s);
      } else {
        ready := false;
        NoReport(s, b);
        TakeIn(b, s);
      }
    }

    /** A flag: what has been collected is looked at, and collecting starts over. */
    method EndFrame(packet: PacketStruct.PacketStruct, b: bit, ghost s: State) returns (ready: bool)
      requires packet.Valid() && this !in packet.Repr() && buffer !in packet.Repr()
      requires s.Valid() && FlagEnds(s, b) && Value() == s.(raw := FLAG)
      modifies this, packet.Repr()
      ensures packet.Valid() && Value() == Reset(0, s.buffer)
      ensures Report(s, b) == if ready then [packet.Value()] else []
    {
      ready := CheckFrame(packet, b, s);
      ghost var unpacked := packet.Value();
      Restart();
      assert packet.Valid() && packet.Value() == unpacked;
    }

    method CheckFrame(packet: PacketStruct.PacketStruct, b: bit, ghost s: State) returns (ready: bool)
      requires packet.Valid() && this !in packet.Repr() && buffer !in packet.Repr()
      requires s.Valid() && FlagEnds(s, b) && Value() == s.(raw := FLAG)
      modifies packet.Repr()
      ensures packet.Valid()
      ensures Report(s, b) == if ready then [packet.Value()] else []
    {
      ReportAtFlag(s, b);
      ready := false;
      if bufferPos >= MIN_PACKET_LEN {
        ready := ReadFrame(packet);
      }
    }

    /** A frame is unpacked if its check sequence is right. */
    method ReadFrame(packet: PacketStruct.PacketStruct) returns (ready: bool)
      requires Valid() && packet.Valid() && this !in packet.Repr() && buffer !in packet.Repr()
      requires bufferPos >= MIN_PACKET_LEN
      modifies packet.Repr()
      ensures packet.Valid()
      ensures Checked(Candidate(buffer[..], bufferPos)) == if ready then [packet.Value()] else []
    {
      ready := FcsMatches();
      if ready {
        packet.Unpack(buffer[..], bufferPos);
      }
    }

    /** Everything but the buffer is cleared. */
    method Restart()
      modifies this
      ensures Value() == Reset(0, buffer[..])
    {
      bufferPos := 0;
      rawBits := 0;
      unstuffedBits := 0;
      unstuffedBitCount := 0;
      onesCount := 0;
    }

    /** The check of the frame in the buffer. */
    method FcsMatches() returns (matches: bool)
      requires Valid() && bufferPos >= MIN_PACKET_LEN
      ensures matches == Crc.Accepted(buffer[..bufferPos])
    {
      var received := Crc.Word(buffer[bufferPos - 2], buffer[bufferPos - 1]);
      var computed := Crc.INIT;
      var i := 0;
      while i < bufferPos - 2
        invariant i <= bufferPos - 2 && computed == Crc.Run(buffer[..i], Crc.INIT)
      {
        assert Front(buffer[..i + 1]) == buffer[..i];
        computed := Crc.Update(buffer[i], computed);
        i := i + 1;
      }
      computed := Crc.Finalize(computed);
      assert buffer[..bufferPos][..bufferPos - 2] == buffer[..bufferPos - 2];
      matches := computed == received;
    }

    /** Any other bit: unstuffing and collecting. */
    method TakeIn(b: bit, ghost s: State)
      requires s.Valid() && Value() == s.(raw := Push(s.raw, b))
      modifies this, buffer
      ensures Valid() && Value() == TakeBit(s, b)
    {
      if !b {
        if onesCount < 5 {
          unstuffedBits := Insert(unstuffedBits, b);
          unstuffedBitCount := unstuffedBitCount + 1;
        }
        onesCount := 0;
      } else {
        unstuffedBits := Insert(unstuffedBits, b);
        onesCount := (onesCount + 1) % 256;
        unstuffedBitCount := unstuffedBitCount + 1;
      }
      if unstuffedBitCount == 8 {
        if bufferPos >= 255 {
          bufferPos := 0;
        }
        buffer[bufferPos] := unstuffedBits;
        bufferPos := bufferPos + 1;
        unstuffedBitCount := 0;
      }
    }
  }

  lemma ReportAtFlag(s: State, b: bit)
    requires s.Valid()
    ensures Report(s, b) ==
      if FlagEnds(s, b) && s.pos >= MIN_PACKET_LEN then Checked(Candidate(s.buffer, s.pos)) else []
  {
    if FlagEnds(s, b) && s.pos >= MIN_PACKET_LEN {
      assert Candidate(s.buffer, s.pos) in Candidates(s, b);
      CheckedOne(Candidate(s.buffer, s.pos));
    }
  }

  lemma NoReport(s: State, b: bit)
    requires s.Valid() && !FlagEnds(s, b)
    ensures Report(s, b) == []
  {
  }
}
