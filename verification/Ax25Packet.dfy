/** Packets: src/hamstuff/ax25_packet.c.

    `Packet` holds the meaningful parts of the C structure: the repeaters below the count and the
    information bytes below the length. */
module Ax25Packet {
  import opened Bits
  import opened Ax25Call
  import Crc

  const MAX_REPEATER_COUNT := 8
  const MAX_INFO_LEN := 255
  const MIN_PACKET_LEN := 18

  /** How far unpacking may read, whatever it finds: ten addresses, control and protocol. */
  const MAX_HEADER_LEN := 72

  datatype Packet = Packet(dest: Call, src: Call, repeaters: seq<Call>, control: byte, protocol: byte, info: seq<byte>) {
    predicate WellFormed() {
      && dest.WellFormed() && src.WellFormed()
      && |repeaters| <= MAX_REPEATER_COUNT
      && (forall j | 0 <= j < |repeaters| :: repeaters[j].WellFormed())
      && |info| <= MAX_INFO_LEN
    }

    /** What packing needs of its argument. */
    predicate Packable() {
      && |dest.base| <= MAX_CALLSIGN_LEN && |src.base| <= MAX_CALLSIGN_LEN
      && (forall j | 0 <= j < |repeaters| :: |repeaters[j].base| <= MAX_CALLSIGN_LEN)
    }

    function Calls(): (r: seq<Call>)
      ensures |r| == |repeaters| + 2
    {
      [dest, src] + repeaters
    }
  }

  // ----- packing -----

  function Mark(isLast: bool): byte {
    if isLast then 1 else 0
  }

  /** The first `n` of `calls`; the very last one is marked as the end of the address field. */
  function PackCalls(calls: seq<Call>, n: nat): (r: seq<byte>)
    requires n <= |calls| && forall k | 0 <= k < n :: |calls[k].base| <= MAX_CALLSIGN_LEN
    ensures |r| == 7 * n
  {
    if n == 0 then [] else PackCalls(calls, n - 1) + PackCall(calls[n - 1], Mark(n == |calls|))
  }

  /** Everything the FCS covers. */
  function Content(p: Packet): (r: seq<byte>)
    requires p.Packable()
    ensures |r| == 16 + 7 * |p.repeaters| + |p.info|
  {
    PackCalls(p.Calls(), |p.Calls()|) + [p.control, p.protocol] + p.info
  }

  function WithFcs(content: seq<byte>): seq<byte> {
    content + [Crc.Lo(Crc.Fcs(content)), Crc.Hi(Crc.Fcs(content))]
  }

  function Pack(p: Packet): (r: seq<byte>)
    requires p.Packable()
    ensures |r| == 18 + 7 * |p.repeaters| + |p.info|
  {
    WithFcs(Content(p))
  }

  // ----- unpacking -----

  function Address(inp: seq<byte>, k: nat): seq<byte>
    requires 7 * k + 7 <= |inp|
  {
    inp[7 * k..7 * k + 7]
  }

  /** How many repeaters are read in all when `n` have been read. */
  function RepeaterCount(inp: seq<byte>, n: nat): (r: nat)
    requires |inp| >= MAX_HEADER_LEN && n <= MAX_REPEATER_COUNT
    ensures n <= r <= MAX_REPEATER_COUNT
    decreases MAX_REPEATER_COUNT - n
  {
    if LastMark(Address(inp, n + 1)) == 0 && n < MAX_REPEATER_COUNT then RepeaterCount(inp, n + 1) else n
  }

  function UnpackRepeaters(inp: seq<byte>, n: nat): (r: seq<Call>)
    requires 7 * n + 14 <= |inp|
    ensures |r| == n
  {
    if n == 0 then [] else UnpackRepeaters(inp, n - 1) + [UnpackCall(Address(inp, n + 1))]
  }

  /** The end of the information field; the last two bytes of the packet are not part of it. */
  function InfoEnd(from: nat, len: int): (r: nat)
    ensures r >= from
  {
    if len - 2 <= from then from else if len - 2 <= from + MAX_INFO_LEN then len - 2 else from + MAX_INFO_LEN
  }

  /** The first `len` bytes of a buffer, unpacked.  A header without an end mark is read past `len`. */
  function Unpack(inp: seq<byte>, len: int): Packet
    requires |inp| >= MAX_HEADER_LEN && len <= |inp|
  {
    var n := RepeaterCount(inp, 0);
    var i := 14 + 7 * n;
    Packet(UnpackCall(Address(inp, 0)), UnpackCall(Address(inp, 1)),
           UnpackRepeaters(inp, n),
           inp[i], inp[i + 1],
           inp[i + 2..InfoEnd(i + 2, len)])
  }

  // ----- round trip -----

  lemma {:induction false} AddressOfPackCalls(calls: seq<Call>, n: nat, k: nat, rest: seq<byte>)
    requires k < n <= |calls| && forall k | 0 <= k < n :: |calls[k].base| <= MAX_CALLSIGN_LEN
    ensures Address(PackCalls(calls, n) + rest, k) == PackCall(calls[k], Mark(k == |calls| - 1))
  {
    var z := PackCall(calls[n - 1], Mark(n == |calls|));
    assert PackCalls(calls, n) + rest == PackCalls(calls, n - 1) + (z + rest);
    if k == n - 1 {
      Cut(PackCalls(calls, n - 1), z + rest);
      assert (z + rest)[..7] == z;
    } else {
      AddressOfPackCalls(calls, n - 1, k, z + rest);
    }
  }

  lemma {:induction false} CountRepeaters(inp: seq<byte>, n: nat, m: nat)
    requires |inp| >= MAX_HEADER_LEN && n <= m <= MAX_REPEATER_COUNT
    requires forall k | n < k <= m + 1 :: LastMark(Address(inp, k)) == Mark(k == m + 1)
    ensures RepeaterCount(inp, n) == m
    decreases m - n
  {
    assert LastMark(Address(inp, n + 1)) == Mark(n == m);
    if n < m {
      CountRepeaters(inp, n + 1, m);
    }
  }

  lemma AddressReads(calls: seq<Call>, k: nat, tail: seq<byte>)
    requires k < |calls| && calls[k].WellFormed()
    requires forall i | 0 <= i < |calls| :: |calls[i].base| <= MAX_CALLSIGN_LEN
    ensures var inp := PackCalls(calls, |calls|) + tail;
      UnpackCall(Address(inp, k)) == calls[k] && LastMark(Address(inp, k)) == Mark(k == |calls| - 1)
  {
    AddressOfPackCalls(calls, |calls|, k, tail);
    UnpackPackCall(calls[k], Mark(k == |calls| - 1));
  }

  lemma UnpackAddresses(p: Packet, tail: seq<byte>)
    requires p.WellFormed()
    requires 7 * |p.Calls()| + |tail| >= MAX_HEADER_LEN
    ensures var inp := PackCalls(p.Calls(), |p.Calls()|) + tail;
      && RepeaterCount(inp, 0) == |p.repeaters|
      && UnpackCall(Address(inp, 0)) == p.dest && UnpackCall(Address(inp, 1)) == p.src
      && UnpackRepeaters(inp, |p.repeaters|) == p.repeaters
  {
    var calls, m := p.Calls(), |p.repeaters|;
    var inp := PackCalls(calls, m + 2) + tail;
    AddressesRead(p, tail, inp);
    CountRepeaters(inp, 0, m);
    assert UnpackCall(Address(inp, 0)) == calls[0] && UnpackCall(Address(inp, 1)) == calls[1];
    UnpackRepeatersAre(inp, calls, m);
    assert calls[2..] == p.repeaters;
  }

  lemma AddressesRead(p: Packet, tail: seq<byte>, inp: seq<byte>)
    requires p.WellFormed() && inp == PackCalls(p.Calls(), |p.Calls()|) + tail
    ensures forall k | 0 <= k < |p.Calls()| ::
              UnpackCall(Address(inp, k)) == p.Calls()[k] && LastMark(Address(inp, k)) == Mark(k == |p.repeaters| + 1)
  {
    forall k | 0 <= k < |p.Calls()|
      ensures UnpackCall(Address(inp, k)) == p.Calls()[k] && LastMark(Address(inp, k)) == Mark(k == |p.repeaters| + 1)
    {
      AddressReads(p.Calls(), k, tail);
    }
  }

  lemma ContentParts(a: seq<byte>, c: byte, q: byte, info: seq<byte>, rest: seq<byte>)
    ensures var inp := a + [c, q] + info + rest;
      && inp == a + ([c, q] + info + rest)
      && inp[|a|] == c && inp[|a| + 1] == q && inp[|a| + 2..|a| + 2 + |info|] == info
  {
  }

  lemma {:induction false} UnpackRepeatersAre(inp: seq<byte>, calls: seq<Call>, n: nat)
    requires n + 2 <= |calls| && 7 * n + 14 <= |inp|
    requires forall k | 0 <= k < n + 2 :: UnpackCall(Address(inp, k)) == calls[k]
    ensures UnpackRepeaters(inp, n) == calls[2..n + 2]
  {
    if n == 0 {
    } else {
      UnpackRepeatersAre(inp, calls, n - 1);
      assert UnpackCall(Address(inp, n + 1)) == calls[n + 1];
    }
  }

  lemma UnpackShape(inp: seq<byte>, p: Packet)
    requires |inp| >= MAX_HEADER_LEN && |p.repeaters| <= 8 && |p.info| <= MAX_INFO_LEN
    requires var i := 14 + 7 * |p.repeaters|;
      && i + 4 + |p.info| <= |inp|
      && inp[i] == p.control && inp[i + 1] == p.protocol && inp[i + 2..i + 2 + |p.info|] == p.info
    requires RepeaterCount(inp, 0) == |p.repeaters|
    requires UnpackCall(Address(inp, 0)) == p.dest && UnpackCall(Address(inp, 1)) == p.src
    requires UnpackRepeaters(inp, |p.repeaters|) == p.repeaters
    ensures Unpack(inp, 18 + 7 * |p.repeaters| + |p.info|) == p
  {
  }

  lemma UnpackContent(p: Packet, rest: seq<byte>)
    requires p.WellFormed() && |rest| >= 2
    requires |Content(p)| + |rest| >= MAX_HEADER_LEN
    ensures Unpack(Content(p) + rest, |Content(p)| + 2) == p
  {
    ContentParts(PackCalls(p.Calls(), |p.Calls()|), p.control, p.protocol, p.info, rest);
    UnpackAddresses(p, [p.control, p.protocol] + p.info + rest);
    UnpackShape(Content(p) + rest, p);
  }

  lemma FcsBytes(content: seq<byte>)
    ensures Crc.Accepted(WithFcs(content))
  {
    var w := Crc.Fcs(content);
    Crc.WordOfHalves(w);
    assert WithFcs(content)[..|content|] == content;
  }

  /** Unpacking a packed packet gives it back, whatever the buffer holds after it; the receiver's check
      accepts it. */
  lemma UnpackPack(p: Packet, rest: seq<byte>)
    requires p.WellFormed() && |Pack(p)| + |rest| >= MAX_HEADER_LEN
    ensures Unpack(Pack(p) + rest, |Pack(p)|) == p
    ensures |Pack(p)| >= 18 && Crc.Accepted(Pack(p))
  {
    var content := Content(p);
    var fcs := [Crc.Lo(Crc.Fcs(content)), Crc.Hi(Crc.Fcs(content))];
    Assoc(content, fcs, rest);
    UnpackContent(p, fcs + rest);
    FcsBytes(content);
  }

  // ----- the layout in bytes -----

  lemma CallsAt(calls: seq<Call>, k: nat, rest: seq<byte>, out: seq<byte>)
    requires k < |calls| && forall i | 0 <= i < |calls| :: |calls[i].base| <= MAX_CALLSIGN_LEN
    requires out == PackCalls(calls, |calls|) + rest
    ensures out[7 * k..7 * k + 7] == PackCall(calls[k], if k == |calls| - 1 then 1 else 0)
  {
    AddressOfPackCalls(calls, |calls|, k, rest);
  }

  /** Destination, source and repeaters in seven bytes each, in this order; the last is marked as the end. */
  lemma PackedAddress(p: Packet, r: nat, k: nat)
    requires p.Packable() && r == |p.repeaters| && k < r + 2
    ensures Pack(p)[7 * k..7 * k + 7] ==
            PackCall(if k == 0 then p.dest else if k == 1 then p.src else p.repeaters[k - 2], if k == r + 1 then 1 else 0)
  {
    var a, tail := PackCalls(p.Calls(), r + 2), Pack(p)[|Content(p)|..];
    ContentParts(a, p.control, p.protocol, p.info, tail);
    CallsAt(p.Calls(), k, [p.control, p.protocol] + p.info + tail, Pack(p));
  }

  /** Control, protocol and information follow the addresses, and the frame check sequence of everything before
      it comes last, low byte first. */
  lemma PackedFields(p: Packet, r: nat, out: seq<byte>)
    requires p.Packable() && r == |p.repeaters| && out == Pack(p)
    ensures |out| == 18 + 7 * r + |p.info|
    ensures out[14 + 7 * r] == p.control && out[15 + 7 * r] == p.protocol
    ensures out[16 + 7 * r..16 + 7 * r + |p.info|] == p.info
    ensures (out[|out| - 2] as bv16) | ((out[|out| - 1] as bv16) << 8) == Crc.Fcs(out[..|out| - 2])
  {
    var content, fcs := Content(p), Crc.Fcs(Content(p));
    ContentParts(PackCalls(p.Calls(), |p.Calls()|), p.control, p.protocol, p.info, [Crc.Lo(fcs), Crc.Hi(fcs)]);
    Cut(content, [Crc.Lo(fcs), Crc.Hi(fcs)]);
    Crc.WordOfHalves(fcs);
  }

  /** In the address field of a packed packet the end mark, bit 0, is set in the last byte and in no other. */
  lemma EndMark(p: Packet, r: nat, k: nat)
    requires p.WellFormed() && r == |p.repeaters| && k < 7 * (r + 2)
    ensures Pack(p)[k] & 1 == if k == 7 * (r + 2) - 1 then 1 else 0
  {
    var q, i := AddressOf(k, r);
    MarkInAddress(p, r, q, i, Pack(p));
  }

  lemma AddressOf(k: nat, r: nat) returns (q: nat, i: nat)
    requires k < 7 * (r + 2)
    ensures k == 7 * q + i && i < 7 && q < r + 2
    ensures q == r + 1 && i == 6 <==> k == 7 * (r + 2) - 1
  {
    q, i := k / 7, k % 7;
  }

  lemma MarkInAddress(p: Packet, r: nat, q: nat, i: nat, out: seq<byte>)
    requires p.WellFormed() && r == |p.repeaters| && q < r + 2 && i < 7 && out == Pack(p)
    ensures out[7 * q + i] & 1 == if q == r + 1 && i == 6 then 1 else 0
  {
    var call, mark: byte := AddressNo(p, q), if q == r + 1 then 1 else 0;
    PackedAddress(p, r, q);
    CallMarks(call, mark, out, 7 * q, i);
  }

  function AddressNo(p: Packet, k: nat): (c: Call)
    requires p.Packable() && k < |p.repeaters| + 2
    ensures |c.base| <= MAX_CALLSIGN_LEN && (p.WellFormed() ==> c.WellFormed())
  {
    if k == 0 then p.dest else if k == 1 then p.src else p.repeaters[k - 2]
  }

  lemma CallMarks(call: Call, isLast: byte, out: seq<byte>, at: nat, i: nat)
    requires call.WellFormed() && isLast <= 1 && i < 7
    requires at + 7 <= |out| && out[at..at + 7] == PackCall(call, isLast)
    ensures out[at + i] & 1 == if i == 6 then isLast else 0
  {
    PackedCallBytes(call, isLast);
    assert out[at + i] == out[at..at + 7][i];
    MarkValues(out[at + i]);
  }

  // ----- whatever comes in -----

  lemma {:induction false} UnpackedRepeatersWellFormed(inp: seq<byte>, n: nat)
    requires 7 * n + 14 <= |inp|
    ensures forall j | 0 <= j < n :: UnpackRepeaters(inp, n)[j].WellFormed()
  {
    if n == 0 {
    } else {
      UnpackedRepeatersWellFormed(inp, n - 1);
      UnpackedCallWellFormed(Address(inp, n + 1));
    }
  }

  /** Whatever the bytes are, what is unpacked from them is a well-formed packet. */
  lemma UnpackedWellFormed(inp: seq<byte>, len: int)
    requires |inp| >= MAX_HEADER_LEN && len <= |inp|
    ensures Unpack(inp, len).WellFormed()
  {
    var n := RepeaterCount(inp, 0);
    UnpackedCallWellFormed(Address(inp, 0));
    UnpackedCallWellFormed(Address(inp, 1));
    UnpackedRepeatersWellFormed(inp, n);
  }

  lemma {:induction false} RepeatersAt(inp: seq<byte>, n: nat)
    requires 7 * n + 14 <= |inp|
    ensures forall j | 0 <= j < n :: UnpackRepeaters(inp, n)[j] == UnpackCall(inp[14 + 7 * j..21 + 7 * j])
  {
    if n == 0 {
    } else {
      RepeatersAt(inp, n - 1);
    }
  }

  lemma {:induction false} NoMarkBefore(inp: seq<byte>, n: nat, k: nat)
    requires |inp| >= MAX_HEADER_LEN && n <= MAX_REPEATER_COUNT && n < k <= RepeaterCount(inp, n)
    ensures LastMark(Address(inp, k)) == 0
    decreases MAX_REPEATER_COUNT - n
  {
    if k == n + 1 {
    } else {
      NoMarkBefore(inp, n + 1, k);
    }
  }

  lemma {:induction false} MarkAfter(inp: seq<byte>, n: nat)
    requires |inp| >= MAX_HEADER_LEN && n <= MAX_REPEATER_COUNT
    ensures RepeaterCount(inp, n) < MAX_REPEATER_COUNT ==> LastMark(Address(inp, RepeaterCount(inp, n) + 1)) != 0
    decreases MAX_REPEATER_COUNT - n
  {
    if LastMark(Address(inp, n + 1)) == 0 && n < MAX_REPEATER_COUNT {
      MarkAfter(inp, n + 1);
    }
  }

  /** Repeaters are read up to the first address with the end mark, at most eight; address 1 is the source. */
  lemma UnpackedCount(inp: seq<byte>, len: int, r: nat, k: nat)
    requires |inp| >= 72 && len <= |inp| && r == |Unpack(inp, len).repeaters| && 1 <= k <= r + 1
    ensures r <= 8
    ensures k <= 8 ==> inp[7 * k + 6] as int % 2 == if k == r + 1 then 1 else 0
  {
    if k <= r {
      NoMarkBefore(inp, 0, k);
    } else {
      MarkAfter(inp, 0);
    }
    MarkValues(Address(inp, k)[6]);
  }

  /** Where the parts of an unpacked packet come from: the information ends two bytes before the end of the
      packet, and after 255 bytes at the latest. */
  lemma UnpackedFields(inp: seq<byte>, len: int, p: Packet, r: nat)
    requires |inp| >= 72 && len <= |inp| && p == Unpack(inp, len) && r == |p.repeaters|
    ensures 16 + 7 * r <= 72
    ensures p.dest == UnpackCall(inp[0..7]) && p.src == UnpackCall(inp[7..14])
    ensures forall j | 0 <= j < r :: p.repeaters[j] == UnpackCall(inp[14 + 7 * j..21 + 7 * j])
    ensures p.control == inp[14 + 7 * r] && p.protocol == inp[15 + 7 * r]
    ensures |p.info| == if len < 18 + 7 * r then 0 else if len - 18 - 7 * r > 255 then 255 else len - 18 - 7 * r
    ensures p.info == inp[16 + 7 * r..16 + 7 * r + |p.info|]
  {
    RepeatersAt(inp, r);
  }
}
