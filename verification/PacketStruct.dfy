/** The packet structure of include/hamstuff/ax25_packet.h, filled and read in place by the loops of
    src/hamstuff/ax25_packet.c. */
module PacketStruct {
  import opened Bits
  import opened Ax25Call
  import opened Ax25Packet
  import Crc
  import Tnc2

  /** Enough for the longest printed packet; apps/ax25tnc/ax25tnc.c uses 512. */
  const LINE_LEN := 400

  predicate Short(values: seq<Call>) {
    forall k | 0 <= k < |values| :: |values[k].base| <= MAX_CALLSIGN_LEN
  }

  lemma FirstTwo(values: seq<Call>)
    requires |values| >= 2
    ensures [values[0], values[1]] + values[2..] == values
  {
  }

  lemma PackableIfShort(p: Packet)
    requires Short(p.Calls())
    ensures p.Packable()
  {
    assert p.Calls()[0] == p.dest && p.Calls()[1] == p.src;
    assert forall j | 0 <= j < |p.repeaters| :: p.Calls()[j + 2] == p.repeaters[j];
  }

  class PacketStruct {
    /** The calls embedded in the structure: destination, source and the eight repeaters. */
    const calls: seq<CallStruct>
    var repeaterCount: nat
    var control: byte
    var protocol: byte
    const info: array<byte>
    var infoLen: nat

    ghost function Repr(): set<object> {
      {this, info} + (set c | c in calls) + (set c | c in calls :: c.base)
    }

    ghost predicate Separate() {
      && |calls| == 2 + MAX_REPEATER_COUNT && info.Length == MAX_INFO_LEN
      && (forall i, j | 0 <= i < j < |calls| :: calls[i] != calls[j] && calls[i].base != calls[j].base)
      && (forall i | 0 <= i < |calls| :: calls[i].base != info)
    }

    ghost predicate Valid()
      reads this, calls, set c | c in calls :: c.base
    {
      && Separate()
      && (forall i | 0 <= i < |calls| :: calls[i].Valid())
      && repeaterCount <= MAX_REPEATER_COUNT && infoLen <= MAX_INFO_LEN
    }

    function CallValues(n: nat): (r: seq<Call>)
      requires n <= |calls|
      reads calls, set c | c in calls :: c.base
      ensures |r| == n
      ensures forall k | 0 <= k < n :: r[k] == calls[k].Value()
    {
      seq(n, k requires 0 <= k < n reads calls, set c | c in calls :: c.base => calls[k].Value())
    }

    function Value(): Packet
      reads this, calls, info, set c | c in calls :: c.base
      requires Valid()
    {
      Packet(calls[0].Value(), calls[1].Value(), CallValues(2 + repeaterCount)[2..], control, protocol,
             info[..infoLen])
    }

    lemma ValueCalls()
      requires Valid()
      ensures Value().Calls() == CallValues(2 + repeaterCount)
      ensures Value().Packable()
    {
      var values := CallValues(2 + repeaterCount);
      FirstTwo(values);
      ValuesAreShort(2 + repeaterCount);
      PackableIfShort(Value());
    }

    lemma ValuesAreShort(n: nat)
      requires Valid() && n <= |calls|
      ensures Short(CallValues(n))
    {
      forall k | 0 <= k < n
        ensures |CallValues(n)[k].base| <= MAX_CALLSIGN_LEN
      {
        TextEnds(calls[k].base[..]);
      }
    }

    /** A structure somewhere in memory; its contents are those of hs_ax25_packet_init. */
    constructor ()
      ensures Valid() && fresh(Repr()) && Value() == Packet(Call([], 0, 0), Call([], 0, 0), [], 0, 0, [])
    {
      var made := NewCalls();
      calls := made;
      info := new byte[MAX_INFO_LEN];
      repeaterCount := 0;
      control := 0;
      protocol := 0;
      infoLen := 0;
    }

    static method NewCalls() returns (made: seq<CallStruct>)
      ensures |made| == 2 + MAX_REPEATER_COUNT
      ensures forall i | 0 <= i < |made| :: fresh(made[i]) && fresh(made[i].base) && made[i].Valid()
      ensures forall i | 0 <= i < |made| :: made[i].Value() == Call([], 0, 0)
      ensures forall i, j | 0 <= i < j < |made| :: made[i] != made[j] && made[i].base != made[j].base
    {
      made := [];
      while |made| < 2 + MAX_REPEATER_COUNT
        invariant |made| <= 2 + MAX_REPEATER_COUNT
        invariant forall i | 0 <= i < |made| :: fresh(made[i]) && fresh(made[i].base) && made[i].Valid()
        invariant forall i | 0 <= i < |made| :: made[i].Value() == Call([], 0, 0)
        invariant forall i, j | 0 <= i < j < |made| :: made[i] != made[j] && made[i].base != made[j].base
      {
        var c := new CallStruct();
        made := made + [c];
      }
    }

    ghost predicate Apart(out: array<byte>)
    {
      out != info && forall c | c in calls :: out != c.base
    }

    /** Writing to a buffer outside the structure leaves its value alone. */
    twostate lemma SameValue()
      requires old(Valid()) && unchanged(this) && unchanged(info)
      requires forall c | c in calls :: unchanged(c) && unchanged(c.base)
      ensures Valid() && Value() == old(Value())
    {
      assert CallValues(2 + repeaterCount) == old(CallValues(2 + repeaterCount));
    }

    /** hs_ax25_packet_pack. */
    method Pack(out: array<byte>) returns (n: nat)
      requires Valid() && Apart(out) && out.Length >= 18 + 7 * repeaterCount + infoLen
      modifies out
      ensures Valid() && Value() == old(Value()) && Value().Packable()
      ensures n <= out.Length && out[..n] == Ax25Packet.Pack(Value())
    {
      ValueCalls();
      ghost var packet := Value();
      var i := PackAddresses(out, packet.Calls());
      i := PackRest(out, i);
      n := AppendFcs(out, i);
      SameValue();
    }

    method PackRest(out: array<byte>, at: nat) returns (i: nat)
      requires Valid() && Apart(out) && out.Length >= at + 2 + infoLen
      modifies out
      ensures i == at + 2 + infoLen && out[..i] == old(out[..at]) + [control, protocol] + info[..infoLen]
    {
      out[at] := control;
      out[at + 1] := protocol;
      assert out[..at + 2] == old(out[..at]) + [control, protocol];
      i := PackInfo(out, at + 2, out[..at + 2]);
    }

    /** The first `k` of the structure's calls, whose values are `values`, are packed in `out`. */
    ghost predicate CallsPacked(out: array<byte>, values: seq<Call>, k: nat)
      reads this, calls, (set c | c in calls :: c.base), out
    {
      && Valid() && values == CallValues(2 + repeaterCount) && Short(values)
      && k <= |values| && 7 * k <= out.Length && out[..7 * k] == PackCalls(values, k)
    }

    /** The calls to hs_ax25_call_pack. */
    method PackAddresses(out: array<byte>, ghost values: seq<Call>) returns (i: nat)
      requires Valid() && Apart(out) && out.Length >= 14 + 7 * repeaterCount
      requires values == CallValues(2 + repeaterCount) && Short(values)
      modifies out
      ensures i == 14 + 7 * repeaterCount
      ensures out[..i] == PackCalls(values, |values|)
    {
      PackOne(out, 0, 0, values);
      PackOne(out, 1, if repeaterCount == 0 then 1 else 0, values);
      i := PackRepeaters(out, values);
    }

    /** The loop over the repeaters. */
    method PackRepeaters(out: array<byte>, ghost values: seq<Call>) returns (i: nat)
      requires CallsPacked(out, values, 2) && Apart(out) && out.Length >= 14 + 7 * repeaterCount
      modifies out
      ensures i == 14 + 7 * repeaterCount && CallsPacked(out, values, 2 + repeaterCount)
    {
      i := 14;
      var j := 0;
      while j < repeaterCount
        invariant j <= repeaterCount && i == 7 * (2 + j) && CallsPacked(out, values, 2 + j)
      {
        PackOne(out, 2 + j, if j == repeaterCount - 1 then 1 else 0, values);
        j := j + 1;
        i := i + 7;
      }
    }

    /** One call goes after those before it; the last one carries the mark. */
    method PackOne(out: array<byte>, k: nat, isLast: byte, ghost values: seq<Call>)
      requires CallsPacked(out, values, k) && Apart(out) && k < 2 + repeaterCount && out.Length >= 7 * k + 7
      requires isLast == Mark(k == 1 + repeaterCount)
      modifies out
      ensures CallsPacked(out, values, k + 1)
    {
      ghost var before := out[..7 * k];
      calls[k].Pack(out, 7 * k, isLast);
      assert out[..7 * k] == before;
      assert out[..7 * k + 7] == out[..7 * k] + out[7 * k..7 * k + 7];
    }

    /** hs_ax25_packet_unpack. */
    method Unpack(inp: seq<byte>, len: int)
      requires Valid() && |inp| >= MAX_HEADER_LEN && len <= |inp|
      modifies Repr()
      ensures Valid() && Value() == Ax25Packet.Unpack(inp, len)
    {
      UnpackAddresses(inp, Wanted(inp));
      UnpackRest(inp, len);
      ReadAll(inp, len);
    }

    /** The address field has been read up to the repeaters counted so far. */
    ghost predicate ReadCalls(wanted: seq<Call>)
      reads this, calls, set c | c in calls :: c.base
    {
      && Valid() && |wanted| == |calls|
      && (forall k | 0 <= k < 2 + repeaterCount :: calls[k].Value() == wanted[k])
    }

    lemma ReadAll(inp: seq<byte>, len: int)
      requires |inp| >= MAX_HEADER_LEN && len <= |inp|
      requires ReadCalls(Wanted(inp)) && repeaterCount == RepeaterCount(inp, 0)
      requires var i := 14 + 7 * repeaterCount;
        && control == inp[i] && protocol == inp[i + 1]
        && info[..infoLen] == inp[i + 2..InfoEnd(i + 2, len)]
      ensures Value() == Ax25Packet.Unpack(inp, len)
    {
      var wanted := Wanted(inp);
      UnpackWanted(inp, len, wanted, repeaterCount);
      ReadValues(wanted);
    }

    lemma ReadValues(wanted: seq<Call>)
      requires ReadCalls(wanted)
      ensures Value() == Packet(wanted[0], wanted[1], wanted[2..2 + repeaterCount], control, protocol, info[..infoLen])
    {
      var n := repeaterCount;
      assert CallValues(2 + n) == wanted[..2 + n];
      assert CallValues(2 + n)[2..] == wanted[2..2 + n];
    }

    /** The calls to hs_ax25_call_unpack: repeaters are read until an end mark, at most eight. */
    method UnpackAddresses(inp: seq<byte>, ghost wanted: seq<Call>)
      requires Valid() && |inp| >= MAX_HEADER_LEN && wanted == Wanted(inp)
      modifies this`repeaterCount, calls, set c | c in calls :: c.base
      ensures ReadCalls(wanted) && repeaterCount == RepeaterCount(inp, 0)
    {
      var isLast := UnpackEnds(inp, wanted);
      while isLast == 0 && repeaterCount < MAX_REPEATER_COUNT
        invariant ReadCalls(wanted)
        invariant isLast == LastMark(Address(inp, repeaterCount + 1))
        invariant RepeaterCount(inp, 0) == RepeaterCount(inp, repeaterCount)
        decreases MAX_REPEATER_COUNT - repeaterCount
      {
        isLast := UnpackRepeater(inp, wanted);
      }
    }

    /** Destination and source. */
    method UnpackEnds(inp: seq<byte>, ghost wanted: seq<Call>) returns (isLast: byte)
      requires Valid() && |inp| >= MAX_HEADER_LEN && wanted == Wanted(inp)
      modifies this`repeaterCount, calls, set c | c in calls :: c.base
      ensures ReadCalls(wanted) && repeaterCount == 0 && isLast == LastMark(Address(inp, 1))
    {
      isLast := UnpackOne(inp, 0, wanted);
      isLast := UnpackOne(inp, 1, wanted);
      repeaterCount := 0;
    }

    method UnpackRepeater(inp: seq<byte>, ghost wanted: seq<Call>) returns (isLast: byte)
      requires ReadCalls(wanted) && |inp| >= MAX_HEADER_LEN && wanted == Wanted(inp)
      requires repeaterCount < MAX_REPEATER_COUNT
      modifies this`repeaterCount, calls, set c | c in calls :: c.base
      ensures ReadCalls(wanted) && repeaterCount == old(repeaterCount) + 1
      ensures isLast == LastMark(Address(inp, repeaterCount + 1))
    {
      isLast := UnpackOne(inp, 2 + repeaterCount, wanted);
      repeaterCount := repeaterCount + 1;
    }

    method UnpackRest(inp: seq<byte>, len: int)
      requires Valid() && |inp| >= MAX_HEADER_LEN && len <= |inp|
      modifies this`control, this`protocol, this`infoLen, info
      ensures infoLen <= MAX_INFO_LEN
      ensures var i := 14 + 7 * repeaterCount;
        && control == inp[i] && protocol == inp[i + 1]
        && info[..infoLen] == inp[i + 2..InfoEnd(i + 2, len)]
    {
      var i := 14 + 7 * repeaterCount;
      control := inp[i];
      protocol := inp[i + 1];
      UnpackInfo(inp, i + 2, len);
    }

    method UnpackOne(inp: seq<byte>, k: nat, ghost wanted: seq<Call>) returns (isLast: byte)
      requires Valid() && k < |calls| && |inp| >= MAX_HEADER_LEN && wanted == Wanted(inp)
      modifies calls[k], calls[k].base
      ensures Valid() && calls[k].Value() == wanted[k] && isLast == LastMark(Address(inp, k))
      ensures forall j | 0 <= j < |calls| && j != k :: calls[j].Value() == old(calls[j].Value())
    {
      isLast := calls[k].Unpack(Address(inp, k));
    }

    method UnpackInfo(inp: seq<byte>, from: nat, len: int)
      requires Valid() && from <= |inp| && len <= |inp|
      modifies this`infoLen, info
      ensures infoLen <= MAX_INFO_LEN && info[..infoLen] == inp[from..InfoEnd(from, len)]
    {
      var i, j := from, 0;
      while i < len - 2 && j < MAX_INFO_LEN
        invariant i == from + j && j <= MAX_INFO_LEN && i <= InfoEnd(from, len)
        invariant info[..j] == inp[from..i]
        decreases MAX_INFO_LEN - j
      {
        info[j] := inp[i];
        i := i + 1;
        j := j + 1;
      }
      infoLen := j;
    }

    method PackInfo(out: array<byte>, at: nat, ghost before: seq<byte>) returns (i: nat)
      requires Valid() && Apart(out) && out.Length >= at + infoLen && before == out[..at]
      modifies out
      ensures i == at + infoLen && out[..i] == before + info[..infoLen]
    {
      i := at;
      var j := 0;
      while j < infoLen
        invariant j <= infoLen && i == at + j
        invariant out[..i] == before + info[..j]
      {
        out[i] := info[j];
        i := i + 1;
        j := j + 1;
      }
    }

    /** hs_ax25_packet_pack_tnc2: the printed line and a NUL, which is counted. */
    method PackTnc2(out: array<byte>) returns (n: nat)
      requires Valid() && Apart(out) && out.Length >= LINE_LEN
      modifies out
      ensures Valid() && Value() == old(Value()) && Value().Packable()
      ensures n <= out.Length && out[..n] == Tnc2.Line(Value()) + [0]
    {
      ValueCalls();
      ghost var packet := Value();
      var i := PrintHeader(out, packet);
      i := PackInfo(out, i, out[..i]);
      LineParts(packet);
      i := PutByte(out, i, NUL);
      SameValue();
      n := i;
    }

    /** Source, destination, repeaters and the separators. */
    method PrintHeader(out: array<byte>, ghost packet: Packet) returns (i: nat)
      requires Valid() && Apart(out) && out.Length >= LINE_LEN
      requires packet == Value() && packet.Packable() && packet.Calls() == CallValues(2 + repeaterCount)
      modifies out
      ensures i <= 122 && out[..i] == Shown(packet, |packet.repeaters|) + [Tnc2.COLON]
    {
      ghost var values := packet.Calls();
      i := PrintEnds(out, packet, values);
      var j := 0;
      while j < repeaterCount
        invariant j <= repeaterCount && i <= 21 + 11 * j
        invariant out[..i] == Shown(packet, j)
        invariant values == CallValues(2 + repeaterCount)
      {
        i := PrintRepeater(out, i, j, packet, values);
        j := j + 1;
      }
      i := PutByte(out, i, Tnc2.COLON);
    }

    method PrintEnds(out: array<byte>, ghost packet: Packet, ghost values: seq<Call>) returns (i: nat)
      requires Valid() && Apart(out) && out.Length >= LINE_LEN
      requires packet.Packable() && values == packet.Calls() == CallValues(2 + repeaterCount)
      modifies out
      ensures values == CallValues(2 + repeaterCount)
      ensures i <= 21 && out[..i] == Shown(packet, 0)
    {
      i := PrintOne(out, 0, 1, values, []);
      i := PutByte(out, i, Tnc2.GREATER);
      i := PrintOne(out, i, 0, values, out[..i]);
      ShownStarts(packet);
    }

    method PrintRepeater(out: array<byte>, at: nat, j: nat, ghost packet: Packet, ghost values: seq<Call>)
      returns (i: nat)
      requires Valid() && Apart(out) && j < repeaterCount && at + 12 <= out.Length
      requires packet.Packable() && values == packet.Calls() == CallValues(2 + repeaterCount)
      requires out[..at] == Shown(packet, j)
      modifies out
      ensures values == CallValues(2 + repeaterCount)
      ensures i <= at + 11 && i <= out.Length && out[..i] == Shown(packet, j + 1)
    {
      i := PutByte(out, at, Tnc2.COMMA);
      i := PrintOne(out, i, 2 + j, values, out[..i]);
      ShownGrows(packet, j);
    }

    method PutByte(out: array<byte>, at: nat, b: byte) returns (i: nat)
      requires at < out.Length
      modifies out
      ensures i == at + 1 && out[..i] == old(out[..at]) + [b]
    {
      out[at] := b;
      i := at + 1;
    }

    method PrintOne(out: array<byte>, at: nat, k: nat, ghost values: seq<Call>, ghost before: seq<byte>)
      returns (i: nat)
      requires Valid() && Apart(out) && k < 2 + repeaterCount && at + 11 <= out.Length && before == out[..at]
      requires values == CallValues(2 + repeaterCount) && |values[k].base| <= MAX_CALLSIGN_LEN
      modifies out
      ensures values == CallValues(2 + repeaterCount)
      ensures i <= at + 10 && i <= out.Length && out[..i] == before + PrintCall(values[k])
    {
      var n := calls[k].ToStr(out, at);
      i := at + n;
      assert out[..at] == before;
      assert out[at..i] == PrintCall(values[k]);
      assert out[..i] == out[..at] + out[at..i];
    }
  }

  /** The ten calls an address field of any length unpacks to. */
  ghost function Wanted(inp: seq<byte>): (r: seq<Call>)
    requires |inp| >= MAX_HEADER_LEN
    ensures |r| == 2 + MAX_REPEATER_COUNT
  {
    seq(2 + MAX_REPEATER_COUNT, k requires 0 <= k < 2 + MAX_REPEATER_COUNT => UnpackCall(Address(inp, k)))
  }

  lemma WantedCalls(inp: seq<byte>, n: nat)
    requires |inp| >= MAX_HEADER_LEN && n <= MAX_REPEATER_COUNT
    ensures Wanted(inp)[0] == UnpackCall(Address(inp, 0)) && Wanted(inp)[1] == UnpackCall(Address(inp, 1))
    ensures UnpackRepeaters(inp, n) == Wanted(inp)[2..2 + n]
  {
    UnpackRepeatersAre(inp, Wanted(inp), n);
  }

  lemma UnpackWanted(inp: seq<byte>, len: int, wanted: seq<Call>, n: nat)
    requires |inp| >= MAX_HEADER_LEN && len <= |inp| && n == RepeaterCount(inp, 0) && wanted == Wanted(inp)
    ensures var i := 14 + 7 * n;
      Ax25Packet.Unpack(inp, len) ==
        Packet(wanted[0], wanted[1], wanted[2..2 + n], inp[i], inp[i + 1], inp[i + 2..InfoEnd(i + 2, len)])
  {
    WantedCalls(inp, n);
    var repeaters := UnpackRepeaters(inp, n);
    assert repeaters == wanted[2..2 + n];
  }

  /** The line up to `j` repeaters. */
  ghost function Shown(p: Packet, j: nat): seq<byte>
    requires p.Packable() && j <= |p.repeaters|
  {
    PrintCall(p.src) + ([Tnc2.GREATER] + Tnc2.Header(p.dest, p.repeaters[..j]))
  }

  lemma ShownStarts(p: Packet)
    requires p.Packable()
    ensures Shown(p, 0) == [] + PrintCall(p.src) + [Tnc2.GREATER] + PrintCall(p.dest)
  {
    assert p.repeaters[..0] == [];
    assert Tnc2.Header(p.dest, []) == PrintCall(p.dest);
  }

  lemma ShownGrows(p: Packet, j: nat)
    requires p.Packable() && j < |p.repeaters|
    ensures Shown(p, j + 1) == Shown(p, j) + [Tnc2.COMMA] + PrintCall(p.repeaters[j])
  {
    Tnc2.HeaderSnoc(p.dest, p.repeaters[..j + 1]);
    assert Front(p.repeaters[..j + 1]) == p.repeaters[..j];
  }

  lemma LineParts(p: Packet)
    requires p.Packable()
    ensures Tnc2.Line(p) == Shown(p, |p.repeaters|) + [Tnc2.COLON] + p.info
  {
    assert p.repeaters[..|p.repeaters|] == p.repeaters;
    Regroup(PrintCall(p.src), [Tnc2.GREATER], Tnc2.Header(p.dest, p.repeaters), [Tnc2.COLON], p.info);
  }

  lemma Regroup(a: seq<byte>, b: seq<byte>, c: seq<byte>, d: seq<byte>, e: seq<byte>)
    ensures a + (b + (c + (d + e))) == a + (b + c) + d + e
  {
  }

  /** The check sequence of the first `n` bytes, low byte first, goes after them. */
  method AppendFcs(out: array<byte>, n: nat) returns (m: nat)
    requires n + 2 <= out.Length
    modifies out
    ensures m == n + 2 && out[..m] == WithFcs(old(out[..n]))
  {
    var crc := Crc.INIT;
    var j := 0;
    while j < n
      invariant j <= n && crc == Crc.Run(out[..j], Crc.INIT)
    {
      assert Front(out[..j + 1]) == out[..j];
      crc := Crc.Update(out[j], crc);
      j := j + 1;
    }
    crc := Crc.Finalize(crc);
    out[n] := Crc.Lo(crc);
    out[n + 1] := Crc.Hi(crc);
    m := n + 2;
    assert out[..n] == old(out[..n]);
  }
}
