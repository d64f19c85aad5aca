/** The receiving end of the frame layer: src/hamstuff/ax25_deframer.c.

    `State` is the value of the C structure; `Next` and `Report` are one call of
    hs_ax25_deframer_process.  The reference is a batch description: what the structure holds is
    determined by the bits since the last flag, taken together (`Describes`). */
module Deframer {
  import opened Bits
  import opened Hdlc
  import opened Ax25Packet
  import Crc

  /** hs_byte buffer[HS_AX25_MAX_PACKET_LEN]; frames are collected in its first 255 bytes. */
  const BUFFER_LEN := 329

  datatype State = State(raw: byte, acc: byte, count: nat, ones: nat, pos: nat, buffer: seq<byte>) {
    predicate Valid() {
      && count < 8 && ones < 256 && pos <= 255 && |buffer| == BUFFER_LEN
    }
  }

  // ----- one bit -----

  function Insert(acc: byte, b: bit): byte {
    (acc >> 1) | (Unit(b) << 7)
  }

  predicate FlagEnds(s: State, b: bit) {
    Push(s.raw, b) == FLAG
  }

  /** Everything but the buffer contents as after hs_ax25_deframer_init; the count of 1s is not set there. */
  function Reset(ones: nat, buffer: seq<byte>): State {
    State(0, 0, 0, ones, 0, buffer)
  }

  /** A complete byte goes into the buffer, which starts over when it is full. */
  function Store(s: State): State
    requires s.Valid()
  {
    var p := if s.pos >= 255 then 0 else s.pos;
    s.(count := 0, pos := p + 1, buffer := s.buffer[p := s.acc])
  }

  function TakeData(s: State, b: bit): (r: State)
    requires s.Valid()
    ensures r.Valid() && r.raw == s.raw && r.ones == s.ones
  {
    if s.count + 1 == 8 then Store(s.(acc := Insert(s.acc, b), count := 0))
    else s.(acc := Insert(s.acc, b), count := s.count + 1)
  }

  function TakeBit(s: State, b: bit): (r: State)
    requires s.Valid()
    ensures r.Valid()
  {
    var t := s.(raw := Push(s.raw, b), ones := if b then (s.ones + 1) % 256 else 0);
    if !b && s.ones >= 5 then t else TakeData(t, b)
  }

  function Next(s: State, b: bit): (r: State)
    requires s.Valid()
    ensures r.Valid()
  {
    if FlagEnds(s, b) then Reset(0, s.buffer) else TakeBit(s, b)
  }

  /** A buffer with enough bytes in it at the end of a flag; whether it is a packet is for the check to say. */
  datatype Candidate = Candidate(buffer: seq<byte>, len: nat) {
    predicate Valid() {
      |buffer| == BUFFER_LEN && MIN_PACKET_LEN <= len <= 255
    }
  }

  function Candidates(s: State, b: bit): (r: seq<Candidate>)
    requires s.Valid()
    ensures forall c | c in r :: c.Valid()
  {
    if FlagEnds(s, b) && s.pos >= MIN_PACKET_LEN then [Candidate(s.buffer, s.pos)] else []
  }

  /** The packet in a candidate that passes the check. */
  function Checked(c: Candidate): seq<Packet>
    requires c.Valid()
  {
    if Crc.Accepted(c.buffer[..c.len]) then [Unpack(c.buffer, c.len)] else []
  }

  function CheckedAll(cs: seq<Candidate>): seq<Packet>
    requires forall c | c in cs :: c.Valid()
  {
    if cs == [] then [] else CheckedAll(Front(cs)) + Checked(Last(cs))
  }

  /** The packets handed out by one call: at most one, at the end of a flag. */
  function Report(s: State, b: bit): seq<Packet>
    requires s.Valid()
  {
    CheckedAll(Candidates(s, b))
  }

  // ----- a run -----

  function Run(s: State, bits: seq<bit>): (r: State)
    requires s.Valid()
    ensures r.Valid()
  {
    if bits == [] then s else Next(Run(s, Front(bits)), Last(bits))
  }

  function Found(s: State, bits: seq<bit>): (r: seq<Candidate>)
    requires s.Valid()
    ensures forall c | c in r :: c.Valid()
  {
    if bits == [] then [] else Found(s, Front(bits)) + Candidates(Run(s, Front(bits)), Last(bits))
  }

  /** All packets handed out during a run. */
  function Reports(s: State, bits: seq<bit>): seq<Packet>
    requires s.Valid()
  {
    CheckedAll(Found(s, bits))
  }

  lemma {:induction false} CheckedAllConcat(a: seq<Candidate>, b: seq<Candidate>)
    requires forall c | c in a + b :: c.Valid()
    ensures forall c | c in a :: c in a + b
    ensures forall c | c in b :: c in a + b
    ensures CheckedAll(a + b) == CheckedAll(a) + CheckedAll(b)
  {
    if b == [] {
      assert a + b == a;
    } else {
      FrontOfConcat(a, b);
      assert forall c | c in a + Front(b) :: c in a + b;
      CheckedAllConcat(a, Front(b));
      Assoc(CheckedAll(a), CheckedAll(Front(b)), Checked(Last(b)));
    }
  }

  /** What has been found stays found. */
  lemma FoundTake(s: State, bits: seq<bit>, j: nat, k: nat)
    requires s.Valid() && j <= k <= |bits|
    ensures Found(s, bits[..j]) <= Found(s, bits[..k])
  {
    assert bits[..k] == bits[..j] + bits[j..k];
    RunConcat(s, bits[..j], bits[j..k]);
  }

  lemma RunSnoc(s: State, bits: seq<bit>, b: bit)
    requires s.Valid()
    ensures Run(s, bits + [b]) == Next(Run(s, bits), b)
    ensures Found(s, bits + [b]) == Found(s, bits) + Candidates(Run(s, bits), b)
  {
    assert Front(bits + [b]) == bits;
  }

  lemma {:induction false} RunConcat(s: State, a: seq<bit>, b: seq<bit>)
    requires s.Valid()
    ensures Run(s, a + b) == Run(Run(s, a), b)
    ensures Found(s, a + b) == Found(s, a) + Found(Run(s, a), b)
  {
    if b == [] {
      assert a + b == a;
    } else {
      RunConcat(s, a, Front(b));
      FrontOfConcat(a, b);
      Assoc(Found(s, a), Found(Run(s, a), Front(b)), Candidates(Run(s, a + Front(b)), Last(b)));
    }
  }

  /** A run hands out what its steps hand out. */
  lemma ReportsSnoc(s: State, bits: seq<bit>, b: bit)
    requires s.Valid()
    ensures Reports(s, bits + [b]) == Reports(s, bits) + Report(Run(s, bits), b)
  {
    RunSnoc(s, bits, b);
    CheckedAllConcat(Found(s, bits), Candidates(Run(s, bits), b));
  }

  lemma ReportsConcat(s: State, a: seq<bit>, b: seq<bit>)
    requires s.Valid()
    ensures Reports(s, a + b) == Reports(s, a) + Reports(Run(s, a), b)
  {
    RunConcat(s, a, b);
    CheckedAllConcat(Found(s, a), Found(Run(s, a), b));
  }

  // ----- the batch description -----

  /** The last eight data bits, the newest on top, with 0s where nothing has come yet. */
  function Acc(d: seq<bit>): byte {
    if d == [] then 0 else Insert(Acc(Front(d)), Last(d))
  }

  function Insert4(acc: byte, b0: bit, b1: bit, b2: bit, b3: bit): byte {
    Insert(Insert(Insert(Insert(acc, b0), b1), b2), b3)
  }

  lemma EightInserts(acc: byte, s: seq<bit>)
    requires |s| == 8
    ensures Insert4(Insert4(acc, s[0], s[1], s[2], s[3]), s[4], s[5], s[6], s[7]) == ByteOf(s)
  {
  }

  lemma AccOfFour(d: seq<bit>, s: seq<bit>)
    requires |s| == 4
    ensures Acc(d + s) == Insert4(Acc(d), s[0], s[1], s[2], s[3])
  {
    assert Front(d + s) == d + s[..3] && Front(d + s[..3]) == d + s[..2];
    assert Front(d + s[..2]) == d + s[..1] && Front(d + s[..1]) == d;
    assert Acc(d + s[..1]) == Insert(Acc(d), s[0]);
    assert Acc(d + s[..2]) == Insert(Acc(d + s[..1]), s[1]);
    assert Acc(d + s[..3]) == Insert(Acc(d + s[..2]), s[2]);
  }

  /** Eight bits make the byte they spell, least significant first, whatever was there before. */
  lemma AccOfByte(d: seq<bit>, s: seq<bit>)
    requires |s| == 8
    ensures Acc(d + s) == ByteOf(s)
  {
    AccOfFour(d, s[..4]);
    AccOfFour(d + s[..4], s[4..]);
    assert d + s == (d + s[..4]) + s[4..];
    EightInserts(Acc(d), s);
  }

  /** How many buffer bytes are in use after `n` bytes. */
  function Fill(n: nat): (r: nat)
    ensures r <= 255 && r <= n
  {
    if n == 0 then 0 else (n - 1) % 255 + 1
  }

  /** The data bits `d` in groups of eight: the collected bytes, of which the buffer starts with the latest. */
  predicate Collects(d: seq<bit>, s: State)
    requires s.Valid()
  {
    var bytes := BytesOf(d);
    && s.acc == Acc(d)
    && s.count == |d| % 8
    && s.pos == Fill(|bytes|)
    && s.buffer[..s.pos] == bytes[|bytes| - s.pos..]
  }

  /** The state is what the bits since the last flag say: the window and the run of 1s are their last bits,
      and the data collected is their destuffing. */
  predicate Describes(segment: seq<bit>, from: nat, s: State)
    requires s.Valid()
  {
    && s.raw == Raw(segment)
    && s.ones == Ones(segment, from) % 256
    && Collects(Destuff(segment, from), s)
  }

  lemma DescribesReset(from: nat, buffer: seq<byte>)
    requires from < 256 && |buffer| == BUFFER_LEN
    ensures Describes([], from, Reset(from, buffer))
  {
  }

  lemma StoreLatest(buffer: seq<byte>, bytes: seq<byte>, b: byte)
    requires |buffer| == BUFFER_LEN
    requires buffer[..Fill(|bytes|)] == bytes[|bytes| - Fill(|bytes|)..]
    ensures var p := if Fill(|bytes|) >= 255 then 0 else Fill(|bytes|);
      && Fill(|bytes| + 1) == p + 1
      && buffer[p := b][..p + 1] == (bytes + [b])[|bytes| + 1 - (p + 1)..]
  {
  }

  lemma AccOfSnoc(d: seq<bit>, b: bit)
    ensures Acc(d + [b]) == Insert(Acc(d), b)
  {
    assert Front(d + [b]) == d;
  }

  lemma AccOfLastByte(d: seq<bit>, b: bit, z: seq<bit>)
    requires |d| >= 7 && z == d[|d| - 7..] + [b]
    ensures Acc(d + [b]) == ByteOf(z)
  {
    assert d + [b] == d[..|d| - 7] + z;
    AccOfByte(d[..|d| - 7], z);
  }

  lemma CollectsBit(d: seq<bit>, s: State, b: bit)
    requires s.Valid() && Collects(d, s) && s.count < 7
    ensures Collects(d + [b], TakeData(s, b))
  {
    AccOfSnoc(d, b);
    EightStep(|d|, s.count);
    BytesOfSnocPartial(d, b);
    SameBytes(d, d + [b], s, s.(acc := Insert(s.acc, b), count := s.count + 1));
  }

  lemma SameBytes(d: seq<bit>, e: seq<bit>, s: State, t: State)
    requires s.Valid() && t.Valid() && Collects(d, s) && BytesOf(e) == BytesOf(d)
    requires t.pos == s.pos && t.buffer == s.buffer && t.acc == Acc(e) && t.count == |e| % 8
    ensures Collects(e, t)
  {
  }

  lemma EightStep(n: nat, c: nat)
    requires n % 8 == c < 7
    ensures (n + 1) % 8 == c + 1 && (n + 1) / 8 == n / 8
  {
  }

  lemma CollectsByte(d: seq<bit>, s: State, b: bit)
    requires s.Valid() && Collects(d, s) && s.count == 7
    ensures Collects(d + [b], TakeData(s, b))
  {
    AccOfSnoc(d, b);
    AccOfLastByte(d, b, d[|d| - 7..] + [b]);
    BytesOfSnocFull(d, b);
    StoreLatest(s.buffer, BytesOf(d), Acc(d + [b]));
  }

  lemma CollectsData(d: seq<bit>, s: State, b: bit)
    requires s.Valid() && Collects(d, s)
    ensures Collects(d + [b], TakeData(s, b))
  {
    if s.count == 7 {
      CollectsByte(d, s, b);
    } else {
      CollectsBit(d, s, b);
    }
  }

  lemma DescribesWindow(segment: seq<bit>, from: nat, s: State, b: bit)
    requires s.Valid() && s.raw == Raw(segment) && s.ones == Ones(segment, from) % 256
    ensures TakeBit(s, b).raw == Raw(segment + [b])
    ensures TakeBit(s, b).ones == Ones(segment + [b], from) % 256
  {
    assert Front(segment + [b]) == segment;
  }

  lemma DescribesData(d: seq<bit>, s: State, b: bit)
    requires s.Valid() && Collects(d, s)
    ensures Collects(if b || s.ones < 5 then d + [b] else d, TakeBit(s, b))
  {
    var t := s.(raw := Push(s.raw, b), ones := if b then (s.ones + 1) % 256 else 0);
    assert Collects(d, t);
    if b || s.ones < 5 {
      CollectsData(d, t, b);
    }
  }

  lemma DescribesTakeBit(segment: seq<bit>, from: nat, s: State, b: bit)
    requires s.Valid() && Describes(segment, from, s)
    ensures Describes(segment + [b], from, TakeBit(s, b))
  {
    DescribesWindow(segment, from, s, b);
    DescribesData(Destuff(segment, from), s, b);
    StepDestuff(segment, b, from);
  }

  // ----- every bit stream -----

  /** The bits since the last flag: a flag is seen in the window, which starts empty after each flag. */
  function SinceFlag(bits: seq<bit>): seq<bit> {
    if bits == [] then []
    else
      var segment := SinceFlag(Front(bits)) + [Last(bits)];
      if Raw(segment) == FLAG then [] else segment
  }

  /** The count of 1s a segment starts with: 0 after a flag, else what it was at the start. */
  function OnesBefore(bits: seq<bit>, ones: nat): nat {
    if bits == [] then ones
    else if Raw(SinceFlag(Front(bits)) + [Last(bits)]) == FLAG then 0
    else OnesBefore(Front(bits), ones)
  }

  lemma {:induction false} OnesBeforeBound(bits: seq<bit>, ones: nat)
    ensures OnesBefore(bits, ones) == ones || OnesBefore(bits, ones) == 0
  {
    if bits == [] {
    } else {
      OnesBeforeBound(Front(bits), ones);
    }
  }

  /** The machine refines the batch description on every bit stream, whatever the unset count of 1s and the
      buffer hold at the start. */
  lemma {:induction false} RunDescribes(bits: seq<bit>, ones: nat, buffer: seq<byte>)
    requires ones < 256 && |buffer| == BUFFER_LEN
    ensures Describes(SinceFlag(bits), OnesBefore(bits, ones), Run(Reset(ones, buffer), bits))
  {
    if bits == [] {
      DescribesReset(ones, buffer);
    } else {
      var p, b := Front(bits), Last(bits);
      var s := Run(Reset(ones, buffer), p);
      RunDescribes(p, ones, buffer);
      OnesBeforeBound(p, ones);
      PushRaw(SinceFlag(p), b);
      if FlagEnds(s, b) {
        DescribesReset(0, s.buffer);
      } else {
        DescribesTakeBit(SinceFlag(p), OnesBefore(p, ones), s, b);
      }
    }
  }

  /** On every bit stream the buffer starts with the latest of the bytes since the last flag, and starts over
      after every 255 of them. */
  lemma RunDescribed(bits: seq<bit>, ones: nat, buffer: seq<byte>, s: State, bytes: seq<byte>)
    requires ones < 256 && |buffer| == BUFFER_LEN
    requires s == Run(Reset(ones, buffer), bits) && bytes == Received(bits, ones)
    ensures s.pos == (if |bytes| == 0 then 0 else (|bytes| - 1) % 255 + 1) <= |bytes|
    ensures s.buffer[..s.pos] == bytes[|bytes| - s.pos..]
  {
    RunDescribes(bits, ones, buffer);
    CollectedBytes(Destuff(SinceFlag(bits), OnesBefore(bits, ones)), s, bytes);
  }

  /** The whole bytes since the last flag. */
  function Received(bits: seq<bit>, ones: nat): seq<byte> {
    BytesOf(Destuff(SinceFlag(bits), OnesBefore(bits, ones)))
  }

  lemma CollectedBytes(d: seq<bit>, s: State, bytes: seq<byte>)
    requires s.Valid() && Collects(d, s) && bytes == BytesOf(d)
    ensures s.pos == (if |bytes| == 0 then 0 else (|bytes| - 1) % 255 + 1) <= |bytes|
    ensures s.buffer[..s.pos] == bytes[|bytes| - s.pos..]
  {
  }

  lemma PushRaw(segment: seq<bit>, b: bit)
    ensures Raw(segment + [b]) == Push(Raw(segment), b)
    ensures Raw(segment + [b]) == FLAG <==> !b && Ones(segment, 0) == 6
  {
    assert Front(segment + [b]) == segment;
    RawOnes(segment);
    FlagSeen(Raw(segment), b);
  }

  /** A buffer goes to the check exactly when a 0 follows exactly six 1s and at least 18 of the latest 255
      bytes have been collected; the buffer starts with them. */
  lemma CandidateDescribed(bits: seq<bit>, b: bit, ones: nat, buffer: seq<byte>)
    requires ones < 256 && |buffer| == BUFFER_LEN
    ensures var s := Run(Reset(ones, buffer), bits);
      var latest := Latest(bits, ones);
      Candidates(s, b) ==
        if !b && Ones(SinceFlag(bits), 0) == 6 && |latest| >= 18
        then [Candidate(latest + s.buffer[|latest|..], |latest|)]
        else []
  {
    var s := Run(Reset(ones, buffer), bits);
    RunDescribes(bits, ones, buffer);
    PushRaw(SinceFlag(bits), b);
    BufferHoldsLatest(SinceFlag(bits), OnesBefore(bits, ones), s);
  }

  /** The bytes collected since the last flag, as far as the buffer still has them. */
  function Latest(bits: seq<bit>, ones: nat): (r: seq<byte>)
    ensures |r| <= 255
  {
    var bytes := Received(bits, ones);
    bytes[|bytes| - Fill(|bytes|)..]
  }

  lemma BufferHoldsLatest(segment: seq<bit>, from: nat, s: State)
    requires s.Valid() && Describes(segment, from, s)
    ensures var bytes := BytesOf(Destuff(segment, from));
      var latest := bytes[|bytes| - Fill(|bytes|)..];
      s.pos == |latest| && s.buffer == latest + s.buffer[|latest|..]
  {
    assert s.buffer == s.buffer[..s.pos] + s.buffer[s.pos..];
  }

  lemma CheckedOne(c: Candidate)
    requires c.Valid()
    ensures CheckedAll([c]) == Checked(c)
  {
    assert Front([c]) == [];
  }

  /** A packet is handed out exactly when such a buffer passes the check. */
  lemma ReportDescribed(bits: seq<bit>, b: bit, ones: nat, buffer: seq<byte>)
    requires ones < 256 && |buffer| == BUFFER_LEN
    ensures var s := Run(Reset(ones, buffer), bits);
      var latest := Latest(bits, ones);
      var good := !b && Ones(SinceFlag(bits), 0) == 6 && |latest| >= 18 && Crc.Accepted(latest);
      Report(s, b) == if good then [Unpack(latest + s.buffer[|latest|..], |latest|)] else []
  {
    var s := Run(Reset(ones, buffer), bits);
    var latest := Latest(bits, ones);
    CandidateDescribed(bits, b, ones, buffer);
    if Candidates(s, b) != [] {
      var c := Candidate(latest + s.buffer[|latest|..], |latest|);
      assert c in Candidates(s, b);
      CheckedOne(c);
      assert c.buffer[..c.len] == latest;
    }
  }

  // ----- what can be handed out at all -----

  lemma CheckedFits(c: Candidate)
    requires c.Valid()
    ensures forall q | q in Checked(c) :: q.WellFormed() && |Pack(q)| <= 255
  {
    UnpackedWellFormed(c.buffer, c.len);
    var q := Unpack(c.buffer, c.len);
    var i := 16 + 7 * |q.repeaters|;
    assert |q.info| == InfoEnd(i, c.len) - i;
  }

  lemma {:induction false} CheckedAllFit(cs: seq<Candidate>)
    requires forall c | c in cs :: c.Valid()
    ensures forall q | q in CheckedAll(cs) :: q.WellFormed() && |Pack(q)| <= 255
  {
    if cs == [] {
    } else {
      CheckedAllFit(Front(cs));
      CheckedFits(Last(cs));
    }
  }

  /** Every packet that is handed out, from any state and by any bits, is well-formed and takes at most 255 bytes
      to pack. */
  lemma ReportsFit(s: State, bits: seq<bit>)
    requires s.Valid()
    ensures forall q | q in Reports(s, bits) :: q.WellFormed() && |Pack(q)| <= 255
  {
    CheckedAllFit(Found(s, bits));
  }

  // ----- from a flag to the next -----

  lemma {:induction false} RunQuiet(segment: seq<bit>, from: nat, buffer: seq<byte>)
    requires |buffer| == BUFFER_LEN && from < 256 && Quiet(segment)
    ensures Describes(segment, from, Run(Reset(from, buffer), segment))
    ensures Found(Reset(from, buffer), segment) == []
  {
    if segment == [] {
      DescribesReset(from, buffer);
    } else {
      var p, b := Front(segment), Last(segment);
      RunQuiet(p, from, buffer);
      DescribesTakeBit(p, from, Run(Reset(from, buffer), p), b);
      FrontLast(segment);
      PushRaw(p, b);
    }
  }

  lemma OneMoreOne(line: seq<bit>)
    requires Quiet(line)
    ensures Quiet(line + [true]) && Ones(line + [true], 0) == Ones(line, 0) + 1
    ensures Destuff(line + [true], 0) == Destuff(line, 0) + [true]
  {
    QuietStep(line, true);
    StepDestuff(line, true, 0);
  }

  lemma {:induction false} MoreOnes(line: seq<bit>, d: seq<bit>, n: nat)
    requires Quiet(line) && Ones(line, 0) == 0 && Destuff(line, 0) == d
    ensures Quiet(line + Trues(n)) && Ones(line + Trues(n), 0) == n && Destuff(line + Trues(n), 0) == d + Trues(n)
  {
    if n == 0 {
      assert line + Trues(0) == line && d + Trues(0) == d;
    } else {
      MoreOnes(line, d, n - 1);
      OneMoreOne(line + Trues(n - 1));
      Assoc(line, Trues(n - 1), [true]);
      Assoc(d, Trues(n - 1), [true]);
    }
  }

  lemma FirstZero(line: seq<bit>)
    requires Quiet(line) && Ones(line, 0) < 5
    ensures Quiet(line + [false]) && Ones(line + [false], 0) == 0
    ensures Destuff(line + [false], 0) == Destuff(line, 0) + [false]
  {
    QuietStep(line, false);
    StepDestuff(line, false, 0);
  }

  /** 1s after a stuffed body and the first 0 of a flag. */
  lemma FlagHead(bits: seq<bit>, n: nat)
    ensures var line := Stuff(bits) + [false] + Trues(n);
      Quiet(line) && Ones(line, 0) == n && Destuff(line, 0) == bits + [false] + Trues(n)
  {
    StuffQuiet(bits);
    DestuffStuff(bits);
    FirstZero(Stuff(bits));
    MoreOnes(Stuff(bits) + [false], bits + [false], n);
  }

  lemma BytesOfBody(body: seq<byte>, z: seq<bit>)
    requires |z| == 7
    ensures BytesOf(BytesBits(body) + z) == body
  {
    BytesOfPartial(BytesBits(body) + z);
    assert (BytesBits(body) + z)[..8 * |body|] == BytesBits(body);
    BytesOfBytesBits(body);
  }

  lemma BufferHoldsBody(line: seq<bit>, body: seq<byte>, s: State)
    requires s.Valid() && Describes(line, 0, s)
    requires BytesOf(Destuff(line, 0)) == body && |body| <= 255
    ensures s.pos == |body| && body <= s.buffer
  {
    CollectedBytes(Destuff(line, 0), s, body);
    AllOfThem(s.buffer, body, s.pos);
  }

  lemma AllOfThem(buffer: seq<byte>, body: seq<byte>, n: nat)
    requires n == (if |body| == 0 then 0 else (|body| - 1) % 255 + 1) <= |body| <= 255 && n <= |buffer|
    requires buffer[..n] == body[|body| - n..]
    ensures n == |body| && body <= buffer
  {
    assert n == |body|;
  }

  /** A frame of at most 255 bytes from a reset receiver: nothing is seen before the last bit of the closing
      flag, which finds exactly the body in the buffer. */
  lemma Frame(body: seq<byte>, buffer: seq<byte>)
    requires |body| <= 255 && |buffer| == BUFFER_LEN
    ensures var line := Stuff(BytesBits(body)) + [false] + Trues(6);
      var s := Run(Reset(0, buffer), line);
      && s.pos == |body| && body <= s.buffer
      && FlagEnds(s, false)
      && Found(Reset(0, buffer), line) == []
  {
    var bits := BytesBits(body);
    var line := Stuff(bits) + [false] + Trues(6);
    FlagHead(bits, 6);
    RunQuiet(line, 0, buffer);
    PushRaw(line, false);
    Assoc(bits, [false], Trues(6));
    BytesOfBody(body, [false] + Trues(6));
    BufferHoldsBody(line, body, Run(Reset(0, buffer), line));
  }

  // ----- from any state -----

  lemma OneInWindow(s: State)
    requires s.Valid() && LowOnes(s.raw) < 8
    ensures LowOnes(Next(s, true).raw) == LowOnes(s.raw) + 1 && Candidates(s, true) == []
  {
    FlagSeen(s.raw, true);
  }

  lemma {:induction false} OnesInWindow(s: State, n: nat)
    requires s.Valid() && LowOnes(s.raw) == 0 && n <= 6
    ensures LowOnes(Run(s, Trues(n)).raw) == n && Found(s, Trues(n)) == []
  {
    if n == 0 {
    } else {
      OnesInWindow(s, n - 1);
      RunSnoc(s, Trues(n - 1), true);
      OneInWindow(Run(s, Trues(n - 1)));
    }
  }

  /** The eight bits of one flag reset the receiver, whatever its state. */
  lemma FlagResets(s: State)
    requires s.Valid()
    ensures Run(s, FlagBits()) == Reset(0, Run(s, FlagBits()).buffer)
  {
    var t := Run(s, [false]);
    assert Front([false]) == [];
    FlagSeen(s.raw, false);
    assert LowOnes(0) == 0;
    OnesInWindow(t, 6);
    RunConcat(s, [false], Trues(6));
    var u := Run(s, [false] + Trues(6));
    FlagSeen(u.raw, false);
    FlagBitsShape();
    assert Front(FlagBits()) == [false] + Trues(6);
  }

  /** Few bits hold few bytes, so they can complete at most a packet that was collected before them. */
  lemma {:induction false} FewBits(s: State, bits: seq<bit>)
    requires s.Valid() && |bits| <= MIN_PACKET_LEN
    ensures Run(s, bits).pos <= s.pos + |bits|
    ensures |Found(s, bits)| <= 1
    ensures Found(s, bits) != [] ==> Run(s, bits).pos < |bits|
    ensures s.pos == 0 ==> Found(s, bits) == []
  {
    if bits == [] {
    } else {
      FewBits(s, Front(bits));
    }
  }

  predicate IsReset(s: State) {
    s == Reset(0, s.buffer) && |s.buffer| == BUFFER_LEN
  }

  // ----- what a piece of line does to the receiver -----

  /** Reset again, and nothing has been found. */
  predicate IdlesAt(s: State, line: seq<bit>)
    requires s.Valid()
  {
    IsReset(Run(s, line)) && Found(s, line) == []
  }

  ghost predicate Idles(line: seq<bit>) {
    forall s: State {:trigger IdlesAt(s, line)} | IsReset(s) :: IdlesAt(s, line)
  }

  /** A candidate whose buffer starts with the body. */
  predicate Holds(c: Candidate, body: seq<byte>) {
    c.Valid() && c.len == |body| && body <= c.buffer
  }

  /** Reset again, and exactly this body has been found. */
  predicate FramesAt(s: State, line: seq<bit>, body: seq<byte>)
    requires s.Valid()
  {
    IsReset(Run(s, line)) && |Found(s, line)| == 1 && Holds(Found(s, line)[0], body)
  }

  ghost predicate Frames(line: seq<bit>, body: seq<byte>) {
    forall s: State {:trigger FramesAt(s, line, body)} | IsReset(s) :: FramesAt(s, line, body)
  }

  /** Reset, and only what had been collected before may have been found. */
  predicate OpensAt(s: State, line: seq<bit>)
    requires s.Valid()
  {
    IsReset(Run(s, line)) && |Found(s, line)| <= 1 && (s.pos == 0 ==> Found(s, line) == [])
  }

  ghost predicate Opens(line: seq<bit>) {
    forall s: State {:trigger OpensAt(s, line)} | s.Valid() :: OpensAt(s, line)
  }

  /** Reset, and this body has been found, last and once. */
  predicate CarriesAt(s: State, line: seq<bit>, body: seq<byte>)
    requires s.Valid()
  {
    && IsReset(Run(s, line))
    && 1 <= |Found(s, line)| <= 2 && (s.pos == 0 ==> |Found(s, line)| == 1)
    && Holds(Last(Found(s, line)), body)
  }

  ghost predicate Carries(line: seq<bit>, body: seq<byte>) {
    forall s: State {:trigger CarriesAt(s, line, body)} | s.Valid() :: CarriesAt(s, line, body)
  }

  lemma OpensThenIdlesAt(s: State, a: seq<bit>, b: seq<bit>)
    requires s.Valid() && OpensAt(s, a) && IdlesAt(Run(s, a), b)
    ensures OpensAt(s, a + b)
  {
    RunConcat(s, a, b);
  }

  lemma OpensThenIdles(a: seq<bit>, b: seq<bit>)
    requires Opens(a) && Idles(b)
    ensures Opens(a + b)
  {
    forall s: State | s.Valid()
      ensures OpensAt(s, a + b)
    {
      assert OpensAt(s, a) && IdlesAt(Run(s, a), b);
      OpensThenIdlesAt(s, a, b);
    }
  }

  lemma OpensThenFramesAt(s: State, a: seq<bit>, b: seq<bit>, body: seq<byte>)
    requires s.Valid() && OpensAt(s, a) && FramesAt(Run(s, a), b, body)
    ensures CarriesAt(s, a + b, body)
  {
    RunConcat(s, a, b);
    assert Last(Found(s, a) + Found(Run(s, a), b)) == Found(Run(s, a), b)[0];
  }

  lemma OpensThenFrames(a: seq<bit>, b: seq<bit>, body: seq<byte>)
    requires Opens(a) && Frames(b, body)
    ensures Carries(a + b, body)
  {
    forall s: State | s.Valid()
      ensures CarriesAt(s, a + b, body)
    {
      assert OpensAt(s, a) && FramesAt(Run(s, a), b, body);
      OpensThenFramesAt(s, a, b, body);
    }
  }

  lemma CarriesThenIdlesAt(s: State, a: seq<bit>, b: seq<bit>, body: seq<byte>)
    requires s.Valid() && CarriesAt(s, a, body) && IdlesAt(Run(s, a), b)
    ensures CarriesAt(s, a + b, body)
  {
    RunConcat(s, a, b);
    assert Found(s, a) + [] == Found(s, a);
  }

  lemma CarriesThenIdles(a: seq<bit>, b: seq<bit>, body: seq<byte>)
    requires Carries(a, body) && Idles(b)
    ensures Carries(a + b, body)
  {
    forall s: State | s.Valid()
      ensures CarriesAt(s, a + b, body)
    {
      assert CarriesAt(s, a, body) && IdlesAt(Run(s, a), b);
      CarriesThenIdlesAt(s, a, b, body);
    }
  }

  lemma IdlesThenIdlesAt(s: State, a: seq<bit>, b: seq<bit>)
    requires s.Valid() && IdlesAt(s, a) && IdlesAt(Run(s, a), b)
    ensures IdlesAt(s, a + b)
  {
    RunConcat(s, a, b);
  }

  lemma IdlesThenIdles(a: seq<bit>, b: seq<bit>)
    requires Idles(a) && Idles(b)
    ensures Idles(a + b)
  {
    forall s: State | IsReset(s)
      ensures IdlesAt(s, a + b)
    {
      assert IdlesAt(s, a) && IdlesAt(Run(s, a), b);
      IdlesThenIdlesAt(s, a, b);
    }
  }

  lemma EmptyIdles()
    ensures Idles([])
  {
  }

  lemma FlagOpensAt(s: State, before: seq<bit>)
    requires s.Valid() && |before| <= 10
    ensures OpensAt(s, before + FlagBits())
  {
    RunConcat(s, before, FlagBits());
    FlagResets(Run(s, before));
    FewBits(s, before + FlagBits());
  }

  /** One flag after at most ten bits of anything. */
  lemma FlagOpens(before: seq<bit>)
    requires |before| <= 10
    ensures Opens(before + FlagBits())
  {
    forall s: State | s.Valid()
      ensures OpensAt(s, before + FlagBits())
    {
      FlagOpensAt(s, before);
    }
  }

  lemma FlagIdles()
    ensures Idles(FlagBits())
  {
    forall s: State | IsReset(s)
      ensures IdlesAt(s, FlagBits())
    {
      FlagOpensAt(s, []);
      assert [] + FlagBits() == FlagBits();
    }
  }

  /** Flags after a reset deliver nothing. */
  lemma {:induction false} FlagsIdle(n: nat)
    ensures Idles(Flags(n))
  {
    if n == 0 {
      EmptyIdles();
    } else {
      FlagsIdle(n - 1);
      FlagIdles();
      IdlesThenIdles(Flags(n - 1), FlagBits());
    }
  }

  /** A body of any length and its closing flag: one buffer is found at most. */
  lemma StuffedBodyEnds(s: State, body: seq<byte>)
    requires IsReset(s)
    ensures var line := Stuff(BytesBits(body)) + FlagBits();
      IsReset(Run(s, line)) && |Found(s, line)| <= 1
  {
    var stuffed := Stuff(BytesBits(body));
    EndsWithFlag(stuffed);
    FlagHead(BytesBits(body), 6);
    RunQuiet(stuffed + [false] + Trues(6), 0, s.buffer);
    RunSnoc(s, stuffed + [false] + Trues(6), false);
    RunConcat(s, stuffed, FlagBits());
    FlagResets(Run(s, stuffed));
  }

  /** What comes between two idle pieces is found as if they were not there. */
  lemma BetweenIdles(s: State, a: seq<bit>, b: seq<bit>, c: seq<bit>)
    requires IsReset(s) && Idles(a) && Idles(c) && IsReset(Run(Run(s, a), b))
    ensures IsReset(Run(s, a + b + c)) && Found(s, a + b + c) == Found(Run(s, a), b)
  {
    assert IdlesAt(s, a) && IdlesAt(Run(Run(s, a), b), c);
    RunConcat(s, a, b);
    RunConcat(s, a + b, c);
  }

  lemma FrameRun(s: State, body: seq<byte>, line: seq<bit>)
    requires IsReset(s) && MIN_PACKET_LEN <= |body| <= 255
    requires line == Stuff(BytesBits(body)) + [false] + Trues(6) + [false]
    ensures FramesAt(s, line, body)
  {
    Frame(body, s.buffer);
    RunSnoc(s, Stuff(BytesBits(body)) + [false] + Trues(6), false);
  }

  lemma EndsWithFlag(line: seq<bit>)
    ensures line + FlagBits() == line + [false] + Trues(6) + [false]
  {
    FlagBitsShape();
  }

  /** A stuffed body of 18 to 255 bytes and its closing flag are a frame. */
  lemma StuffedBodyFrames(body: seq<byte>)
    requires MIN_PACKET_LEN <= |body| <= 255
    ensures Frames(Stuff(BytesBits(body)) + FlagBits(), body)
  {
    var stuffed := Stuff(BytesBits(body));
    var line := stuffed + FlagBits();
    EndsWithFlag(stuffed);
    forall s: State | IsReset(s)
      ensures FramesAt(s, line, body)
    {
      FrameRun(s, body, line);
    }
  }
}
