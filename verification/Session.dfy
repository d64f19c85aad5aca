/** Whole sessions: any number of transmissions and what lies between them, and what one receiver delivers for
    each of them. */
module Session {
  import opened Bits
  import opened Hdlc
  import opened LineCode
  import opened Ax25Packet
  import BitDetector
  import Deframer
  import Idle
  import Link

  // ----- an idle line before a transmission -----

  /** The samples of an idle line give some bits of its level. */
  lemma IdleOutput(p: nat, d: BitDetector.State, v: bit, n: nat) returns (i: nat)
    requires 0 <= d.wait <= p
    ensures BitDetector.Output(p, d, BitDetector.Same(v, n)) == BitDetector.Same(v, i)
    ensures n > 0 ==> BitDetector.Run(p, d, BitDetector.Same(v, n)).last == Some(v)
    ensures n == 0 ==> i == 0
  {
    if n == 0 {
      i := 0;
    } else if d.last == Some(v) {
      BitDetector.HoldLevel(p, d, v, n);
      i := BitDetector.Count(p, d.wait, n);
    } else {
      BitDetector.NewLevel(p, d, v, n);
      i := BitDetector.Count(p, p / 2, n - 1);
    }
  }

  /** In the line code a level is its first bit and then 1s. */
  lemma {:induction false} DecodedSame(from: bit, v: bit, n: nat)
    requires n >= 1
    ensures Decoded(from, BitDetector.Same(v, n)) == [v == from] + Trues(n - 1)
  {
    var s := BitDetector.Same(v, n - 1);
    DecodedSnoc(from, s, v);
    if s == [] {
      assert Decoded(from, s) == [] && Trues(n - 1) == [];
    } else {
      DecodedSame(from, v, n - 1);
      Assoc([v == from], Trues(n - 2), [true]);
    }
  }

  /** The bits before the first 0 that follows an idle line: its 1s go on into the first level, or the first flag
      is seen. */
  function BeforeZero(b: bit, k: nat, z: bool): seq<bit> {
    [b] + Trues(k) + (if z then [] else [false] + Trues(6))
  }

  lemma OneLevelDecoded(from: bit, v: bit, n: nat)
    requires n >= 1
    ensures Decoded(from, BitDetector.Same(v, n)) == BeforeZero(v == from, n - 1, true)
  {
    DecodedSame(from, v, n);
    assert [v == from] + Trues(n - 1) + [] == [v == from] + Trues(n - 1);
  }

  lemma TwoLevelsDecoded(from: bit, u: bit, i: nat, v: bit, m: nat)
    requires i >= 1 && u != v && m == 7
    ensures Decoded(from, BitDetector.Same(u, i) + BitDetector.Same(v, m)) == BeforeZero(u == from, i - 1, false)
  {
    DecodedConcat(from, BitDetector.Same(u, i), BitDetector.Same(v, m));
    DecodedSame(from, u, i);
    DecodedSame(u, v, m);
  }

  lemma LevelsJoin(u: bit, i: nat, v: bit, m: nat)
    requires i == 0 || u == v
    ensures BitDetector.Same(u, i) + BitDetector.Same(v, m) == BitDetector.Same(v, i + m)
  {
    BitDetector.SamePlus(v, i, m);
  }

  /** Decoded: `i` bits of the idle level `u`, then `m` bits of the first level `v` of a transmission. */
  lemma DecodedIdle(from: bit, u: bit, i: nat, v: bit, m: nat, y: seq<bit>) returns (b: bit, k: nat, z: bool)
    requires m >= 1 && (i == 0 || u == v || m == 7)
    requires y == Decoded(from, BitDetector.Same(u, i) + BitDetector.Same(v, m))
    ensures y == BeforeZero(b, k, z)
  {
    if i == 0 || u == v {
      LevelsJoin(u, i, v, m);
      OneLevelDecoded(from, v, i + m);
      b, k, z := v == from, i + m - 1, true;
    } else {
      TwoLevelsDecoded(from, u, i, v, m);
      b, k, z := u == from, i - 1, false;
    }
  }

  /** What comes after an idle line and its flag. */
  function AfterIdle(h: nat, body: seq<byte>, m: nat): seq<bit> {
    Flags(h) + (Stuff(BytesBits(body)) + FlagBits()) + Flags(m)
  }

  lemma PartsAfterIdle(y: seq<bit>, b: bit, k: nat, z: bool, head: nat, body: seq<byte>, tail: nat)
    requires head >= 2 && tail >= 1
    requires y == BeforeZero(b, k, z)
    ensures y + Link.AfterOpening(head, body, tail) ==
            Idle.IdleLine(b, k, z) + AfterIdle(head - (if z then 2 else 1), body, tail - 1)
  {
    var stuffed, h := Stuff(BytesBits(body)), head - (if z then 2 else 1);
    FirstParts(y, b, k, z);
    ClosingParts(y, Flags(head - 1), stuffed, tail);
    if z {
      FlagsFromFront(head - 1);
      RegroupFirst(y + [false], FlagBits(), Flags(h), stuffed + FlagBits(), Flags(tail - 1));
    }
  }

  lemma ClosingParts(y: seq<bit>, f: seq<bit>, stuffed: seq<bit>, tail: nat)
    requires tail >= 1
    ensures y + ([false] + f + stuffed + Flags(tail)) == (y + [false]) + (f + (stuffed + FlagBits()) + Flags(tail - 1))
  {
    FlagsFromFront(tail);
    Regroup(y, [false], f, stuffed, FlagBits(), Flags(tail - 1));
  }

  lemma Regroup<T>(y: seq<T>, z: seq<T>, f: seq<T>, s: seq<T>, g: seq<T>, t: seq<T>)
    ensures y + (z + f + s + (g + t)) == (y + z) + (f + (s + g) + t)
  {
  }

  lemma RegroupFirst<T>(y: seq<T>, g: seq<T>, f: seq<T>, s: seq<T>, t: seq<T>)
    ensures y + ((g + f) + s + t) == (y + g) + (f + s + t)
  {
  }

  lemma FirstParts(y: seq<bit>, b: bit, k: nat, z: bool)
    requires y == BeforeZero(b, k, z)
    ensures Idle.IdleLine(b, k, z) == if z then (y + [false]) + FlagBits() else y + [false]
  {
    FlagBitsShape();
    var start := [b] + Trues(k);
    if z {
      assert start + [] == start;
    } else {
      assert start + [] == start;
      assert start + ([false] + Trues(6)) + [false] == start + ([false] + Trues(6) + [false]);
    }
  }

  // ----- one turn -----

  /** One transmission, after `idle` samples of the line at the level `level`. */
  datatype Turn = Turn(idle: nat, level: bit, x: Link.Send, packet: Packet) {
    predicate Valid() {
      Link.Packs(x, packet) && x.head >= 2 && x.tail >= 1
    }

    function Levels(p: nat): seq<bit> {
      BitDetector.Same(level, idle) + Link.Levels(p, x)
    }

    /** The receiver's buffer has room for it. */
    predicate Short() {
      |x.body| <= 255
    }

    /** What is delivered for it: the packet and nothing else; for a long one at most one packet, and not this. */
    predicate Delivered(share: seq<Packet>) {
      if Short() then share == [packet] else |share| <= 1 && packet !in share
    }
  }

  predicate Ready(p: nat, r: Link.Receiver) {
    r.Valid(p) && Idle.IsClear(r.deframer)
  }

  lemma PartsOfTurn(x: Link.Send, b: bit, k: nat, z: bool, y: seq<bit>, bits: seq<bit>) returns (h: nat, m: nat)
    requires x.head >= 2 && x.tail >= 1 && y == BeforeZero(b, k, z)
    requires bits == y + Link.AfterOpening(x.head, x.body, x.tail)
    ensures bits == Idle.IdleLine(b, k, z) + AfterIdle(h, x.body, m)
  {
    PartsAfterIdle(y, b, k, z, x.head, x.body, x.tail);
    h, m := x.head - (if z then 2 else 1), x.tail - 1;
  }

  lemma TurnDecoded(p: nat, r: Link.Receiver, turn: Turn) returns (b: bit, k: nat, z: bool, h: nat, m: nat)
    requires p >= 15 && r.Valid(p) && turn.x.head >= 2 && turn.x.tail >= 1
    ensures Link.DecodedBits(p, r, turn.Levels(p)) == Idle.IdleLine(b, k, z) + AfterIdle(h, turn.x.body, m)
  {
    var i, n, y := TurnLevels(p, r, turn);
    b, k, z := DecodedIdle(r.level, turn.level, i, true != turn.x.inverted, n, y);
    h, m := PartsOfTurn(turn.x, b, k, z, y, Link.DecodedBits(p, r, turn.Levels(p)));
  }

  lemma TurnLevels(p: nat, r: Link.Receiver, turn: Turn) returns (i: nat, m: nat, y: seq<bit>)
    requires p >= 15 && r.Valid(p) && turn.x.head >= 1
    ensures m >= 1 && (i == 0 || turn.level == (true != turn.x.inverted) || m == 7)
    ensures y == Decoded(r.level, BitDetector.Same(turn.level, i) + BitDetector.Same(true != turn.x.inverted, m))
    ensures Link.DecodedBits(p, r, turn.Levels(p)) == y + Link.AfterOpening(turn.x.head, turn.x.body, turn.x.tail)
  {
    var x, idle := turn.x, BitDetector.Same(turn.level, turn.idle);
    i := IdleOutput(p, r.detector, turn.level, turn.idle);
    Link.ReceiveKeepsValid(p, r, idle);
    m := Link.DecodedLine(p, Link.Receive(p, r, idle), x.head, x.body, x.tail, x.inverted);
    BothDecoded(p, r, idle, Link.Levels(p, x), BitDetector.Same(turn.level, i), BitDetector.Same(true != x.inverted, m),
                Link.AfterOpening(x.head, x.body, x.tail));
    y := Decoded(r.level, BitDetector.Same(turn.level, i) + BitDetector.Same(true != x.inverted, m));
  }

  lemma BothDecoded(p: nat, r: Link.Receiver, a: seq<bit>, levels: seq<bit>, x: seq<bit>, y: seq<bit>, c: seq<bit>)
    requires r.deframer.Valid() && BitDetector.Output(p, r.detector, a) == x
    requires Link.DecodedBits(p, Link.Receive(p, r, a), levels) == Decoded(LevelAfter(r.level, x), y) + c
    ensures Link.DecodedBits(p, r, a + levels) == Decoded(r.level, x + y) + c
  {
    Link.DecodedTwoParts(p, r, a, x, levels, BitDetector.Output(p, BitDetector.Run(p, r.detector, a), levels));
    DecodedConcat(r.level, x, y);
    Assoc(Decoded(r.level, x), Decoded(LevelAfter(r.level, x), y), c);
  }

  /** A frame from a reset deframer: one buffer at most is found, where its closing flag is. */
  lemma FrameAfterIdle(s: Deframer.State, h: nat, body: seq<byte>, m: nat)
    requires Deframer.IsReset(s)
    ensures var line, t := AfterIdle(h, body, m), Deframer.Run(s, Flags(h));
      && Deframer.IsReset(Deframer.Run(s, line)) && Deframer.IsReset(t)
      && Deframer.Found(s, line) == Deframer.Found(t, Stuff(BytesBits(body)) + FlagBits())
      && |Deframer.Found(s, line)| <= 1
  {
    Deframer.FlagsIdle(h);
    Deframer.FlagsIdle(m);
    assert Deframer.IdlesAt(s, Flags(h));
    var t := Deframer.Run(s, Flags(h));
    Deframer.StuffedBodyEnds(t, body);
    Deframer.BetweenIdles(s, Flags(h), Stuff(BytesBits(body)) + FlagBits(), Flags(m));
  }

  lemma FrameReports(s: Deframer.State, h: nat, turn: Turn, m: nat)
    requires Deframer.IsReset(s) && turn.Valid()
    ensures turn.Delivered(Deframer.Reports(s, AfterIdle(h, turn.x.body, m)))
  {
    FrameAfterIdle(s, h, turn.x.body, m);
    FoundDelivered(s, AfterIdle(h, turn.x.body, m), Deframer.Run(s, Flags(h)), turn);
  }

  lemma FoundDelivered(s: Deframer.State, line: seq<bit>, t: Deframer.State, turn: Turn)
    requires s.Valid() && Deframer.IsReset(t) && turn.Valid()
    requires var frame := Stuff(BytesBits(turn.x.body)) + FlagBits();
      Deframer.Found(s, line) == Deframer.Found(t, frame) && |Deframer.Found(t, frame)| <= 1
    ensures turn.Delivered(Deframer.Reports(s, line))
  {
    Link.PackedLongEnough(turn.x, turn.packet);
    if turn.Short() {
      Deframer.StuffedBodyFrames(turn.x.body);
      assert Deframer.FramesAt(t, Stuff(BytesBits(turn.x.body)) + FlagBits(), turn.x.body);
      OneFoundDelivered(Deframer.Found(s, line), turn);
    } else {
      Deframer.ReportsFit(s, line);
      FewFound(Deframer.Found(s, line));
    }
  }

  lemma OneFoundDelivered(found: seq<Deframer.Candidate>, turn: Turn)
    requires turn.Valid() && |found| == 1 && Deframer.Holds(found[0], turn.x.body)
    ensures (forall c | c in found :: c.Valid()) && Deframer.CheckedAll(found) == [turn.packet]
  {
    assert found == [found[0]];
    Link.PackedAccepted(turn.x, turn.packet, found[0]);
    Deframer.CheckedOne(found[0]);
  }

  lemma FewFound(found: seq<Deframer.Candidate>)
    requires |found| <= 1 && forall c | c in found :: c.Valid()
    ensures |Deframer.CheckedAll(found)| <= 1
  {
    if found != [] {
      assert found == [found[0]] && found[0] in found;
      Deframer.CheckedOne(found[0]);
    }
  }

  lemma SkipIdle(s: Deframer.State, b: bit, k: nat, z: bool, rest: seq<bit>, line: seq<bit>)
    requires Idle.IsClear(s) && line == Idle.IdleLine(b, k, z) + rest
    ensures var t := Deframer.Run(s, Idle.IdleLine(b, k, z));
      && Deframer.IsReset(t)
      && Deframer.Reports(s, line) == Deframer.Reports(t, rest) && Deframer.Run(s, line) == Deframer.Run(t, rest)
  {
    Idle.IdleLineReports(s, b, k, z);
    Deframer.RunConcat(s, Idle.IdleLine(b, k, z), rest);
    Deframer.ReportsConcat(s, Idle.IdleLine(b, k, z), rest);
  }

  /** A turn is what its frame is, for a deframer that the idle line has reset. */
  lemma TurnIsFrame(p: nat, r: Link.Receiver, turn: Turn) returns (t: Deframer.State, h: nat, m: nat)
    requires p >= 15 && Ready(p, r) && turn.x.head >= 2 && turn.x.tail >= 1
    ensures Deframer.IsReset(t)
    ensures var rest := AfterIdle(h, turn.x.body, m);
      && Link.Deliveries(p, r, turn.Levels(p)) == Deframer.Reports(t, rest)
      && Link.Receive(p, r, turn.Levels(p)).deframer == Deframer.Run(t, rest)
  {
    var b, k, z;
    b, k, z, h, m := TurnDecoded(p, r, turn);
    t := Deframer.Run(r.deframer, Idle.IdleLine(b, k, z));
    SkipIdle(r.deframer, b, k, z, AfterIdle(h, turn.x.body, m), Link.DecodedBits(p, r, turn.Levels(p)));
  }

  /** After a turn the receiver has nothing collected, ... */
  lemma TurnReady(p: nat, r: Link.Receiver, turn: Turn)
    requires p >= 15 && Ready(p, r) && turn.x.head >= 2 && turn.x.tail >= 1
    ensures Ready(p, Link.Receive(p, r, turn.Levels(p)))
  {
    var t, h, m := TurnIsFrame(p, r, turn);
    FrameAfterIdle(t, h, turn.x.body, m);
    Link.ReceiveKeepsValid(p, r, turn.Levels(p));
  }

  /** ... and what it has delivered is what the turn promises. */
  lemma TurnDelivered(p: nat, r: Link.Receiver, turn: Turn)
    requires p >= 15 && Ready(p, r) && turn.Valid()
    ensures turn.Delivered(Link.Deliveries(p, r, turn.Levels(p)))
  {
    var t, h, m := TurnIsFrame(p, r, turn);
    FrameReports(t, h, turn, m);
  }

  // ----- any number of turns -----

  function AllLevels(p: nat, turns: seq<Turn>): seq<bit> {
    if turns == [] then [] else AllLevels(p, Front(turns)) + Last(turns).Levels(p)
  }

  /** What is delivered during each turn. */
  function Shares(p: nat, r: Link.Receiver, turns: seq<Turn>): (shares: seq<seq<Packet>>)
    requires r.deframer.Valid()
    ensures |shares| == |turns|
  {
    if turns == [] then []
    else
      Shares(p, r, Front(turns))
      + [Link.Deliveries(p, Link.Receive(p, r, AllLevels(p, Front(turns))), Last(turns).Levels(p))]
  }

  function Flatten(shares: seq<seq<Packet>>): seq<Packet> {
    if shares == [] then [] else Flatten(Front(shares)) + Last(shares)
  }

  lemma NoLevels(p: nat, r: Link.Receiver)
    requires r.deframer.Valid()
    ensures Link.Receive(p, r, []) == r && Link.Deliveries(p, r, []) == []
  {
  }

  /** Together they are what is delivered. */
  lemma {:induction false} SharesAreAll(p: nat, r: Link.Receiver, turns: seq<Turn>)
    requires r.deframer.Valid()
    ensures Flatten(Shares(p, r, turns)) == Link.Deliveries(p, r, AllLevels(p, turns))
  {
    if turns == [] {
      NoLevels(p, r);
    } else {
      var f := Front(turns);
      SharesAreAll(p, r, f);
      Link.ReceiveConcat(p, r, AllLevels(p, f), Last(turns).Levels(p));
      assert Front(Shares(p, r, turns)) == Shares(p, r, f);
    }
  }

  /** Each share is what the turn promises. */
  predicate AllDelivered(turns: seq<Turn>, shares: seq<seq<Packet>>) {
    |turns| == |shares| &&
    (turns == [] || (AllDelivered(Front(turns), Front(shares)) && Last(turns).Delivered(Last(shares))))
  }

  lemma {:induction false} DeliveredAt(turns: seq<Turn>, shares: seq<seq<Packet>>, i: nat)
    requires AllDelivered(turns, shares) && i < |turns|
    ensures turns[i].Delivered(shares[i])
  {
    if i == |turns| - 1 {
    } else {
      DeliveredAt(Front(turns), Front(shares), i);
    }
  }

  lemma OneMoreTurn(p: nat, r: Link.Receiver, f: seq<Turn>, turn: Turn)
    requires p >= 15 && r.deframer.Valid() && turn.Valid() && Ready(p, Link.Receive(p, r, AllLevels(p, f)))
    requires AllDelivered(f, Shares(p, r, f))
    ensures AllDelivered(f + [turn], Shares(p, r, f + [turn]))
    ensures Ready(p, Link.Receive(p, r, AllLevels(p, f + [turn])))
  {
    TurnDelivered(p, Link.Receive(p, r, AllLevels(p, f)), turn);
    TurnReady(p, Link.Receive(p, r, AllLevels(p, f)), turn);
    Link.ReceiveConcat(p, r, AllLevels(p, f), turn.Levels(p));
    assert Front(f + [turn]) == f;
    assert Front(Shares(p, r, f + [turn])) == Shares(p, r, f);
  }

  /** A session: every short packet is delivered in its turn, once and with nothing else, whatever the idle
      times and levels between the transmissions and whatever long packets are among them; a long one costs at
      most one packet that is not it. */
  lemma {:induction false} EveryTurnDelivered(p: nat, r: Link.Receiver, turns: seq<Turn>)
    requires p >= 15 && Ready(p, r) && forall i | 0 <= i < |turns| :: turns[i].Valid()
    ensures AllDelivered(turns, Shares(p, r, turns))
    ensures Ready(p, Link.Receive(p, r, AllLevels(p, turns)))
  {
    if turns == [] {
      NoLevels(p, r);
    } else {
      EveryTurnDelivered(p, r, Front(turns));
      OneMoreTurn(p, r, Front(turns), Last(turns));
      FrontLast(turns);
    }
  }

  function Packets(turns: seq<Turn>): (r: seq<Packet>)
    ensures |r| == |turns|
  {
    seq(|turns|, i requires 0 <= i < |turns| => turns[i].packet)
  }

  lemma {:induction false} ShortDelivered(turns: seq<Turn>, shares: seq<seq<Packet>>)
    requires AllDelivered(turns, shares) && forall i | 0 <= i < |turns| :: turns[i].Short()
    ensures Flatten(shares) == Packets(turns)
  {
    if turns == [] {
    } else {
      ShortDelivered(Front(turns), Front(shares));
      assert Packets(turns) == Packets(Front(turns)) + [Last(turns).packet];
    }
  }

  lemma LevelReportsNothing(s: Deframer.State, from: bit, v: bit, i: nat)
    requires Idle.IsClear(s)
    ensures Deframer.Reports(s, Decoded(from, BitDetector.Same(v, i))) == []
  {
    if i > 0 {
      DecodedSame(from, v, i);
      Idle.IdleAlone(s, v == from, i - 1);
    }
  }

  /** The line may stay idle after the last turn: nothing more comes. */
  lemma IdleDeliversNothing(p: nat, r: Link.Receiver, v: bit, n: nat)
    requires Ready(p, r)
    ensures Link.Deliveries(p, r, BitDetector.Same(v, n)) == []
  {
    var i := IdleOutput(p, r.detector, v, n);
    LevelReportsNothing(r.deframer, r.level, v, i);
  }

  /** Turns and an idle line after them, to a fresh receiver. */
  lemma SessionDelivered(p: nat, r: Link.Receiver, turns: seq<Turn>, v: bit, n: nat)
    requires p >= 15 && Ready(p, r) && forall i | 0 <= i < |turns| :: turns[i].Valid()
    ensures Link.Deliveries(p, r, AllLevels(p, turns) + BitDetector.Same(v, n)) == Flatten(Shares(p, r, turns))
    ensures AllDelivered(turns, Shares(p, r, turns))
  {
    EveryTurnDelivered(p, r, turns);
    SharesAreAll(p, r, turns);
    IdleDeliversNothing(p, Link.Receive(p, r, AllLevels(p, turns)), v, n);
    Link.ReceiveConcat(p, r, AllLevels(p, turns), BitDetector.Same(v, n));
    assert Flatten(Shares(p, r, turns)) + [] == Flatten(Shares(p, r, turns));
  }

  lemma OnlyShortDelivered(p: nat, r: Link.Receiver, levels: seq<bit>, turns: seq<Turn>)
    requires r.deframer.Valid() && Link.Deliveries(p, r, levels) == Packets(turns)
    requires forall i | 0 <= i < |turns| :: turns[i].Valid()
    ensures forall i | 0 <= i < |turns| :: turns[i].Short()
  {
    Link.DeliveriesFit(p, r, levels);
    forall i | 0 <= i < |turns|
      ensures turns[i].Short()
    {
      assert Packets(turns)[i] in Packets(turns) && turns[i].x.body == Pack(turns[i].packet);
    }
  }

  lemma ShortMeans(turns: seq<Turn>)
    requires forall i | 0 <= i < |turns| :: turns[i].Valid()
    ensures (forall i | 0 <= i < |turns| :: turns[i].Short()) <==>
            forall i | 0 <= i < |turns| :: turns[i].packet.Packable() && |Pack(turns[i].packet)| <= 255
  {
    forall i | 0 <= i < |turns|
      ensures turns[i].packet.Packable() && (turns[i].Short() <==> |Pack(turns[i].packet)| <= 255)
    {
      assert turns[i].Valid();
    }
  }

  /** A fresh receiver delivers exactly the packets that were sent, in order, if and only if each of them takes at
      most 255 bytes. */
  lemma AllDeliveredIffShort(p: nat, turns: seq<Turn>, v: bit, n: nat, ones: nat, buffer: seq<byte>)
    requires p >= 15 && ones < 256 && |buffer| == Deframer.BUFFER_LEN
    requires forall i | 0 <= i < |turns| :: turns[i].Valid()
    ensures Link.Deliveries(p, Link.Fresh(ones, buffer), AllLevels(p, turns) + BitDetector.Same(v, n)) == Packets(turns)
            <==> forall i | 0 <= i < |turns| :: turns[i].packet.Packable() && |Pack(turns[i].packet)| <= 255
  {
    ShortMeans(turns);
    var r := Link.Fresh(ones, buffer);
    var levels := AllLevels(p, turns) + BitDetector.Same(v, n);
    SessionDelivered(p, r, turns, v, n);
    if Link.Deliveries(p, r, levels) == Packets(turns) {
      OnlyShortDelivered(p, r, levels, turns);
    }
    if forall i | 0 <= i < |turns| :: turns[i].Short() {
      ShortDelivered(turns, Shares(p, r, turns));
    }
  }

  // ----- among anything else -----

  /** After any noise whatever, heard by a receiver in any state, a transmission is delivered last and once; at
      most one more packet comes out than the noise alone brings. */
  lemma AfterNoise(p: nat, r: Link.Receiver, noise: seq<bit>, x: Link.Send, packet: Packet)
    requires p >= 15 && r.Valid(p) && Link.Packs(x, packet) && |x.body| <= 255 && x.head >= 2 && x.tail >= 1
    ensures var before := Link.Deliveries(p, r, noise);
      var all := Link.Deliveries(p, r, noise + Link.Levels(p, x));
      && before <= all && |before| < |all| <= |before| + 2 && Last(all) == packet
    ensures Ready(p, Link.Receive(p, r, noise + Link.Levels(p, x)))
  {
    Link.ReceiveKeepsValid(p, r, noise);
    Link.ReceiveConcat(p, r, noise, Link.Levels(p, x));
    var junk := Link.Transmission(p, Link.Receive(p, r, noise), x, packet);
    assert Last(Link.Deliveries(p, r, noise) + (junk + [packet])) == packet;
  }
}
