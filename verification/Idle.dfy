/** The line between two transmissions: it stays at one level for any time, which the receiver takes for 1s.

    The receiver collects them like any other bits, in bytes and around its buffer, and the next flag hands them
    to the check.  Nothing comes of it: such frames have wrong check sequences (AllOnes). */
module Idle {
  import opened Bits
  import opened Hdlc
  import opened LineCode
  import opened Ax25Packet
  import opened Deframer
  import AllOnes
  import Crc

  // ----- the bytes of almost nothing but 1s -----

  lemma {:induction false} BytesOfAt(d: seq<bit>, i: nat, w: seq<bit>)
    requires i < |d| / 8 && w == d[8 * i..8 * i + 8]
    ensures BytesOf(d)[i] == ByteOf(w)
    decreases |d|
  {
    if |d| % 8 != 0 {
      SliceOfPrefix(d, |d| - 1, 8 * i);
      BytesOfAt(Front(d), i, w);
    } else if i < |d| / 8 - 1 {
      SliceOfPrefix(d, |d| - 8, 8 * i);
      BytesOfAt(d[..|d| - 8], i, w);
    } else {
      assert w == d[|d| - 8..];
    }
  }

  lemma SliceOfPrefix(d: seq<bit>, n: nat, at: nat)
    requires at + 8 <= n <= |d|
    ensures d[..n][at..at + 8] == d[at..at + 8]
  {
  }

  /** All bits are 1s but perhaps the first one, and the two before the last six. */
  predicate MostlyOnes(d: seq<bit>) {
    forall i | 0 < i < |d| && (i < |d| - 8 || i >= |d| - 6) :: d[i]
  }

  lemma ByteOfOnes(w: seq<bit>)
    requires |w| == 8 && forall i | 1 <= i < 8 :: w[i]
    ensures ByteOf(w) == 0xff || ByteOf(w) == 0xfe
    ensures w[0] ==> ByteOf(w) == 0xff
  {
  }

  lemma InnerBits(d: seq<bit>, i: nat, w: seq<bit>)
    requires MostlyOnes(d) && 8 * i + 16 <= |d| && w == d[8 * i..8 * i + 8]
    ensures (forall k | 1 <= k < 8 :: w[k]) && (i > 0 ==> w[0])
  {
    assert forall k | 0 <= k < 8 :: w[k] == d[8 * i + k];
  }

  /** The bytes before the last one. */
  lemma InnerByte(d: seq<bit>, i: nat)
    requires MostlyOnes(d) && i + 1 < |d| / 8
    ensures BytesOf(d)[i] == 0xff || (i == 0 && BytesOf(d)[i] == 0xfe)
  {
    var w := d[8 * i..8 * i + 8];
    InnerBits(d, i, w);
    BytesOfAt(d, i, w);
    ByteOfOnes(w);
  }

  lemma InnerBytes(d: seq<bit>, f: seq<byte>)
    requires MostlyOnes(d) && 2 <= |f| <= |d| / 8 && f == BytesOf(d)[|d| / 8 - |f|..]
    ensures AllOnes.OnesButFirst(Front(f))
  {
    forall k | 0 <= k < |f| - 1
      ensures Front(f)[k] == 0xff || (k == 0 && Front(f)[k] == 0xfe)
    {
      InnerByte(d, |d| / 8 - |f| + k);
    }
  }

  lemma LastBits(d: seq<bit>, w: seq<bit>, at: nat, a: nat)
    requires MostlyOnes(d) && at >= 8 && |d| == at + 8 + a && a < 8 && w == d[at..at + 8]
    ensures AllOnes.OnesButTwo(w, a)
  {
    forall i | 0 <= i < 8 && i != a && i != a + 1
      ensures w[i]
    {
      assert w[i] == d[at + i];
    }
  }

  lemma LastByte(d: seq<bit>, f: seq<byte>, w: seq<bit>)
    requires |d| >= 8 && w == d[8 * (|d| / 8 - 1)..8 * (|d| / 8 - 1) + 8]
    requires 1 <= |f| <= |d| / 8 && f == BytesOf(d)[|d| / 8 - |f|..]
    ensures Last(f) == ByteOf(w)
  {
    BytesOfAt(d, |d| / 8 - 1, w);
  }

  lemma Eighths(n: nat)
    ensures n == 8 * (n / 8) + n % 8
  {
  }

  /** So the latest bytes are no frame, however many there were. */
  lemma LatestNotAccepted(d: seq<bit>, f: seq<byte>)
    requires MostlyOnes(d) && MIN_PACKET_LEN <= |f| <= 255 && |f| <= |d| / 8
    requires f == BytesOf(d)[|d| / 8 - |f|..]
    ensures !Crc.Accepted(f)
  {
    var at := 8 * (|d| / 8 - 1);
    Eighths(|d|);
    LastBits(d, d[at..at + 8], at, |d| % 8);
    LastByte(d, f, d[at..at + 8]);
    InnerBytes(d, f);
    AllOnes.NotAccepted(f, d[at..at + 8], |d| % 8);
  }

  // ----- what the receiver collects -----

  /** Cleared, with any count of 1s. */
  predicate IsClear(s: State) {
    s.Valid() && s == Reset(s.ones, s.buffer)
  }

  lemma OneMoreOneFrom(line: seq<bit>, from: nat)
    requires Quiet(line)
    ensures Quiet(line + [true]) && Ones(line + [true], 0) == Ones(line, 0) + 1
    ensures Destuff(line + [true], from) == Destuff(line, from) + [true]
  {
    QuietStep(line, true);
    StepDestuff(line, true, from);
    StepDestuff(line, true, 0);
  }

  lemma {:induction false} MoreOnesFrom(line: seq<bit>, from: nat, d: seq<bit>, n: nat)
    requires Quiet(line) && Destuff(line, from) == d
    ensures Quiet(line + Trues(n)) && Ones(line + Trues(n), 0) == Ones(line, 0) + n
    ensures Destuff(line + Trues(n), from) == d + Trues(n)
  {
    if n == 0 {
      assert line + Trues(0) == line && d + Trues(0) == d;
    } else {
      MoreOnesFrom(line, from, d, n - 1);
      OneMoreOneFrom(line + Trues(n - 1), from);
      Assoc(line, Trues(n - 1), [true]);
      Assoc(d, Trues(n - 1), [true]);
    }
  }

  /** A 0 that ends no flag is collected or dropped. */
  lemma MoreZero(line: seq<bit>, from: nat)
    requires Quiet(line) && Ones(line, 0) != 6
    ensures Quiet(line + [false]) && Ones(line + [false], 0) == 0
    ensures Destuff(line + [false], from) == Destuff(line, from) + [false]
            || Destuff(line + [false], from) == Destuff(line, from)
  {
    QuietStep(line, false);
    StepDestuff(line, false, from);
    StepDestuff(line, false, 0);
  }

  /** The bits of an idle line up to the last bit of the next flag: any first bit, 1s, and a 0 or two before the
      1s of the flag. */
  function IdleBits(b: bit, k: nat, z: bool): seq<bit> {
    [b] + Trues(k) + (if z then [false] else []) + [false] + Trues(6)
  }

  lemma IdleStart(b: bit, k: nat, from: nat)
    requires k >= 7
    ensures var line := [b] + Trues(k);
      Quiet(line) && Ones(line, 0) >= 7 && exists o: seq<bit> :: |o| <= 1 && Destuff(line, from) == o + Trues(k)
  {
    assert [] + [b] == [b];
    if b {
      QuietStep([], true);
      StepDestuff([], true, from);
    } else {
      MoreZero([], from);
    }
    MoreOnesFrom([b], from, Destuff([b], from), k);
    assert |Destuff([b], from)| <= 1;
  }

  lemma OnesThenTail(o: seq<bit>, k: nat, e: seq<bit>, d: seq<bit>)
    requires |o| <= 1 && |e| <= 2 && d == o + Trues(k) + e + Trues(6)
    ensures MostlyOnes(d)
  {
    TruesAre(k);
    TruesAre(6);
    forall i | 0 < i < |d| && (i < |d| - 8 || i >= |d| - 6)
      ensures d[i]
    {
      if i < |d| - 8 {
        assert d[i] == Trues(k)[i - |o|];
      } else {
        assert d[i] == Trues(6)[i - (|d| - 6)];
      }
    }
  }

  lemma TailZero(line: seq<bit>, from: nat, d: seq<bit>, e: seq<bit>)
    requires Quiet(line) && Ones(line, 0) != 6 && Destuff(line, from) == d + e
    ensures Quiet(line + [false]) && Ones(line + [false], 0) == 0
    ensures Destuff(line + [false], from) == d + (e + [false]) || Destuff(line + [false], from) == d + e
  {
    MoreZero(line, from);
    Assoc(d, e, [false]);
  }

  /** What comes before the last six 1s: one 0 or two, of which some may be dropped. */
  lemma IdleZeros(line: seq<bit>, from: nat, d: seq<bit>, z: bool) returns (e: seq<bit>)
    requires Quiet(line) && Ones(line, 0) != 6 && Destuff(line, from) == d
    ensures var more := line + (if z then [false] else []) + [false];
      |e| <= 2 && Quiet(more) && Ones(more, 0) == 0 && Destuff(more, from) == d + e
  {
    assert d + [] == d && [] + [false] == [false];
    if z {
      TailZero(line, from, d, []);
      e := if Destuff(line + [false], from) == d + [false] then [false] else [];
      TailZero(line + [false], from, d, e);
      e := if Destuff(line + [false] + [false], from) == d + (e + [false]) then e + [false] else e;
    } else {
      assert line + [] == line;
      TailZero(line, from, d, []);
      e := if Destuff(line + [false], from) == d + [false] then [false] else [];
    }
  }

  /** A long idle line: all the bits collected are 1s but a few, and no flag is seen before the last bit. */
  lemma LongIdle(b: bit, k: nat, z: bool, from: nat)
    requires k >= 7
    ensures var line := IdleBits(b, k, z);
      Quiet(line) && Ones(line, 0) == 6 && MostlyOnes(Destuff(line, from))
  {
    IdleStart(b, k, from);
    var line := [b] + Trues(k);
    var o: seq<bit> :| |o| <= 1 && Destuff(line, from) == o + Trues(k);
    var e := IdleZeros(line, from, o + Trues(k), z);
    var more := line + (if z then [false] else []) + [false];
    MoreOnesFrom(more, from, o + Trues(k) + e, 6);
    OnesThenTail(o, k, e, Destuff(more + Trues(6), from));
  }

  /** Nothing is handed out at the end of a long idle line and the next flag. */
  lemma LongIdleReports(s: State, b: bit, k: nat, z: bool)
    requires IsClear(s) && k >= 7
    ensures Reports(s, IdleBits(b, k, z) + [false]) == []
  {
    var line := IdleBits(b, k, z);
    LongIdle(b, k, z, s.ones);
    RunQuiet(line, s.ones, s.buffer);
    ReportsSnoc(s, line, false);
    QuietReport(Run(s, line), line, s.ones);
  }

  lemma OnesAreNoPacket(c: Candidate, d: seq<bit>)
    requires c.Valid() && MostlyOnes(d) && c.len <= |d| / 8 && c.buffer[..c.len] == BytesOf(d)[|d| / 8 - c.len..]
    ensures Checked(c) == []
  {
    LatestNotAccepted(d, c.buffer[..c.len]);
  }

  lemma QuietReport(s: State, line: seq<bit>, from: nat)
    requires s.Valid() && Describes(line, from, s) && MostlyOnes(Destuff(line, from))
    ensures Report(s, false) == []
  {
    var c := Candidate(s.buffer, s.pos);
    if Candidates(s, false) == [c] {
      assert c in Candidates(s, false);
      CollectedAreBytes(Destuff(line, from), s);
      OnesAreNoPacket(c, Destuff(line, from));
      CheckedOne(c);
    }
  }

  lemma CollectedAreBytes(d: seq<bit>, s: State)
    requires s.Valid() && Collects(d, s)
    ensures s.pos <= |d| / 8 && s.buffer[..s.pos] == BytesOf(d)[|d| / 8 - s.pos..]
  {
  }

  /** An idle line and the flag that ends it, from a cleared receiver. */
  function IdleLine(b: bit, k: nat, z: bool): seq<bit> {
    [b] + Trues(k) + (if z then [false] else []) + FlagBits()
  }

  lemma IdleLineEnds(b: bit, k: nat, z: bool)
    ensures IdleLine(b, k, z) == IdleBits(b, k, z) + [false]
  {
    EndsWithFlag([b] + Trues(k) + (if z then [false] else []));
  }

  /** It resets the receiver and hands out nothing, however long it is. */
  lemma IdleLineReports(s: State, b: bit, k: nat, z: bool)
    requires IsClear(s)
    ensures IsReset(Run(s, IdleLine(b, k, z))) && Reports(s, IdleLine(b, k, z)) == []
  {
    var before := [b] + Trues(k) + (if z then [false] else []);
    RunConcat(s, before, FlagBits());
    FlagResets(Run(s, before));
    if k >= 7 {
      IdleLineEnds(b, k, z);
      LongIdleReports(s, b, k, z);
    } else {
      FewBits(s, IdleLine(b, k, z));
    }
  }

  /** An idle line alone hands out nothing: no flag ends in it. */
  lemma IdleAlone(s: State, b: bit, k: nat)
    requires IsClear(s)
    ensures Reports(s, [b] + Trues(k)) == []
  {
    assert [] + [b] == [b];
    if b {
      QuietStep([], true);
    } else {
      MoreZero([], 0);
    }
    MoreOnesFrom([b], 0, Destuff([b], 0), k);
    RunQuiet([b] + Trues(k), s.ones, s.buffer);
  }
}
