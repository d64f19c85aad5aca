/** Fifteen samples per bit are not only enough but needed: below that the seven equal line bits of a flag
    come out as at most six, so no flag is ever seen.  (From three samples per bit on; with fewer, single
    bits vanish altogether.) */
module Threshold {
  import opened Bits
  import opened Hdlc
  import opened LineCode
  import opened BitDetector
  import opened Ax25Packet
  import Deframer
  import Link

  lemma {:induction false} CountPlus(p: nat, wait: nat, m: nat, n: nat)
    ensures Count(p, wait, m + n) == Count(p, wait, m) + Count(p, WaitAfter(p, wait, m), n)
    ensures WaitAfter(p, wait, m + n) == WaitAfter(p, WaitAfter(p, wait, m), n)
  {
    if n == 0 {
    } else {
      CountPlus(p, wait, m, n - 1);
      OneMoreSample(p, wait, m + n - 1);
      OneMoreSample(p, WaitAfter(p, wait, m), n - 1);
    }
  }

  /** The samples of `k` line bits after the first sample. */
  function Samples(p: nat, k: nat): nat
    requires p >= 1 && k >= 1
  {
    if k == 1 then p - 1 else Samples(p, k - 1) + p
  }

  lemma {:induction false} SamplesIs(p: nat, k: nat)
    requires p >= 1 && k >= 1
    ensures k * p >= 1 && Samples(p, k) == k * p - 1
  {
    if k == 1 {
    } else {
      SamplesIs(p, k - 1);
      TimesStep(k, p);
    }
  }

  /** How many bits come out of the first `k` bits of a run. */
  function RunCount(p: nat, k: nat): nat
    requires p >= 1 && k >= 1
  {
    Count(p, p / 2, Samples(p, k))
  }

  lemma {:induction false} RunCountGrows(p: nat, k: nat, l: nat)
    requires p >= 1 && 1 <= k <= l
    ensures RunCount(p, k) <= RunCount(p, l)
  {
    if k == l {
    } else {
      RunCountGrows(p, k, l - 1);
      CountPlus(p, p / 2, Samples(p, l - 1), p);
    }
  }

  lemma RunCountBounds(p: nat, k: nat)
    requires 3 <= p <= 14 && 1 <= k <= 7
    ensures 1 <= RunCount(p, k) <= 6
  {
    RunCountGrows(p, 1, k);
    RunCountGrows(p, k, 7);
    SamplesIs(p, 7);
    SamplesIs(p, 1);
    CountOfRun(p, 7);
    assert Capacity(p) < 7;
  }

  lemma {:induction false} RunOfSame(o: seq<bit>, v: bit, n: nat)
    ensures var base := if o != [] && Last(o) == v then RunLength(o) else 0;
      && RunLength(o + Same(v, n)) == (if n == 0 then RunLength(o) else base + n)
      && (RunsWithin(o, 6) && base + n <= 6 ==> RunsWithin(o + Same(v, n), 6))
  {
    if n == 0 {
      assert o + Same(v, 0) == o;
    } else {
      RunOfSame(o, v, n - 1);
      var x := o + Same(v, n - 1);
      assert o + Same(v, n) == x + [v];
      assert Front(x + [v]) == x;
      if n == 1 {
        assert x == o;
      }
    }
  }

  lemma {:induction false} SameAt(v: bit, n: nat)
    requires n > 0
    ensures Same(v, n)[0] == v == Last(Same(v, n))
  {
    if n > 1 {
      SameAt(v, n - 1);
    }
  }

  /** The detector after `k` bits of a run at level `v`. */
  predicate InRun(p: nat, k: nat, v: bit, s: State)
    requires p >= 1 && k >= 1
  {
    s == State(WaitAfter(p, p / 2, Samples(p, k)), Some(v))
  }

  lemma RunStarts(p: nat, s: State, v: bit)
    requires p >= 1 && s.last != Some(v)
    ensures InRun(p, 1, v, Run(p, s, Same(v, p)))
    ensures Output(p, s, Same(v, p)) == Same(v, RunCount(p, 1))
  {
    NewLevel(p, s, v, p);
  }

  lemma NextCount(p: nat, k: nat, n: nat, w: nat, c: nat)
    requires p >= 1 && k >= 1 && n == Samples(p, k) && w == WaitAfter(p, p / 2, n) && c == Count(p, w, p)
    ensures RunCount(p, k + 1) == RunCount(p, k) + c
    ensures WaitAfter(p, p / 2, Samples(p, k + 1)) == WaitAfter(p, w, p)
  {
    CountPlus(p, p / 2, n, p);
  }

  lemma RunGoesOn(p: nat, k: nat, v: bit, s: State) returns (c: nat)
    requires p >= 1 && k >= 1 && InRun(p, k, v, s)
    ensures InRun(p, k + 1, v, Run(p, s, Same(v, p)))
    ensures RunCount(p, k + 1) == RunCount(p, k) + c
    ensures Output(p, s, Same(v, p)) == Same(v, c)
  {
    HoldLevel(p, s, v, p);
    c := Count(p, s.wait, p);
    NextCount(p, k, Samples(p, k), s.wait, c);
  }

  /** What a detector that is too fast makes of a line: runs of at most six, each at the level of its line
      run, the last one still going. */
  predicate Shortened(p: nat, line: seq<bit>, out: seq<bit>)
    requires p >= 1 && line != []
  {
    && RunLength(line) >= 1 && out != [] && out[0] == line[0] && Last(out) == Last(line)
    && RunLength(out) == RunCount(p, RunLength(line))
    && RunsWithin(out, 6)
  }

  lemma ShortenedFirst(p: nat, b: bit)
    requires 3 <= p <= 14
    ensures Shortened(p, [b], Same(b, RunCount(p, 1)))
  {
    RunCountBounds(p, 1);
    RunOfSame([], b, RunCount(p, 1));
    assert [] + Same(b, RunCount(p, 1)) == Same(b, RunCount(p, 1));
    assert Front([b]) == [];
    SameAt(b, RunCount(p, 1));
  }

  lemma ShortenedMore(out: seq<bit>, b: bit, c: nat)
    requires out != [] && Last(out) == b && RunsWithin(out, 6) && RunLength(out) + c <= 6
    ensures var o := out + Same(b, c);
      && o != [] && o[0] == out[0] && Last(o) == b && RunLength(o) == RunLength(out) + c && RunsWithin(o, 6)
  {
    RunOfSame(out, b, c);
    if c > 0 {
      SameAt(b, c);
      assert Last(out + Same(b, c)) == Last(Same(b, c));
    } else {
      assert out + Same(b, c) == out;
    }
  }

  lemma ShortenedSame(p: nat, line: seq<bit>, out: seq<bit>, k: nat, c: nat, more: seq<bit>)
    requires 3 <= p <= 14 && line != [] && k == RunLength(line) <= 6 && Shortened(p, line, out)
    requires more == line + [Last(line)] && RunCount(p, k + 1) == RunCount(p, k) + c
    ensures Shortened(p, more, out + Same(Last(line), c))
  {
    RunCountBounds(p, k + 1);
    assert Front(more) == line;
    ShortenedMore(out, Last(line), c);
  }

  lemma ShortenedChange(p: nat, line: seq<bit>, out: seq<bit>, more: seq<bit>)
    requires 3 <= p <= 14 && line != [] && Shortened(p, line, out) && more == line + [!Last(line)]
    ensures Shortened(p, more, out + Same(!Last(line), RunCount(p, 1)))
  {
    var b, c := !Last(line), RunCount(p, 1);
    RunCountBounds(p, 1);
    assert Front(more) == line;
    RunOfSame(out, b, c);
    SameAt(b, c);
    assert Last(out + Same(b, c)) == Last(Same(b, c));
  }

  /** What the line and the detector come to with one more bit of the line. */
  predicate StepTo(p: nat, s: State, out: seq<bit>, b: bit, more: seq<bit>)
    requires p >= 1 && more != []
  {
    && Shortened(p, more, out + Output(p, s, Same(b, p)))
    && InRun(p, RunLength(more), b, Run(p, s, Same(b, p)))
  }

  lemma StepSame(p: nat, line: seq<bit>, s: State, out: seq<bit>, more: seq<bit>)
    requires 3 <= p <= 14 && line != [] && RunLength(line) <= 6 && more == line + [Last(line)]
    requires Shortened(p, line, out) && InRun(p, RunLength(line), Last(line), s)
    ensures StepTo(p, s, out, Last(line), more)
  {
    var c := RunGoesOn(p, RunLength(line), Last(line), s);
    StepSameWith(p, line, s, out, RunLength(line), c, more);
  }

  lemma StepSameWith(p: nat, line: seq<bit>, s: State, out: seq<bit>, k: nat, c: nat, more: seq<bit>)
    requires 3 <= p <= 14 && line != [] && k == RunLength(line) <= 6 && more == line + [Last(line)]
    requires Shortened(p, line, out) && RunCount(p, k + 1) == RunCount(p, k) + c
    requires Output(p, s, Same(Last(line), p)) == Same(Last(line), c)
    requires InRun(p, k + 1, Last(line), Run(p, s, Same(Last(line), p)))
    ensures StepTo(p, s, out, Last(line), more)
  {
    assert Front(more) == line;
    ShortenedSame(p, line, out, k, c, more);
  }

  lemma StepChange(p: nat, line: seq<bit>, s: State, out: seq<bit>, more: seq<bit>)
    requires 3 <= p <= 14 && line != [] && more == line + [!Last(line)]
    requires Shortened(p, line, out) && InRun(p, RunLength(line), Last(line), s)
    ensures StepTo(p, s, out, !Last(line), more)
  {
    RunStarts(p, s, !Last(line));
    ShortenedChange(p, line, out, more);
    assert Front(more) == line;
  }

  lemma ShortenedStep(p: nat, line: seq<bit>, s: State, out: seq<bit>, b: bit)
    requires 3 <= p <= 14 && line != [] && (b == Last(line) ==> RunLength(line) <= 6)
    requires Shortened(p, line, out) && InRun(p, RunLength(line), Last(line), s)
    ensures StepTo(p, s, out, b, line + [b])
  {
    if b == Last(line) {
      StepSame(p, line, s, out, line + [b]);
    } else {
      StepChange(p, line, s, out, line + [b]);
    }
  }

  lemma {:induction false} LineShortened(p: nat, s: State, line: seq<bit>)
    requires 3 <= p <= 14 && line != [] && s.last == None && RunsWithin(line, 7)
    ensures Shortened(p, line, Output(p, s, Stretch(line, p)))
    ensures InRun(p, RunLength(line), Last(line), Run(p, s, Stretch(line, p)))
  {
    var f, b := Front(line), Last(line);
    FrontLast(line);
    if f == [] {
      assert line == [b] && Stretch(line, p) == Same(b, p) by { assert Stretch(f, p) == []; }
      RunStarts(p, s, b);
      ShortenedFirst(p, b);
    } else {
      LineShortened(p, s, f);
      RunConcat(p, s, Stretch(f, p), Same(b, p));
      ShortenedStep(p, f, Run(p, s, Stretch(f, p)), Output(p, s, Stretch(f, p)), b);
    }
  }

  lemma RunsBound(line: seq<bit>)
    requires line != [] && RunsWithin(line, 6)
    ensures RunLength(line) <= 6
  {
  }

  /** The line so far is one run, at the level the decoder starts from. */
  predicate Unchanged(from: bit, line: seq<bit>) {
    line != [] && line[0] == from && |line| == RunLength(line)
  }

  /** What a line of short runs has done to a deframer: nothing is found, and after the first change fewer
      than six 1s stand in its window. */
  predicate ShortRunsAt(s: Deframer.State, from: bit, line: seq<bit>)
    requires s.Valid() && line != []
  {
    && Deframer.Found(s, Decoded(from, line)) == []
    && (!Unchanged(from, line) ==> LowOnes(Deframer.Run(s, Decoded(from, line)).raw) == RunLength(line) - 1)
  }

  lemma ZeroInWindow(s: Deframer.State)
    requires s.Valid()
    ensures LowOnes(Deframer.Next(s, false).raw) == 0
    ensures LowOnes(s.raw) < 6 ==> Deframer.Candidates(s, false) == []
  {
    FlagSeen(s.raw, false);
    assert LowOnes(0) == 0;
  }

  lemma FirstLevel(s: Deframer.State, from: bit, line: seq<bit>)
    requires s.Valid() && s.pos == 0 && |line| == 1
    ensures ShortRunsAt(s, from, line)
  {
    var b := line[0] == from;
    assert Front(line) == [] && Decoded(from, line) == [] + [b] == [b];
    Deframer.RunSnoc(s, [], b);
    Deframer.FewBits(s, [b]);
    assert Deframer.Run(s, [b]) == Deframer.Next(s, b);
    ZeroInWindow(s);
  }

  lemma OneMoreLevel(from: bit, f: seq<bit>, v: bit)
    requires f != []
    ensures Decoded(from, f + [v]) == Decoded(from, f) + [v == Last(f)]
    ensures RunLength(f + [v]) == if v == Last(f) then RunLength(f) + 1 else 1
    ensures Unchanged(from, f + [v]) <==> Unchanged(from, f) && v == Last(f)
  {
    assert Front(f + [v]) == f;
    RunLengthFits(f);
  }

  lemma {:induction false} RunLengthFits(line: seq<bit>)
    ensures RunLength(line) <= |line|
    ensures line != [] && RunLength(line) == |line| ==> line[0] == Last(line)
  {
    if line == [] {
    } else {
      RunLengthFits(Front(line));
    }
  }

  lemma SameLevel(s: Deframer.State, from: bit, f: seq<bit>)
    requires s.Valid() && s.pos == 0 && f != [] && RunLength(f) <= 5 && ShortRunsAt(s, from, f)
    ensures ShortRunsAt(s, from, f + [Last(f)])
  {
    var x := Decoded(from, f);
    OneMoreLevel(from, f, Last(f));
    Deframer.RunSnoc(s, x, true);
    if Unchanged(from, f) {
      Deframer.FewBits(s, x + [true]);
    } else {
      Deframer.OneInWindow(Deframer.Run(s, x));
    }
  }

  lemma OtherLevel(s: Deframer.State, from: bit, f: seq<bit>)
    requires s.Valid() && s.pos == 0 && f != [] && RunLength(f) <= 6 && ShortRunsAt(s, from, f)
    ensures ShortRunsAt(s, from, f + [!Last(f)])
  {
    var x := Decoded(from, f);
    OneMoreLevel(from, f, !Last(f));
    Deframer.RunSnoc(s, x, false);
    ZeroInWindow(Deframer.Run(s, x));
    if Unchanged(from, f) {
      Deframer.FewBits(s, x + [false]);
    }
  }

  /** Runs of at most six levels never show a flag behind anything that was collected. */
  lemma {:induction false} ShortRunsFindNothing(s: Deframer.State, from: bit, line: seq<bit>)
    requires s.Valid() && s.pos == 0 && line != [] && RunsWithin(line, 6)
    ensures ShortRunsAt(s, from, line)
  {
    if |line| == 1 {
      FirstLevel(s, from, line);
    } else {
      var f := Front(line);
      ShortRunsFindNothing(s, from, f);
      RunsBound(f);
      FrontLast(line);
      if Last(line) == Last(f) {
        SameLevel(s, from, f);
      } else {
        OtherLevel(s, from, f);
      }
    }
  }

  /** With fewer samples per bit a fresh receiver delivers nothing at all, whatever frame is sent. */
  lemma NothingBelow(p: nat, x: Link.Send, ones: nat, buffer: seq<byte>)
    requires 3 <= p <= 14 && x.head >= 1 && ones < 256 && |buffer| == Deframer.BUFFER_LEN
    ensures Link.Deliveries(p, Link.Fresh(ones, buffer), Link.Levels(p, x)) == []
  {
    var line := Heard(Link.SentLine(x.head, x.body, x.tail), x.inverted);
    Link.FrameBitsOnes(x.head, x.body, x.tail);
    Link.RunIsOnesPlusOne(false, FrameBits(x.head, x.body, x.tail), x.inverted);
    LineShortened(p, State(0, None), line);
    ShortRunsFindNothing(Deframer.Reset(ones, buffer), false, Output(p, State(0, None), Stretch(line, p)));
  }

  /** So one packet sent to a fresh receiver, in either polarity, arrives exactly when there are at least
      fifteen samples per bit and it takes at most 255 bytes; otherwise it does not, alone or with anything
      else. */
  lemma ArrivesIff(p: nat, packet: Packet, x: Link.Send, ones: nat, buffer: seq<byte>)
    requires p >= 3 && ones < 256 && |buffer| == Deframer.BUFFER_LEN && Link.Packs(x, packet)
    requires x.head >= (if x.inverted then 2 else 1) && x.tail >= 1
    ensures var delivered := Link.Deliveries(p, Link.Fresh(ones, buffer), Link.Levels(p, x));
      && (p >= 15 && |Pack(packet)| <= 255 ==> delivered == [packet])
      && (packet in delivered ==> p >= 15 && |Pack(packet)| <= 255)
  {
    if p < 15 {
      NothingBelow(p, x, ones, buffer);
    } else if |x.body| <= 255 {
      WholeLine(p, packet, x, ones, buffer);
    } else {
      Link.DeliveriesFit(p, Link.Fresh(ones, buffer), Link.Levels(p, x));
    }
  }

  lemma WholeLine(p: nat, packet: Packet, x: Link.Send, ones: nat, buffer: seq<byte>)
    requires p >= 15 && ones < 256 && |buffer| == Deframer.BUFFER_LEN && Link.Packs(x, packet)
    requires x.head >= (if x.inverted then 2 else 1) && x.tail >= 1 && |x.body| <= 255
    ensures Link.Deliveries(p, Link.Fresh(ones, buffer), Link.Levels(p, x)) == [packet]
  {
    var line := Heard(Link.SentLine(x.head, x.body, x.tail), x.inverted);
    Link.OnceAtClosingFlag(p, packet, x, |line|, ones, buffer);
    LineEnds(x);
    assert line[..|line|] == line;
  }

  lemma LineEnds(x: Link.Send)
    requires x.tail >= 1
    ensures |Link.SentLine(x.head, x.body, x.tail)| > Link.ClosingBit(x)
  {
  }
}
