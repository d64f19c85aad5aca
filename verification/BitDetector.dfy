/** Clock recovery: src/modemstuff/bitdet.c.

    The detector restarts a counter at each change of sign and then returns a bit every P + 1 samples, so
    on a run of equal bits it falls behind by one sample per bit. */
module BitDetector {
  import opened Bits

  /** samples_to_return and last_bit; None is MS_BIT_NONE. */
  datatype State = State(wait: int, last: Option<bit>)

  class BitDetector {
    const bitPeriod: nat
    var samplesToReturn: int
    var lastBit: Option<bit>

    constructor (bitPeriod: nat)
      ensures this.bitPeriod == bitPeriod && Value() == State(0, None)
    {
      this.bitPeriod := bitPeriod;
      samplesToReturn := 0;
      lastBit := None;
    }

    ghost function Value(): State
      reads this
    {
      State(samplesToReturn, lastBit)
    }

    method Process(softSymbol: real) returns (b: Option<bit>)
      modifies this
      ensures Value() == Next(bitPeriod, old(Value()), softSymbol > 0.0)
      ensures b == Emitted(old(Value()), softSymbol > 0.0)
    {
      var level := softSymbol > 0.0;
      if Some(level) != lastBit {
        lastBit := Some(level);
        samplesToReturn := bitPeriod / 2;
        return None;
      }
      if samplesToReturn == 0 {
        samplesToReturn := bitPeriod;
        return Some(level);
      }
      samplesToReturn := samplesToReturn - 1;
      return None;
    }
  }

  function Next(p: nat, s: State, level: bit): State {
    if Some(level) != s.last then State(p / 2, Some(level))
    else if s.wait == 0 then State(p, s.last)
    else State(s.wait - 1, s.last)
  }

  function Emitted(s: State, level: bit): Option<bit> {
    if Some(level) == s.last && s.wait == 0 then Some(level) else None
  }

  function AsSeq(b: Option<bit>): seq<bit> {
    if b == None then [] else [b.value]
  }

  function Run(p: nat, s: State, levels: seq<bit>): State {
    if levels == [] then s else Next(p, Run(p, s, Front(levels)), Last(levels))
  }

  /** The bits returned during a run. */
  function Output(p: nat, s: State, levels: seq<bit>): seq<bit> {
    if levels == [] then []
    else Output(p, s, Front(levels)) + AsSeq(Emitted(Run(p, s, Front(levels)), Last(levels)))
  }

  lemma RunSnoc(p: nat, s: State, levels: seq<bit>, b: bit)
    ensures Run(p, s, levels + [b]) == Next(p, Run(p, s, levels), b)
    ensures Output(p, s, levels + [b]) == Output(p, s, levels) + AsSeq(Emitted(Run(p, s, levels), b))
  {
    assert Front(levels + [b]) == levels;
  }

  lemma {:induction false} RunConcat(p: nat, s: State, a: seq<bit>, b: seq<bit>)
    ensures Run(p, s, a + b) == Run(p, Run(p, s, a), b)
    ensures Output(p, s, a + b) == Output(p, s, a) + Output(p, Run(p, s, a), b)
  {
    if b == [] {
      assert a + b == a;
    } else {
      RunConcat(p, s, a, Front(b));
      FrontOfConcat(a, b);
      Assoc(Output(p, s, a), Output(p, Run(p, s, a), Front(b)),
            AsSeq(Emitted(Run(p, s, a + Front(b)), Last(b))));
    }
  }

  /** The counter never exceeds the period. */
  lemma {:induction false} WaitStaysWithin(p: nat, s: State, levels: seq<bit>)
    requires 0 <= s.wait <= p
    ensures 0 <= Run(p, s, levels).wait <= p
  {
    if levels == [] {
    } else {
      WaitStaysWithin(p, s, Front(levels));
    }
  }

  // ----- one level -----

  function Same(v: bit, n: nat): (r: seq<bit>)
    ensures |r| == n
  {
    if n == 0 then [] else Same(v, n - 1) + [v]
  }

  lemma {:induction false} SamePlus(v: bit, m: nat, n: nat)
    ensures Same(v, m + n) == Same(v, m) + Same(v, n)
  {
    if n == 0 {
      assert Same(v, m) + Same(v, 0) == Same(v, m);
    } else {
      SamePlus(v, m, n - 1);
      Assoc(Same(v, m), Same(v, n - 1), [v]);
    }
  }

  /** How many bits come out of `n` samples at the current level, and what is left to wait then. */
  function Count(p: nat, wait: nat, n: nat): nat
    decreases n
  {
    if n <= wait then 0 else 1 + Count(p, p, n - wait - 1)
  }

  function WaitAfter(p: nat, wait: nat, n: nat): nat
    decreases n
  {
    if n <= wait then wait - n else WaitAfter(p, p, n - wait - 1)
  }

  lemma {:induction false} OneMoreSample(p: nat, wait: nat, n: nat)
    ensures Count(p, wait, n + 1) == Count(p, wait, n) + (if WaitAfter(p, wait, n) == 0 then 1 else 0)
    ensures WaitAfter(p, wait, n + 1) == if WaitAfter(p, wait, n) == 0 then p else WaitAfter(p, wait, n) - 1
    decreases n
  {
    if n > wait {
      OneMoreSample(p, p, n - wait - 1);
    }
  }

  lemma {:induction false} HoldLevel(p: nat, s: State, v: bit, n: nat)
    requires s.last == Some(v) && s.wait >= 0
    ensures Run(p, s, Same(v, n)) == State(WaitAfter(p, s.wait, n), Some(v))
    ensures Output(p, s, Same(v, n)) == Same(v, Count(p, s.wait, n))
  {
    if n == 0 {
    } else {
      HoldLevel(p, s, v, n - 1);
      OneMoreSample(p, s.wait, n - 1);
      HoldOneMore(p, s, v, Same(v, n - 1), Count(p, s.wait, n - 1), WaitAfter(p, s.wait, n - 1));
    }
  }

  /** `c` bits have come out and `w` samples are left to wait; one more sample. */
  lemma HoldOneMore(p: nat, s: State, v: bit, line: seq<bit>, c: nat, w: nat)
    requires Run(p, s, line) == State(w, Some(v)) && Output(p, s, line) == Same(v, c)
    ensures Run(p, s, line + [v]) == State(if w == 0 then p else w - 1, Some(v))
    ensures Output(p, s, line + [v]) == Same(v, if w == 0 then c + 1 else c)
  {
    RunSnoc(p, s, line, v);
  }

  lemma FirstSample(p: nat, s: State, v: bit)
    requires s.last != Some(v)
    ensures Run(p, s, [v]) == State(p / 2, Some(v)) && Output(p, s, [v]) == []
  {
    assert Front([v]) == [];
  }

  lemma RunParts(p: nat, s: State, a: seq<bit>, b: seq<bit>, line: seq<bit>, t: State)
    requires line == a + b && Run(p, s, a) == t
    ensures Run(p, s, line) == Run(p, t, b) && Output(p, s, line) == Output(p, s, a) + Output(p, t, b)
  {
    RunConcat(p, s, a, b);
  }

  lemma SameFromFront(v: bit, n: nat)
    requires n >= 1
    ensures Same(v, n) == [v] + Same(v, n - 1)
  {
    SamePlus(v, 1, n - 1);
    assert Same(v, 1) == [v];
  }

  lemma NewLevelAndMore(p: nat, s: State, v: bit, m: nat)
    requires s.last != Some(v)
    ensures Run(p, s, [v] + Same(v, m)) == State(WaitAfter(p, p / 2, m), Some(v))
    ensures Output(p, s, [v] + Same(v, m)) == Same(v, Count(p, p / 2, m))
  {
    var t := State(p / 2, Some(v));
    FirstSample(p, s, v);
    RunParts(p, s, [v], Same(v, m), [v] + Same(v, m), t);
    HoldLevel(p, t, v, m);
  }

  /** A change of level and `n` samples in all. */
  lemma NewLevel(p: nat, s: State, v: bit, n: nat)
    requires s.last != Some(v) && n >= 1
    ensures Run(p, s, Same(v, n)) == State(WaitAfter(p, p / 2, n - 1), Some(v))
    ensures Output(p, s, Same(v, n)) == Same(v, Count(p, p / 2, n - 1))
  {
    SameFromFront(v, n);
    NewLevelAndMore(p, s, v, n - 1);
  }

  // ----- the count in closed form -----

  lemma {:induction false} CountIs(p: nat, q: nat, r: nat)
    requires r <= p
    ensures Count(p, p, q * (p + 1) + r) == q
    decreases q
  {
    if q == 0 {
    } else {
      assert q * (p + 1) + r - p - 1 == (q - 1) * (p + 1) + r;
      CountIs(p, q - 1, r);
    }
  }

  lemma Multiple(e: int, d: nat)
    ensures e >= 1 ==> e * d >= d
    ensures e <= -1 ==> e * d <= 0 - d
  {
  }

  lemma DivisionUnique(n: nat, d: nat, q: nat, r: nat)
    requires r < d && n == q * d + r
    ensures n / d == q
  {
    var x := n / d;
    assert n == x * d + n % d;
    assert (x - q) * d == r - n % d;
    Multiple(x - q, d);
  }

  /** After the first bit, one bit comes out for each p + 1 samples. */
  lemma CountIsQuotient(p: nat, n: nat)
    ensures Count(p, p, n) == n / (p + 1)
  {
    var d := p + 1;
    var q, r := n / d, n % d;
    assert n == q * d + r;
    CountIs(p, q, r);
  }

  lemma QuotientPlusOne(n: nat, d: nat)
    requires d > 0
    ensures (n + d) / d == n / d + 1
  {
    var q, r := n / d, n % d;
    assert n == q * d + r;
    assert n + d == (q + 1) * d + r;
    DivisionUnique(n + d, d, q + 1, r);
  }

  lemma SmallQuotient(n: nat, d: nat)
    requires n < d
    ensures n / d == 0
  {
  }

  lemma CountClosed(p: nat, h: nat, n: nat)
    requires h <= p
    ensures Count(p, h, n) == (n + p - h) / (p + 1)
  {
    if n <= h {
      SmallQuotient(n + p - h, p + 1);
    } else {
      CountIsQuotient(p, n - h - 1);
      QuotientPlusOne(n - h - 1, p + 1);
    }
  }

  /** On `n` samples from a change of level on, the number of bits in closed form. */
  lemma BitsOnLevel(p: nat, s: State, v: bit, n: nat)
    requires s.last != Some(v) && n >= 1
    ensures Output(p, s, Same(v, n)) == Same(v, (n + p - 1 - p / 2) / (p + 1))
  {
    NewLevel(p, s, v, n);
    CountClosed(p, p / 2, n - 1);
  }

  /** The longest run of equal bits that comes through whole. */
  function Capacity(p: nat): int {
    (p + 1) / 2 - 1
  }

  lemma CountOfRun(p: nat, k: nat)
    requires k >= 1 && p >= 1
    ensures k * p >= 1
    ensures k <= Capacity(p) ==> Count(p, p / 2, k * p - 1) == k
    ensures k > Capacity(p) ==> Count(p, p / 2, k * p - 1) < k
  {
    assert k * p == (k - 1) * p + p >= p;
    assert k * p == (k - 1) * (p + 1) + p - (k - 1);
    var h := p / 2;
    if k <= Capacity(p) {
      CountIs(p, k - 1, p - 1 - h - k);
    } else if k * p - 1 > h {
      CountBelow(p, k - 1, k * p - 2 - h);
    }
  }

  lemma {:induction false} CountBelow(p: nat, q: nat, n: nat)
    requires n < q * (p + 1)
    ensures Count(p, p, n) < q
    decreases q
  {
    if n > p {
      assert n - p - 1 < (q - 1) * (p + 1);
      CountBelow(p, q - 1, n - p - 1);
    }
  }

  /** A run of `k` bits of `p` samples each comes out as exactly `k` bits if and only if it is within the
      capacity. */
  lemma ExactIffWithinCapacity(p: nat, s: State, v: bit, k: nat)
    requires s.last != Some(v) && k >= 1 && p >= 1
    ensures Output(p, s, Same(v, k * p)) == Same(v, k) <==> k <= Capacity(p)
  {
    CountOfRun(p, k);
    NewLevel(p, s, v, k * p);
  }

  // ----- a line -----

  /** `p` samples for each bit of the line. */
  function Stretch(line: seq<bit>, p: nat): (r: seq<bit>)
    ensures |r| == |line| * p
  {
    if line == [] then [] else Stretch(Front(line), p) + Same(Last(line), p)
  }

  lemma {:induction false} StretchConcat(a: seq<bit>, b: seq<bit>, p: nat)
    ensures Stretch(a + b, p) == Stretch(a, p) + Stretch(b, p)
  {
    if b == [] {
      assert a + b == a;
    } else {
      StretchConcat(a, Front(b), p);
      FrontOfConcat(a, b);
      Assoc(Stretch(a, p), Stretch(Front(b), p), Same(Last(b), p));
    }
  }

  lemma TimesStep(n: nat, p: nat)
    requires n >= 1
    ensures (n - 1) * p >= 0 && (n - 1) * p + p == n * p
  {
  }

  lemma {:induction false} StretchSame(v: bit, n: nat, p: nat)
    ensures n * p >= 0 && Stretch(Same(v, n), p) == Same(v, n * p)
  {
    if n == 0 {
    } else {
      StretchSame(v, n - 1, p);
      assert Front(Same(v, n)) == Same(v, n - 1);
      TimesStep(n, p);
      SamePlus(v, (n - 1) * p, p);
    }
  }

  /** The number of equal bits at the end of the line. */
  function RunLength(line: seq<bit>): nat {
    if line == [] then 0
    else if Front(line) == [] || Last(Front(line)) != Last(line) then 1
    else RunLength(Front(line)) + 1
  }

  predicate RunsWithin(line: seq<bit>, k: int) {
    line == [] || (RunsWithin(Front(line), k) && RunLength(line) <= k)
  }

  lemma CountOne(p: nat, wait: nat, n: nat)
    requires wait < n <= wait + p + 1
    ensures Count(p, wait, n) == 1 && WaitAfter(p, wait, n) == p - (n - wait - 1)
  {
  }

  /** One more bit of a line whose runs are within the capacity is returned once, in its own samples. */
  lemma OneBit(p: nat, s: State, length: nat, b: bit)
    requires length == 0 ==> s.last != Some(b)
    requires length > 0 ==> s.last != None && s.wait == p / 2 + 1 + length
    requires (if s.last == Some(b) then length + 1 else 1) <= Capacity(p)
    ensures Output(p, s, Same(b, p)) == [b]
    ensures Run(p, s, Same(b, p)) == State(p / 2 + 1 + (if s.last == Some(b) then length + 1 else 1), Some(b))
  {
    assert Same(b, 1) == [b];
    if s.last == Some(b) {
      HoldLevel(p, s, b, p);
      CountOne(p, s.wait, p);
    } else {
      NewLevel(p, s, b, p);
      CountOne(p, p / 2, p - 1);
    }
  }

  /** A line whose runs are within the capacity comes through bit by bit. */
  lemma {:induction false} LineComesThrough(p: nat, s: State, line: seq<bit>)
    requires line != [] ==> s.last != Some(line[0])
    requires RunsWithin(line, Capacity(p))
    ensures Output(p, s, Stretch(line, p)) == line
    ensures line != [] ==> Run(p, s, Stretch(line, p)) == State(p / 2 + 1 + RunLength(line), Some(Last(line)))
  {
    if line == [] {
    } else {
      var f := Front(line);
      LineComesThrough(p, s, f);
      var t := Run(p, s, Stretch(f, p));
      RunParts(p, s, Stretch(f, p), Same(Last(line), p), Stretch(line, p), t);
      OneBit(p, t, RunLength(f), Last(line));
      FrontLast(line);
    }
  }

  lemma CountSeven(p: nat, wait: nat, n: nat)
    requires p >= 7 && wait <= p && 7 * p - 1 <= n + p / 2 && n <= 7 * p && n - wait - 1 >= 5 * (p + 1)
    ensures 6 <= Count(p, wait, n) <= 7
  {
    CountBelow(p, 7, n - wait - 1);
    CountAtLeast(p, 5, n - wait - 1);
  }

  lemma SevenBitsHeld(p: nat, s: State, v: bit, n: nat) returns (m: nat, w: nat)
    requires p >= 7 && 0 <= s.wait <= p && n == 7 * p && s.last == Some(v)
    ensures 6 <= m <= 7 && w <= p
    ensures Output(p, s, Same(v, n)) == Same(v, m) && Run(p, s, Same(v, n)) == State(w, Some(v))
  {
    HoldLevel(p, s, v, n);
    CountSeven(p, s.wait, n);
    WaitBound(p, s.wait, n);
    m, w := Count(p, s.wait, n), WaitAfter(p, s.wait, n);
  }

  lemma SevenBitsNew(p: nat, s: State, v: bit, n: nat) returns (m: nat, w: nat)
    requires p >= 7 && n == 7 * p && s.last != Some(v)
    ensures 6 <= m <= 7 && w <= p && (p >= 15 ==> m == 7)
    ensures Output(p, s, Same(v, n)) == Same(v, m) && Run(p, s, Same(v, n)) == State(w, Some(v))
  {
    NewLevel(p, s, v, n);
    CountSeven(p, p / 2, n - 1);
    CountOfRun(p, 7);
    WaitBound(p, p / 2, n - 1);
    m, w := Count(p, p / 2, n - 1), WaitAfter(p, p / 2, n - 1);
  }

  /** Seven bits at the level the detector may already be at, whatever it waits for: at most one is lost. */
  lemma SevenBitsFromAnyWait(p: nat, s: State, v: bit) returns (m: nat, w: nat)
    requires p >= 7 && 0 <= s.wait <= p
    ensures 6 <= m <= 7 && w <= p && (s.last != Some(v) && p >= 15 ==> m == 7)
    ensures Output(p, s, Stretch(Same(v, 7), p)) == Same(v, m)
    ensures Run(p, s, Stretch(Same(v, 7), p)) == State(w, Some(v))
  {
    StretchSame(v, 7, p);
    if s.last == Some(v) {
      m, w := SevenBitsHeld(p, s, v, 7 * p);
    } else {
      m, w := SevenBitsNew(p, s, v, 7 * p);
    }
  }

  lemma {:induction false} CountAtLeast(p: nat, q: nat, n: nat)
    requires n >= q * (p + 1)
    ensures Count(p, p, n) >= q
    decreases q
  {
    if q == 0 {
    } else {
      assert q * (p + 1) == (q - 1) * (p + 1) + (p + 1);
      assert (q - 1) * (p + 1) >= 0;
      CountAtLeast(p, q - 1, n - p - 1);
    }
  }

  lemma {:induction false} WaitBound(p: nat, wait: nat, n: nat)
    requires wait <= p
    ensures WaitAfter(p, wait, n) <= p
    decreases n
  {
    if n > wait {
      WaitBound(p, p, n - wait - 1);
    }
  }
}
