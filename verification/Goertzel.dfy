/** The Goertzel recurrence, src/modemstuff/goertzel.c, against the DFT bin it speeds up.

    Samples are real numbers, and the cosine of the bin's angle is the first coordinate of any point on the
    unit circle; how the bin is chosen is not modelled. */
module Goertzel {
  import opened Bits

  // ----- complex numbers -----

  datatype Complex = Complex(re: real, im: real)

  const ZERO := Complex(0.0, 0.0)
  const ONE := Complex(1.0, 0.0)

  function Plus(a: Complex, b: Complex): Complex {
    Complex(a.re + b.re, a.im + b.im)
  }

  function Times(a: Complex, b: Complex): Complex {
    Complex(a.re * b.re - a.im * b.im, a.re * b.im + a.im * b.re)
  }

  function Real(x: real): Complex {
    Complex(x, 0.0)
  }

  function Conjugate(a: Complex): Complex {
    Complex(a.re, -a.im)
  }

  /** The squared magnitude. */
  function Square(a: Complex): real {
    a.re * a.re + a.im * a.im
  }

  predicate OnUnitCircle(z: Complex) {
    Square(z) == 1.0
  }

  function Power(z: Complex, n: nat): Complex {
    if n == 0 then ONE else Times(Power(z, n - 1), z)
  }

  lemma TimesAssociates(a: Complex, b: Complex, c: Complex)
    ensures Times(Times(a, b), c) == Times(a, Times(b, c))
  {
  }

  lemma TimesCommutes(a: Complex, b: Complex)
    ensures Times(a, b) == Times(b, a)
  {
  }

  lemma TimesDistributes(a: Complex, b: Complex, c: Complex)
    ensures Times(a, Plus(b, c)) == Plus(Times(a, b), Times(a, c))
  {
  }

  lemma SquareOfTimes(a: Complex, b: Complex)
    ensures Square(Times(a, b)) == Square(a) * Square(b)
  {
  }

  lemma TimesConjugate(z: Complex)
    requires OnUnitCircle(z)
    ensures Times(z, Conjugate(z)) == ONE
  {
  }

  lemma {:induction false} PowerOnCircle(z: Complex, n: nat)
    requires OnUnitCircle(z)
    ensures OnUnitCircle(Power(z, n))
  {
    if n == 0 {
    } else {
      PowerOnCircle(z, n - 1);
      SquareOfTimes(Power(z, n - 1), z);
    }
  }

  lemma ConjugateOfTimes(a: Complex, b: Complex)
    ensures Conjugate(Times(a, b)) == Times(Conjugate(a), Conjugate(b))
  {
  }

  lemma {:induction false} PowerOfConjugate(z: Complex, n: nat)
    ensures Power(Conjugate(z), n) == Conjugate(Power(z, n))
  {
    if n == 0 {
    } else {
      PowerOfConjugate(z, n - 1);
      ConjugateOfTimes(Power(z, n - 1), z);
    }
  }

  // ----- the recurrence -----

  /** The two remembered values. */
  datatype Memory = Memory(q1: real, q2: real)

  function Step(m: Memory, x: real, coeff: real): Memory {
    Memory(coeff * m.q1 - m.q2 + x, m.q1)
  }

  function Resonator(xs: seq<real>, coeff: real): Memory {
    if xs == [] then Memory(0.0, 0.0) else Step(Resonator(Front(xs), coeff), Last(xs), coeff)
  }

  /** The sum of x[i] * z^(N-1-i), by the rule of Horner. */
  function Rotated(xs: seq<real>, z: Complex): Complex {
    if xs == [] then ZERO else Plus(Times(Rotated(Front(xs), z), z), Real(Last(xs)))
  }

  /** The point with these oblique coordinates. */
  function Oblique(m: Memory, z: Complex): Complex {
    Complex(m.q1 - z.re * m.q2, z.im * m.q2)
  }

  /** The two remembered values are the rotated sum in oblique coordinates. */
  lemma {:induction false} ResonatorRotates(xs: seq<real>, z: Complex)
    requires OnUnitCircle(z)
    ensures Rotated(xs, z) == Oblique(Resonator(xs, 2.0 * z.re), z)
  {
    if xs == [] {
    } else {
      ResonatorRotates(Front(xs), z);
      OneRotation(Resonator(Front(xs), 2.0 * z.re), z, Last(xs));
    }
  }

  lemma OneRotation(m: Memory, z: Complex, x: real)
    requires OnUnitCircle(z)
    ensures Plus(Times(Oblique(m, z), z), Real(x)) == Oblique(Step(m, x, 2.0 * z.re), z)
  {
    var c, s := z.re, z.im;
    calc {
      (m.q1 - c * m.q2) * c - (s * m.q2) * s + x;
      c * m.q1 - (c * c + s * s) * m.q2 + x;
      c * m.q1 - m.q2 + x;
    }
  }

  /** What the function makes of the two values. */
  function Result(m: Memory, coeff: real): real {
    m.q1 * m.q1 + m.q2 * m.q2 - m.q1 * m.q2 * coeff
  }

  lemma ResultIsSquare(m: Memory, z: Complex)
    requires OnUnitCircle(z)
    ensures Result(m, 2.0 * z.re) == Square(Oblique(m, z)) >= 0.0
  {
    var c, s := z.re, z.im;
    calc {
      (m.q1 - c * m.q2) * (m.q1 - c * m.q2) + (s * m.q2) * (s * m.q2);
      m.q1 * m.q1 - 2.0 * c * m.q1 * m.q2 + (c * c + s * s) * (m.q2 * m.q2);
      m.q1 * m.q1 - 2.0 * c * m.q1 * m.q2 + m.q2 * m.q2;
    }
  }

  // ----- the DFT bin -----

  /** The sum of x[i] * conj(z)^i. */
  function Bin(xs: seq<real>, z: Complex): Complex {
    if xs == [] then ZERO
    else Plus(Bin(Front(xs), z), Times(Real(Last(xs)), Power(Conjugate(z), |xs| - 1)))
  }

  /** The rotated sum is the bin, turned by z^(N-1). */
  lemma {:induction false} RotatedIsBin(xs: seq<real>, z: Complex)
    requires OnUnitCircle(z) && xs != []
    ensures Rotated(xs, z) == Times(Power(z, |xs| - 1), Bin(xs, z))
    decreases |xs|, 0
  {
    TurnedOnce(Front(xs), z);
    OneMoreTurned(z, |xs| - 1, Bin(Front(xs), z), Last(xs));
  }

  lemma {:induction false} TurnedOnce(xs: seq<real>, z: Complex)
    requires OnUnitCircle(z)
    ensures Times(Rotated(xs, z), z) == Times(Power(z, |xs|), Bin(xs, z))
    decreases |xs|, 1
  {
    if xs == [] {
      EmptyTurned(z);
    } else {
      RotatedIsBin(xs, z);
      TimesSwap(Power(z, |xs| - 1), Bin(xs, z), z);
    }
  }

  lemma EmptyTurned(z: Complex)
    ensures Times(ZERO, z) == Times(Power(z, 0), ZERO)
  {
  }

  lemma TimesSwap(a: Complex, b: Complex, c: Complex)
    ensures Times(Times(a, b), c) == Times(Times(a, c), b)
  {
    TimesAssociates(a, b, c);
    TimesCommutes(b, c);
    TimesAssociates(a, c, b);
  }

  lemma OneMoreTurned(z: Complex, n: nat, b: Complex, x: real)
    requires OnUnitCircle(z)
    ensures Plus(Times(Power(z, n), b), Real(x)) == Times(Power(z, n), Plus(b, Times(Real(x), Power(Conjugate(z), n))))
  {
    var p, w := Power(z, n), Power(Conjugate(z), n);
    PowerOnCircle(z, n);
    PowerOfConjugate(z, n);
    TimesConjugate(p);
    TimesDistributes(p, b, Times(Real(x), w));
    TurnedBack(p, w, x);
  }

  lemma TurnedBack(p: Complex, w: Complex, x: real)
    requires Times(p, w) == ONE
    ensures Times(p, Times(Real(x), w)) == Real(x)
  {
    TimesCommutes(Real(x), w);
    TimesAssociates(p, w, Real(x));
  }

  lemma TurnKeepsSquare(p: Complex, b: Complex)
    requires OnUnitCircle(p)
    ensures Square(Times(p, b)) == Square(b)
  {
    SquareOfTimes(p, b);
  }

  /** So the recurrence computes the squared magnitude of the bin. */
  lemma ResonatorIsBin(xs: seq<real>, z: Complex)
    requires OnUnitCircle(z) && xs != []
    ensures Result(Resonator(xs, 2.0 * z.re), 2.0 * z.re) == Square(Rotated(xs, z)) == Square(Bin(xs, z)) >= 0.0
  {
    ResonatorRotates(xs, z);
    ResultIsSquare(Resonator(xs, 2.0 * z.re), z);
    RotatedIsBin(xs, z);
    PowerOnCircle(z, |xs| - 1);
    TurnKeepsSquare(Power(z, |xs| - 1), Bin(xs, z));
  }

  // ----- bounds -----

  function Energy(xs: seq<real>): real {
    if xs == [] then 0.0 else Energy(Front(xs)) + Last(xs) * Last(xs)
  }

  lemma {:induction false} EnergyNotNegative(xs: seq<real>)
    ensures Energy(xs) >= 0.0
  {
    if xs == [] {
    } else {
      EnergyNotNegative(Front(xs));
    }
  }

  /** 2xr <= e + nxx when rr <= ne. */
  lemma CrossTerm(x: real, r: real, n: real, e: real)
    requires n >= 0.0 && e >= 0.0 && r * r <= n * e
    ensures 2.0 * x * r <= e + n * (x * x)
  {
    if n == 0.0 {
      assert r > 0.0 ==> r * r > 0.0;
      assert r < 0.0 ==> r * r > 0.0;
    } else {
      var d := n * x - r;
      assert d * d >= 0.0;
      assert d * d == n * (n * (x * x) - 2.0 * x * r) + r * r;
      assert n * (n * (x * x) - 2.0 * x * r + e) >= 0.0;
      assert n * (x * x) - 2.0 * x * r + e >= 0.0;
    }
  }

  lemma SquareOfSum(a: Complex, x: real)
    ensures Square(Plus(a, Real(x))) == Square(a) + 2.0 * x * a.re + x * x
    ensures a.re * a.re <= Square(a)
  {
  }

  /** The inequality of Cauchy and Schwarz for the rotated sum. */
  lemma {:induction false} RotatedBound(xs: seq<real>, z: Complex)
    requires OnUnitCircle(z)
    ensures Square(Rotated(xs, z)) <= (|xs| as real) * Energy(xs)
  {
    if xs == [] {
    } else {
      var f, x, n := Front(xs), Last(xs), (|xs| - 1) as real;
      RotatedBound(f, z);
      EnergyNotNegative(f);
      SquareOfTimes(Rotated(f, z), z);
      BoundStep(Times(Rotated(f, z), z), x, n, Energy(f));
      assert n + 1.0 == |xs| as real;
    }
  }

  lemma BoundStep(a: Complex, x: real, n: real, e: real)
    requires n >= 0.0 && e >= 0.0 && Square(a) <= n * e
    ensures Square(Plus(a, Real(x))) <= (n + 1.0) * (e + x * x)
  {
    SquareOfSum(a, x);
    CrossTerm(x, a.re, n, e);
    assert (n + 1.0) * (e + x * x) == n * e + e + n * (x * x) + x * x;
  }

  // ----- the function -----

  lemma OneMoreSample(xs: seq<real>, i: nat, coeff: real)
    requires i < |xs|
    ensures Resonator(xs[..i + 1], coeff) == Step(Resonator(xs[..i], coeff), xs[i], coeff)
  {
    assert Front(xs[..i + 1]) == xs[..i];
  }

  /** The loop of ms_goertzel that applies a window. */
  method FilterWindowed(samples: seq<real>, window: seq<real>, coeff: real, ghost xs: seq<real>)
    returns (q1: real, q2: real)
    requires |window| >= |samples| == |xs|
    requires forall i | 0 <= i < |samples| :: xs[i] == samples[i] * window[i]
    ensures Memory(q1, q2) == Resonator(xs, coeff)
  {
    var q0;
    q1, q2 := 0.0, 0.0;
    for i := 0 to |samples|
      invariant Memory(q1, q2) == Resonator(xs[..i], coeff)
    {
      OneMoreSample(xs, i, coeff);
      q0 := coeff * q1 - q2 + samples[i] * window[i];
      q2 := q1;
      q1 := q0;
    }
    assert xs[..|samples|] == xs;
  }

  /** The loop without one. */
  method FilterPlain(samples: seq<real>, coeff: real) returns (q1: real, q2: real)
    ensures Memory(q1, q2) == Resonator(samples, coeff)
  {
    var q0;
    q1, q2 := 0.0, 0.0;
    for i := 0 to |samples|
      invariant Memory(q1, q2) == Resonator(samples[..i], coeff)
    {
      OneMoreSample(samples, i, coeff);
      q0 := coeff * q1 - q2 + samples[i];
      q2 := q1;
      q1 := q0;
    }
    assert samples[..|samples|] == samples;
  }

  /** ms_goertzel, for the bin at the angle of `z`, of which it uses the cosine: the squared magnitude of the
      bin over 2N, which is never negative and at most half the energy.  `xs` are the samples, times the window if
      there is one. */
  method Process(samples: seq<real>, cosine: real, window: Option<seq<real>>, ghost z: Complex, ghost xs: seq<real>)
    returns (power: real)
    requires samples != [] && OnUnitCircle(z) && z.re == cosine
    requires window == None ==> xs == samples
    requires window.Some? ==> |window.value| >= |samples| == |xs|
    requires window.Some? ==> forall i | 0 <= i < |samples| :: xs[i] == samples[i] * window.value[i]
    ensures power == Square(Bin(xs, z)) / (2.0 * (|samples| as real))
    ensures 0.0 <= power <= Energy(xs) / 2.0
  {
    var coeff := 2.0 * cosine;
    var q1, q2;
    if window.Some? {
      q1, q2 := FilterWindowed(samples, window.value, coeff, xs);
    } else {
      q1, q2 := FilterPlain(samples, coeff);
    }
    power := q1 * q1 + q2 * q2 - q1 * q2 * coeff;
    ResultBounds(xs, z, Memory(q1, q2), power);
    power := power / (|samples| as real);
    power := power / 2.0;
  }

  lemma ResultBounds(xs: seq<real>, z: Complex, m: Memory, power: real)
    requires OnUnitCircle(z) && xs != [] && m == Resonator(xs, 2.0 * z.re) && power == Result(m, 2.0 * z.re)
    ensures var n := |xs| as real;
      && power / n / 2.0 == Square(Bin(xs, z)) / (2.0 * n)
      && 0.0 <= power / n / 2.0 <= Energy(xs) / 2.0
  {
    ResonatorIsBin(xs, z);
    PowerBounds(xs, z, power);
  }

  /** Division of `power`, which is the square of a bin, by 2N. */
  lemma PowerBounds(xs: seq<real>, z: Complex, power: real)
    requires OnUnitCircle(z) && xs != [] && power == Square(Bin(xs, z))
    ensures var n := |xs| as real;
      && power / n / 2.0 == Square(Bin(xs, z)) / (2.0 * n)
      && 0.0 <= power / n / 2.0 <= Energy(xs) / 2.0
  {
    BinBound(xs, z, power, |xs| as real, Energy(xs));
    Quotients(power, |xs| as real, Energy(xs));
  }

  lemma BinBound(xs: seq<real>, z: Complex, power: real, n: real, e: real)
    requires OnUnitCircle(z) && xs != [] && power == Square(Bin(xs, z)) && n == |xs| as real && e == Energy(xs)
    ensures 0.0 <= power <= n * e
  {
    ResonatorIsBin(xs, z);
    RotatedBound(xs, z);
  }

  lemma Quotients(s: real, n: real, e: real)
    requires n > 0.0 && 0.0 <= s <= n * e
    ensures s / n / 2.0 == s / (2.0 * n) && 0.0 <= s / n / 2.0 <= e / 2.0
  {
    assert s / n <= e;
  }
}
