/** The 16-bit compander: quantisation of [0, 1] samples to 16-bit codes and
    back, the three companding curves (mu-law, UV-law, iterated square root),
    the registry of methods with their default parameters, and the expansion
    lookup table.  Samples are exact reals; the logarithm, power and square
    root of the C library are supplied as a `Maths` value, so nothing beyond
    the laws a lemma states about them is assumed. */
module Compander {
  import opened Common

  /** std::log, std::pow and std::sqrt. */
  datatype Maths = Maths(log: real -> real, pow: (real, real) -> real, sqrt: real -> real)
  {
    function Log(x: real): real { log(x) }
    function Pow(x: real, y: real): real { pow(x, y) }
    function Sqrt(x: real): real { sqrt(x) }
  }

  /** The square root yields a non-negative root of every non-negative input. */
  ghost predicate SqrtLaw(m: Maths)
  {
    forall x: real {:trigger m.Sqrt(x)} :: 0.0 <= x ==> 0.0 <= m.Sqrt(x) && m.Sqrt(x) * m.Sqrt(x) == x
  }

  /** The two float parameters of a method (`param[0]`, `param[1]`). */
  datatype Params = Params(p0: real, p1: real)

  // ---------------------------------------------------------------------
  // Quantisation

  /** Float-to-integer conversion: truncation toward zero. */
  function TruncToZero(x: real): (n: int)
    ensures 0.0 <= x ==> n as real <= x < n as real + 1.0
    ensures x < 0.0 ==> n as real - 1.0 < x <= n as real
  {
    if 0.0 <= x then x.Floor else -((-x).Floor)
  }

  function RMax(a: real, b: real): real { if a < b then b else a }
  function RMin(a: real, b: real): real { if b < a then b else a }

  /** One element of `F32toUI16(v, true)`: scale by 65535, clamp to
      [0, 65535], truncate. */
  function Quantize(x: real): (k: u16)
    ensures x <= 0.0 ==> k == 0
    ensures 1.0 <= x ==> k == 65535
    ensures 0.0 <= x <= 1.0 ==> k as real <= 65535.0 * x < k as real + 1.0
  {
    TruncToZero(RMin(RMax(65535.0 * x, 0.0), 65535.0))
  }

  /** One element of `UI16toF32`. */
  function Dequantize(k: u16): (x: real)
    ensures 0.0 <= x <= 1.0
    ensures k == 0 <==> x == 0.0
    ensures k == 65535 <==> x == 1.0
  {
    k as real / 65535.0
  }

  /** `F32toUI16` is monotone: a larger sample never gets a smaller code. */
  lemma QuantizeMonotone(x: real, y: real)
    requires x <= y
    ensures Quantize(x) <= Quantize(y)
  {
    var a, b := RMin(RMax(65535.0 * x, 0.0), 65535.0), RMin(RMax(65535.0 * y, 0.0), 65535.0);
    assert 0.0 <= a <= b;
  }

  /** Every code survives expansion and re-quantisation. */
  lemma QuantizeDequantize(k: u16)
    ensures Quantize(Dequantize(k)) == k
  {
    assert 65535.0 * Dequantize(k) == k as real;
  }

  /** Re-expanding a code gives the sample rounded down to the code grid:
      the error is below one step of 1/65535. */
  lemma DequantizeQuantize(x: real)
    requires 0.0 <= x <= 1.0
    ensures Dequantize(Quantize(x)) <= x < Dequantize(Quantize(x)) + 1.0 / 65535.0
  {
  }

  /** `F32toUI16(v, checkRange)`: scale in place, clamp when asked, convert
      each element.  Without the clamp the conversion is only defined when
      every scaled value truncates into the 16-bit range. */
  method F32toUI16(v: seq<real>, checkRange: bool) returns (r: seq<u16>)
    requires !checkRange ==> forall i :: 0 <= i < |v| ==> -1.0 < 65535.0 * v[i] < 65536.0
    ensures |r| == |v|
    ensures checkRange ==> forall i :: 0 <= i < |v| ==> r[i] == Quantize(v[i])
    ensures !checkRange ==> forall i :: 0 <= i < |v| ==> r[i] == TruncToZero(65535.0 * v[i])
  {
    var w := new real[|v|](i requires 0 <= i < |v| => 65535.0 * v[i]);
    if checkRange {
      for i := 0 to w.Length
        invariant forall k :: 0 <= k < i ==> w[k] == RMax(65535.0 * v[k], 0.0)
        invariant forall k :: i <= k < w.Length ==> w[k] == 65535.0 * v[k]
      {
        w[i] := RMax(w[i], 0.0);
      }
      for i := 0 to w.Length
        invariant forall k :: 0 <= k < i ==> w[k] == RMin(RMax(65535.0 * v[k], 0.0), 65535.0)
        invariant forall k :: i <= k < w.Length ==> w[k] == RMax(65535.0 * v[k], 0.0)
      {
        w[i] := RMin(w[i], 65535.0);
      }
    }
    r := [];
    for i := 0 to w.Length
      invariant |r| == i
      invariant checkRange ==> forall k :: 0 <= k < i ==> r[k] == Quantize(v[k])
      invariant !checkRange ==> forall k :: 0 <= k < i ==> r[k] == TruncToZero(65535.0 * v[k])
      invariant checkRange ==> forall k :: 0 <= k < w.Length ==> w[k] == RMin(RMax(65535.0 * v[k], 0.0), 65535.0)
      invariant !checkRange ==> forall k :: 0 <= k < w.Length ==> w[k] == 65535.0 * v[k]
    {
      r := r + [TruncToZero(w[i])];
    }
  }

  /** `UI16toF32`: every code divided by 65535. */
  function UI16toF32(v: seq<u16>): (r: seq<real>)
    ensures |r| == |v|
    ensures forall i :: 0 <= i < |v| ==> r[i] == Dequantize(v[i])
  {
    seq(|v|, i requires 0 <= i < |v| => Dequantize(v[i]))
  }

  // ---------------------------------------------------------------------
  // The curves, one sample at a time.  The per-curve functions take the
  // parameters as plain reals: mu = param[0] for the mu-law, u = param[0]
  // and v = param[1] for the UV-law.

  datatype Curve = MSqrt | MuLaw | UVLaw

  /** gamma, beta and alpha of the UV-law are defined (no division by zero). */
  predicate UVDefined(u: real, v: real)
  {
    u + v - 2.0 != 0.0 && 1.0 - Gamma(u, v) != 0.0 && u - Gamma(u, v) != 0.0
  }

  function Gamma(u: real, v: real): real
    requires u + v - 2.0 != 0.0
  {
    (u * v - 1.0) / (u + v - 2.0)
  }

  function Beta(u: real, v: real): real
    requires UVDefined(u, v)
  {
    1.0 / (1.0 - Gamma(u, v))
  }

  function Alpha(u: real, v: real): real
    requires UVDefined(u, v)
  {
    1.0 / (u - Gamma(u, v))
  }

  /** What gamma, beta and alpha are, stated without division. */
  lemma UVCoefficients(u: real, v: real)
    requires UVDefined(u, v)
    ensures Gamma(u, v) * (u + v - 2.0) == u * v - 1.0
    ensures Beta(u, v) * (1.0 - Gamma(u, v)) == 1.0
    ensures Alpha(u, v) * (u - Gamma(u, v)) == 1.0
  {
  }

  /** `int(param[0])`: truncation toward zero. */
  function IntPart(x: real): int
  {
    TruncToZero(x)
  }

  /** Square roots taken by compression and squarings done by expansion in
      MSqrt: one before the loop, then int(param[0]) - 1 passes. */
  function MSqrtCount(p0: real): (n: nat)
    ensures n == Max(1, IntPart(p0))
  {
    1 + Max(0, IntPart(p0) - 1)
  }

  function IterSqrt(m: Maths, x: real, n: nat): real
  {
    if n == 0 then x else m.Sqrt(IterSqrt(m, x, n - 1))
  }

  function IterSquare(x: real, n: nat): real
  {
    if n == 0 then x else IterSquare(x, n - 1) * IterSquare(x, n - 1)
  }

  /** `compfn::MuLaw` on one sample: log(1 + mu x) scaled by 1 / log(1 + mu),
      so that the result times log(1 + mu) is log(1 + mu x). */
  function CompressMu(m: Maths, mu: real, x: real): (y: real)
    requires m.Log(1.0 + mu) != 0.0
    ensures y * m.Log(1.0 + mu) == m.Log(1.0 + mu * x)
  {
    var il := 1.0 / m.Log(1.0 + mu);
    assert il * m.Log(1.0 + mu) == 1.0;
    il * m.Log(1.0 + mu * x)
  }

  /** `expnfn::MuLaw` on one dequantised sample: ((1 + mu)^y - 1) / mu. */
  function ExpandMu(m: Maths, mu: real, y: real): (x: real)
    requires mu != 0.0
    ensures mu * x == m.Pow(1.0 + mu, y) - 1.0
  {
    var im := 1.0 / mu;
    assert im * mu == 1.0;
    im * (m.Pow(1.0 + mu, y) - 1.0)
  }

  /** The UV-law curve for given gamma, alpha and beta:
      x / ((beta - alpha) x + alpha) + gamma x. */
  function UVCurve(g: real, a: real, b: real, x: real): real
    requires (b - a) * x + a != 0.0
  {
    x / ((b - a) * x + a) + g * x
  }

  /** The UV-law expansion solves QuadA x^2 + QuadB x + QuadC = 0 for x. */
  function QuadA(g: real, a: real, b: real): real
  {
    g * (a - b)
  }

  function QuadB(g: real, a: real, b: real, y: real): real
  {
    y * (b - a) - g * a - 1.0
  }

  function QuadC(a: real, y: real): real
  {
    y * a
  }

  function Discriminant(g: real, a: real, b: real, y: real): real
  {
    QuadB(g, a, b, y) * QuadB(g, a, b, y) - 4.0 * QuadA(g, a, b) * QuadC(a, y)
  }

  /** The root of the quadratic taken with the minus sign. */
  function UVRoot(m: Maths, g: real, a: real, b: real, y: real): real
    requires QuadA(g, a, b) != 0.0
  {
    (-QuadB(g, a, b, y) - m.Sqrt(Discriminant(g, a, b, y))) / (2.0 * QuadA(g, a, b))
  }

  /** The denominator of the UV-law compression is not zero. */
  predicate UVCompressDefined(u: real, v: real, x: real)
  {
    UVDefined(u, v) && (Beta(u, v) - Alpha(u, v)) * x + Alpha(u, v) != 0.0
  }

  /** `compfn::UVLaw` on one sample. */
  function CompressUV(u: real, v: real, x: real): real
    requires UVCompressDefined(u, v, x)
  {
    UVCurve(Gamma(u, v), Alpha(u, v), Beta(u, v), x)
  }

  /** The expansion of the UV-law is defined: the quadratic is one. */
  predicate UVExpandDefined(u: real, v: real)
  {
    UVDefined(u, v) && QuadA(Gamma(u, v), Alpha(u, v), Beta(u, v)) != 0.0
  }

  /** `expnfn::UVLaw` on one dequantised sample. */
  function ExpandUV(m: Maths, u: real, v: real, y: real): real
    requires UVExpandDefined(u, v)
  {
    UVRoot(m, Gamma(u, v), Alpha(u, v), Beta(u, v), y)
  }

  /** Whether a curve's compression is defined at a sample. */
  predicate CompressDefined(m: Maths, c: Curve, p: Params, x: real)
  {
    match c
    case MSqrt => true
    case MuLaw => m.Log(1.0 + p.p0) != 0.0
    case UVLaw => UVCompressDefined(p.p0, p.p1, x)
  }

  /** The compression curve applied to one sample, before quantisation. */
  function CompressCurve(m: Maths, c: Curve, p: Params, x: real): real
    requires CompressDefined(m, c, p, x)
  {
    match c
    case MSqrt => IterSqrt(m, x, MSqrtCount(p.p0))
    case MuLaw => CompressMu(m, p.p0, x)
    case UVLaw => CompressUV(p.p0, p.p1, x)
  }

  /** Whether a curve's expansion is defined for a parameter pair. */
  predicate ExpandDefined(c: Curve, p: Params)
  {
    match c
    case MSqrt => true
    case MuLaw => p.p0 != 0.0
    case UVLaw => UVExpandDefined(p.p0, p.p1)
  }

  /** The expansion curve applied to one dequantised sample. */
  function ExpandCurve(m: Maths, c: Curve, p: Params, y: real): real
    requires ExpandDefined(c, p)
  {
    match c
    case MSqrt => IterSquare(y, MSqrtCount(p.p0))
    case MuLaw => ExpandMu(m, p.p0, y)
    case UVLaw => ExpandUV(m, p.p0, p.p1, y)
  }

  // ---------------------------------------------------------------------
  // What the curves promise

  /** With beta (1 - gamma) = 1 and alpha, beta non-zero, the UV curve
      fixes both ends of [0, 1]. */
  lemma UVCurveEnds(g: real, a: real, b: real)
    requires a != 0.0 && b * (1.0 - g) == 1.0
    ensures (b - a) * 0.0 + a != 0.0 && UVCurve(g, a, b, 0.0) == 0.0
    ensures (b - a) * 1.0 + a != 0.0 && UVCurve(g, a, b, 1.0) == 1.0
  {
    assert (b - a) * 1.0 + a == b;
    assert 1.0 / b == 1.0 - g;
  }

  /** UV-law compression fixes both ends of [0, 1]. */
  lemma UVLawEnds(u: real, v: real)
    requires UVDefined(u, v)
    ensures UVCompressDefined(u, v, 0.0) && CompressUV(u, v, 0.0) == 0.0
    ensures UVCompressDefined(u, v, 1.0) && CompressUV(u, v, 1.0) == 1.0
  {
    UVCoefficients(u, v);
    UVCurveEnds(Gamma(u, v), Alpha(u, v), Beta(u, v));
  }

  /** A sample x sent through the UV curve is a root of the quadratic the
      expansion solves for the curve's value. */
  lemma UVCurveSolvesQuadratic(g: real, a: real, b: real, x: real)
    requires (b - a) * x + a != 0.0
    ensures QuadA(g, a, b) * x * x + QuadB(g, a, b, UVCurve(g, a, b, x)) * x
            + QuadC(a, UVCurve(g, a, b, x)) == 0.0
  {
    UVAlgebra(g, a, b, x, UVCurve(g, a, b, x));
  }

  lemma UVAlgebra(g: real, a: real, b: real, x: real, y: real)
    requires (b - a) * x + a != 0.0
    requires y == x / ((b - a) * x + a) + g * x
    ensures g * (a - b) * x * x + (y * (b - a) - g * a - 1.0) * x + y * a == 0.0
  {
    var d := (b - a) * x + a;
    assert y * d == x + g * x * d;
    assert y * (b - a) * x + y * a == y * d;
    assert g * x * d == g * (b - a) * x * x + g * a * x;
  }

  /** The root the quadratic formula gives with the minus sign solves the
      quadratic. */
  lemma QuadraticRoot(a: real, b: real, c: real, s: real, x: real)
    requires a != 0.0 && s * s == b * b - 4.0 * a * c
    requires x == (-b - s) / (2.0 * a)
    ensures a * x * x + b * x + c == 0.0
  {
    assert 2.0 * a * x == -b - s;
    assert 4.0 * a * (a * x * x + b * x + c) == (2.0 * a * x + b) * (2.0 * a * x + b) - (b * b - 4.0 * a * c);
  }

  /** With a square root obeying `SqrtLaw` and a non-negative discriminant,
      the UV root is a root of its quadratic. */
  lemma UVRootSolvesQuadratic(m: Maths, g: real, a: real, b: real, y: real)
    requires SqrtLaw(m) && QuadA(g, a, b) != 0.0 && Discriminant(g, a, b, y) >= 0.0
    ensures QuadA(g, a, b) * UVRoot(m, g, a, b, y) * UVRoot(m, g, a, b, y)
            + QuadB(g, a, b, y) * UVRoot(m, g, a, b, y) + QuadC(a, y) == 0.0
  {
    SqrtAt(m, Discriminant(g, a, b, y));
    QuadraticRoot(QuadA(g, a, b), QuadB(g, a, b, y), QuadC(a, y),
                  m.Sqrt(Discriminant(g, a, b, y)), UVRoot(m, g, a, b, y));
  }

  lemma SqrtAt(m: Maths, d: real)
    requires SqrtLaw(m) && 0.0 <= d
    ensures 0.0 <= m.Sqrt(d) && m.Sqrt(d) * m.Sqrt(d) == d
  {
  }

  lemma SquareNonNegative(w: real)
    ensures 0.0 <= w * w
  {
    if w < 0.0 {
      assert w * w == (-w) * (-w);
    }
  }

  /** A quadratic with a real root has a non-negative discriminant, the
      square of 2 a x + b. */
  lemma QuadraticDiscriminant(a: real, b: real, c: real, x: real)
    requires a * x * x + b * x + c == 0.0
    ensures b * b - 4.0 * a * c == (2.0 * a * x + b) * (2.0 * a * x + b)
    ensures b * b - 4.0 * a * c >= 0.0
  {
    assert c == -(a * x * x + b * x);
    assert (2.0 * a * x + b) * (2.0 * a * x + b) == 4.0 * a * (a * x * x + b * x) + b * b;
    SquareNonNegative(2.0 * a * x + b);
  }

  /** Of the two roots of a quadratic, the minus-sign formula picks the one
      where 2 a x + b is not positive. */
  lemma QuadraticPicks(a: real, b: real, c: real, s: real, x: real)
    requires a != 0.0 && a * x * x + b * x + c == 0.0 && 2.0 * a * x + b <= 0.0
    requires 0.0 <= s && s * s == b * b - 4.0 * a * c
    ensures (-b - s) / (2.0 * a) == x
  {
    QuadraticDiscriminant(a, b, c, x);
    var w := -(2.0 * a * x + b);
    assert w * w == s * s;
    assert (s + w) * (s - w) == (s + w) * 0.0;
    if s + w != 0.0 {
      MulCancel(s + w, s - w, 0.0);
    }
    assert s == w;
    assert 2.0 * a * x == -b - s;
  }

  /** The curve with coefficients (g, a, b) is defined at x, its quadratic
      is one, and the compressed value lies on the branch the minus sign
      selects. */
  predicate CurveInvertibleAt(g: real, a: real, b: real, x: real)
  {
    (b - a) * x + a != 0.0 && QuadA(g, a, b) != 0.0
    && 2.0 * QuadA(g, a, b) * x + QuadB(g, a, b, UVCurve(g, a, b, x)) <= 0.0
  }

  /** The UV root inverts the UV curve wherever the curve's value lies on
      the branch the minus sign selects. */
  lemma UVRootInverse(m: Maths, g: real, a: real, b: real, x: real)
    requires SqrtLaw(m) && CurveInvertibleAt(g, a, b, x)
    ensures UVRoot(m, g, a, b, UVCurve(g, a, b, x)) == x
  {
    UVCurveSolvesQuadratic(g, a, b, x);
    QuadraticDiscriminant(QuadA(g, a, b), QuadB(g, a, b, UVCurve(g, a, b, x)), QuadC(a, UVCurve(g, a, b, x)), x);
    SqrtAt(m, Discriminant(g, a, b, UVCurve(g, a, b, x)));
    QuadraticPicks(QuadA(g, a, b), QuadB(g, a, b, UVCurve(g, a, b, x)), QuadC(a, UVCurve(g, a, b, x)),
                   m.Sqrt(Discriminant(g, a, b, UVCurve(g, a, b, x))), x);
  }

  /** The UV-law with parameters (u, v) is defined and invertible at x. */
  predicate UVInvertibleAt(u: real, v: real, x: real)
  {
    UVDefined(u, v) && CurveInvertibleAt(Gamma(u, v), Alpha(u, v), Beta(u, v), x)
  }

  /** UV-law expansion inverts UV-law compression before quantisation
      wherever the compressed sample lies on the branch the minus sign
      selects. */
  lemma UVLawInverse(m: Maths, u: real, v: real, x: real)
    requires SqrtLaw(m) && UVInvertibleAt(u, v, x)
    ensures UVExpandDefined(u, v) && UVCompressDefined(u, v, x)
    ensures ExpandUV(m, u, v, CompressUV(u, v, x)) == x
  {
    UVRootInverse(m, Gamma(u, v), Alpha(u, v), Beta(u, v), x);
  }

  lemma {:induction false} IterSqrtNonNegative(m: Maths, x: real, n: nat)
    requires SqrtLaw(m) && 0.0 <= x
    ensures 0.0 <= IterSqrt(m, x, n)
  {
    if n > 0 {
      IterSqrtNonNegative(m, x, n - 1);
    }
  }

  /** Squaring n times is squaring once, then n-1 more times. */
  lemma {:induction false} IterSquareFirst(x: real, n: nat)
    requires n > 0
    ensures IterSquare(x, n) == IterSquare(x * x, n - 1)
  {
    if n > 1 {
      IterSquareFirst(x, n - 1);
    }
  }

  /** n squarings undo n square roots of a non-negative sample. */
  lemma {:induction false} IterSquareSqrt(m: Maths, x: real, n: nat)
    requires SqrtLaw(m) && 0.0 <= x
    ensures IterSquare(IterSqrt(m, x, n), n) == x
  {
    if n > 0 {
      var y := IterSqrt(m, x, n - 1);
      var s := m.Sqrt(y);
      assert IterSqrt(m, x, n) == s;
      IterSqrtNonNegative(m, x, n - 1);
      IterSquareFirst(s, n);
      assert s * s == y;
      IterSquareSqrt(m, x, n - 1);
      calc {
        IterSquare(IterSqrt(m, x, n), n);
        IterSquare(s, n);
        IterSquare(s * s, n - 1);
        IterSquare(y, n - 1);
        x;
      }
    }
  }

  /** MSqrt expansion inverts MSqrt compression on [0, inf) before
      quantisation, for every parameter; parameter 1 (or anything below 2)
      is one square root and one squaring, not the identity. */
  lemma MSqrtInverse(m: Maths, p0: real, x: real)
    requires SqrtLaw(m) && 0.0 <= x
    ensures IterSquare(IterSqrt(m, x, MSqrtCount(p0)), MSqrtCount(p0)) == x
    ensures IntPart(p0) <= 1 ==> IterSqrt(m, x, MSqrtCount(p0)) == m.Sqrt(x)
  {
    IterSquareSqrt(m, x, MSqrtCount(p0));
  }

  /** std::pow undoes std::log: if y log(a) = log(t) for a base a above 1
      and a positive t, then a^y = t; and the logarithm of a number above 1
      is positive. */
  ghost predicate PowLogLaw(m: Maths)
  {
    (forall a {:trigger m.Log(a)} :: 1.0 < a ==> 0.0 < m.Log(a))
    && (forall a, y, t {:trigger m.Pow(a, y), m.Log(t)} ::
          1.0 < a && 0.0 < t && y * m.Log(a) == m.Log(t) ==> m.Pow(a, y) == t)
  }

  lemma PowLog(m: Maths, a: real, y: real, t: real)
    requires PowLogLaw(m) && 1.0 < a && 0.0 < t && y * m.Log(a) == m.Log(t)
    ensures m.Pow(a, y) == t
  {
  }

  lemma MulCancel(a: real, u: real, v: real)
    requires a != 0.0 && a * u == a * v
    ensures u == v
  {
  }

  /** Mu-law expansion of y is x whenever (1 + mu)^y is 1 + mu x. */
  lemma ExpandMuOfPow(m: Maths, mu: real, y: real, x: real)
    requires mu != 0.0 && m.Pow(1.0 + mu, y) == 1.0 + mu * x
    ensures ExpandMu(m, mu, y) == x
  {
    MulCancel(mu, ExpandMu(m, mu, y), x);
  }

  /** Mu-law expansion inverts mu-law compression before quantisation, for
      every positive mu and every sample above -1/mu. */
  lemma MuLawInverse(m: Maths, mu: real, x: real)
    requires PowLogLaw(m) && 0.0 < mu && 0.0 < 1.0 + mu * x
    ensures m.Log(1.0 + mu) != 0.0
    ensures ExpandMu(m, mu, CompressMu(m, mu, x)) == x
  {
    assert 0.0 < m.Log(1.0 + mu);
    PowLog(m, 1.0 + mu, CompressMu(m, mu, x), 1.0 + mu * x);
    ExpandMuOfPow(m, mu, CompressMu(m, mu, x), x);
  }

  // ---------------------------------------------------------------------
  // The compression and expansion functions over whole blocks

  /** `compfn::MuLaw`. */
  method MuLawCompress(m: Maths, v: seq<real>, p: Params) returns (r: seq<u16>)
    requires |v| > 0 ==> m.Log(1.0 + p.p0) != 0.0
    ensures |r| == |v|
    ensures forall i :: 0 <= i < |v| ==> r[i] == Quantize(CompressMu(m, p.p0, v[i]))
  {
    var rf := seq(|v|, i requires 0 <= i < |v| => CompressMu(m, p.p0, v[i]));
    r := F32toUI16(rf, true);
  }

  /** `compfn::UVLaw`. */
  method UVLawCompress(m: Maths, v: seq<real>, p: Params) returns (r: seq<u16>)
    requires forall i :: 0 <= i < |v| ==> UVCompressDefined(p.p0, p.p1, v[i])
    ensures |r| == |v|
    ensures forall i :: 0 <= i < |v| ==> r[i] == Quantize(CompressUV(p.p0, p.p1, v[i]))
  {
    var rf := seq(|v|, i requires 0 <= i < |v| => CompressUV(p.p0, p.p1, v[i]));
    r := F32toUI16(rf, true);
  }

  /** `compfn::MSqrt`: one square root of every sample, then int(param[0]) - 1
      further passes. */
  method MSqrtCompress(m: Maths, v: seq<real>, p: Params) returns (r: seq<u16>)
    ensures |r| == |v|
    ensures forall i :: 0 <= i < |v| ==> r[i] == Quantize(CompressCurve(m, MSqrt, p, v[i]))
  {
    var rf := seq(|v|, i requires 0 <= i < |v| => m.Sqrt(v[i]));
    var numIter := IntPart(p.p0) - 1;
    var k := 0;
    while k < numIter
      invariant 0 <= k <= Max(0, numIter)
      invariant |rf| == |v|
      invariant forall i :: 0 <= i < |v| ==> rf[i] == IterSqrt(m, v[i], k + 1)
    {
      rf := seq(|rf|, i requires 0 <= i < |rf| => m.Sqrt(rf[i]));
      k := k + 1;
    }
    r := F32toUI16(rf, true);
  }

  /** `expnfn::MuLaw` and `expnfn::UVLaw`: the curve applied to every
      dequantised code. */
  function CurveExpand(m: Maths, c: Curve, v: seq<u16>, p: Params): (r: seq<real>)
    requires ExpandDefined(c, p)
    ensures |r| == |v|
  {
    var vf := UI16toF32(v);
    seq(|v|, i requires 0 <= i < |v| => ExpandCurve(m, c, p, vf[i]))
  }

  /** `expnfn::MSqrt`: square every dequantised code once, then
      int(param[0]) - 1 further passes. */
  method MSqrtExpand(v: seq<u16>, p: Params) returns (r: seq<real>)
    ensures r == CurveExpand(Maths(_ => 0.0, (_, _) => 0.0, _ => 0.0), MSqrt, v, p)
  {
    var vf := UI16toF32(v);
    vf := seq(|vf|, i requires 0 <= i < |vf| => vf[i] * vf[i]);
    var numIter := IntPart(p.p0) - 1;
    var k := 0;
    while k < numIter
      invariant 0 <= k <= Max(0, numIter)
      invariant |vf| == |v|
      invariant forall i :: 0 <= i < |v| ==> vf[i] == IterSquare(Dequantize(v[i]), k + 1)
    {
      vf := seq(|vf|, i requires 0 <= i < |vf| => vf[i] * vf[i]);
      k := k + 1;
    }
    r := vf;
  }

  /** The expansion function of a curve, as the method's `expFn` pointer. */
  method ExpandWith(m: Maths, c: Curve, v: seq<u16>, p: Params) returns (r: seq<real>)
    requires ExpandDefined(c, p)
    ensures r == CurveExpand(m, c, v, p)
  {
    if c == MSqrt {
      r := MSqrtExpand(v, p);
    } else {
      r := CurveExpand(m, c, v, p);
    }
  }

  /** The compression function of a curve, as the method's `cmpFn` pointer. */
  method CompressWith(m: Maths, c: Curve, v: seq<real>, p: Params) returns (r: seq<u16>)
    requires forall i :: 0 <= i < |v| ==> CompressDefined(m, c, p, v[i])
    ensures |r| == |v|
    ensures forall i :: 0 <= i < |v| ==> r[i] == Quantize(CompressCurve(m, c, p, v[i]))
  {
    match c
    case MSqrt => r := MSqrtCompress(m, v, p);
    case MuLaw =>
      if |v| > 0 {
        assert CompressDefined(m, c, p, v[0]);
      }
      r := MuLawCompress(m, v, p);
    case UVLaw => r := UVLawCompress(m, v, p);
  }

  /** The table `CreateExLookupTable` builds: the expansion of every 16-bit
      code, indexed by the code. */
  function ExpansionTable(m: Maths, c: Curve, p: Params): (t: seq<real>)
    requires ExpandDefined(c, p)
    ensures |t| == 0x1_0000
  {
    CurveExpand(m, c, seq(0x1_0000, i requires 0 <= i < 0x1_0000 => i as u16), p)
  }

  /** Looking a code up in the table is expanding it directly. */
  lemma TableLookup(m: Maths, c: Curve, p: Params, v: seq<u16>, i: nat)
    requires ExpandDefined(c, p) && i < |v|
    ensures ExpansionTable(m, c, p)[v[i]] == CurveExpand(m, c, v, p)[i]
  {
    var codes := seq(0x1_0000, i requires 0 <= i < 0x1_0000 => i as u16);
    assert codes[v[i]] == v[i];
  }

  /** `Method::CreateExLookupTable`: expand all 65536 codes in order. */
  method CreateExLookupTable(m: Maths, c: Curve, p: Params) returns (table: seq<real>)
    requires ExpandDefined(c, p)
    ensures table == ExpansionTable(m, c, p)
  {
    var v := new u16[0x1_0000];
    for i := 0 to 0x1_0000
      invariant forall k :: 0 <= k < i ==> v[k] == k
    {
      v[i] := i;
    }
    assert v[..] == seq(0x1_0000, i requires 0 <= i < 0x1_0000 => i as u16);
    table := ExpandWith(m, c, v[..], p);
  }

  // ---------------------------------------------------------------------
  // The registry of companding methods

  /** `AVB_COMPANDING_M_SQRT`, `AVB_COMPANDING_MU_LAW`, `AVB_COMPANDING_UV_LAW`. */
  const MSqrtId: u32 := 1
  const MuLawId: u32 := 2
  const UVLawId: u32 := 3

  /** `Compander16::Method`: the pair of function pointers is the curve. */
  datatype Method = Method(curve: Curve, useExpansionLookupTable: bool,
                           paramDefault: Params, expansionLookupTable: seq<real>)

  /** The methods `InitCompandingMethods` registers, before any table is built. */
  function DefaultMethods(): (ms: map<u32, Method>)
    ensures ms.Keys == {MSqrtId, MuLawId, UVLawId}
    ensures ms[MuLawId].curve == MuLaw && ms[MuLawId].useExpansionLookupTable
    ensures ms[UVLawId].curve == UVLaw && ms[UVLawId].useExpansionLookupTable
    ensures ms[MSqrtId].curve == MSqrt && !ms[MSqrtId].useExpansionLookupTable
  {
    map[MuLawId := Method(MuLaw, true, Params(64.0, 0.0), []),
        UVLawId := Method(UVLaw, true, Params(256.0, 0.25), []),
        MSqrtId := Method(MSqrt, false, Params(1.0, 0.0), [])]
  }

  /** The names `InitCompandingMethods` registers. */
  function DefaultNames(): (ids: map<string, u32>)
    ensures ids.Values == DefaultMethods().Keys
  {
    var ids := map["mulaw" := MuLawId, "uvlaw" := UVLawId, "sqrt" := MSqrtId];
    assert ids["mulaw"] == MuLawId && ids["uvlaw"] == UVLawId && ids["sqrt"] == MSqrtId;
    ids
  }

  /** Every default parameter pair is one the method's expansion can use,
      so initialising any registered method with its defaults is defined. */
  lemma DefaultsExpandDefined()
    ensures forall id :: id in DefaultMethods() ==>
              ExpandDefined(DefaultMethods()[id].curve, DefaultMethods()[id].paramDefault)
  {
    var u, v := 256.0, 0.25;
    assert u + v - 2.0 == 254.25 && u * v - 1.0 == 63.0;
    assert Gamma(u, v) == 63.0 / 254.25;
    assert UVDefined(u, v);
    UVCoefficients(u, v);
    UVQuadANonZero(Gamma(u, v), Alpha(u, v), Beta(u, v), u);
  }

  /** With 0 < gamma < 1 < u, alpha = 1 / (u - gamma) and
      beta = 1 / (1 - gamma) differ, so the UV-law quadratic has a
      non-zero leading coefficient. */
  lemma UVQuadANonZero(g: real, a: real, b: real, u: real)
    requires 0.0 < g < 1.0 < u
    requires a * (u - g) == 1.0 && b * (1.0 - g) == 1.0
    ensures QuadA(g, a, b) != 0.0
  {
    assert a - b != 0.0;
    if g * (a - b) == 0.0 {
      MulCancel(g, a - b, 0.0);
    }
  }

  /** `Compander16`: the registry, the current method and its parameters. */
  class Compander16 {
    const maths: Maths
    var methodID: map<string, u32>
    var methods: map<u32, Method>
    /** `cur_method`: the id of the method it points into, None for nullptr. */
    var curMethod: Option<u32>
    var param: Params

    /** Every name maps to a registered method, id 0 is free (it means "not
        found"), every default parameter pair is usable, and the current
        method's lookup table expands every code with the current
        parameters. */
    ghost predicate Valid()
      reads this
    {
      (forall name :: name in methodID ==> methodID[name] in methods)
      && 0 !in methods
      && (forall id :: id in methods ==> ExpandDefined(methods[id].curve, methods[id].paramDefault))
      && (curMethod.Some? ==>
            curMethod.value in methods
            && ExpandDefined(methods[curMethod.value].curve, param)
            && (methods[curMethod.value].useExpansionLookupTable ==>
                  methods[curMethod.value].expansionLookupTable
                    == ExpansionTable(maths, methods[curMethod.value].curve, param)))
    }

    /** The constructor and `InitCompandingMethods`. */
    constructor (m: Maths)
      ensures Valid()
      ensures maths == m && curMethod == None
      ensures methodID == DefaultNames() && methods == DefaultMethods()
    {
      maths := m;
      curMethod := None;
      param := Params(0.0, 0.0);
      methods := DefaultMethods();
      methodID := DefaultNames();
      DefaultsExpandDefined();
    }

    /** `GetMethodID`: the registered id of a name, 0 for an unknown name. */
    method GetMethodID(name: string) returns (id: u32)
      requires Valid()
      ensures id != 0 <==> name in methodID
      ensures id in methods <==> name in methodID
      ensures name in methodID ==> id == methodID[name]
    {
      if name !in methodID {
        return 0;
      }
      id := methodID[name];
    }

    /** `Init(method, params)`: build the lookup table when the method uses
        one, store the parameters and make the method current. */
    method Init(id: u32, params: Params)
      requires Valid() && id in methods
      requires ExpandDefined(methods[id].curve, params)
      modifies this
      ensures Valid()
      ensures curMethod == Some(id) && param == params
      ensures methodID == old(methodID)
      ensures methods == old(methods)[id :=
                if old(methods)[id].useExpansionLookupTable
                then old(methods)[id].(expansionLookupTable := ExpansionTable(maths, old(methods)[id].curve, params))
                else old(methods)[id]]
    {
      var meth := methods[id];
      if meth.useExpansionLookupTable {
        var table := CreateExLookupTable(maths, meth.curve, params);
        methods := methods[id := meth.(expansionLookupTable := table)];
      }
      param := params;
      curMethod := Some(id);
    }

    /** `Init(method)`: `Init` with the method's default parameters. */
    method InitDefault(id: u32)
      requires Valid() && id in methods
      modifies this
      ensures Valid()
      ensures curMethod == Some(id) && param == old(methods)[id].paramDefault
      ensures methodID == old(methodID)
      ensures methods == old(methods)[id :=
                if old(methods)[id].useExpansionLookupTable
                then old(methods)[id].(expansionLookupTable :=
                       ExpansionTable(maths, old(methods)[id].curve, old(methods)[id].paramDefault))
                else old(methods)[id]]
    {
      Init(id, methods[id].paramDefault);
    }

    /** `Compress`: the current method's compression function with the
        current parameters. */
    method Compress(v: seq<real>) returns (r: seq<u16>)
      requires Valid() && curMethod.Some?
      requires forall i :: 0 <= i < |v| ==>
                 CompressDefined(maths, methods[curMethod.value].curve, param, v[i])
      ensures |r| == |v|
      ensures forall i :: 0 <= i < |v| ==>
                r[i] == Quantize(CompressCurve(maths, methods[curMethod.value].curve, param, v[i]))
    {
      r := CompressWith(maths, methods[curMethod.value].curve, v, param);
    }

    /** `Expand`: the expansion function, or a lookup in the table when the
        method keeps one; both give the direct expansion of every code. */
    method Expand(v: seq<u16>) returns (r: seq<real>)
      requires Valid() && curMethod.Some?
      ensures ExpandDefined(methods[curMethod.value].curve, param)
      ensures r == CurveExpand(maths, methods[curMethod.value].curve, v, param)
    {
      var meth := methods[curMethod.value];
      if !meth.useExpansionLookupTable {
        r := ExpandWith(maths, meth.curve, v, param);
        return;
      }
      var a := new real[|v|];
      for i := 0 to |v|
        invariant forall k :: 0 <= k < i ==> a[k] == CurveExpand(maths, meth.curve, v, param)[k]
      {
        TableLookup(maths, meth.curve, param, v, i);
        a[i] := meth.expansionLookupTable[v[i]];
      }
      r := a[..];
    }
  }
}
