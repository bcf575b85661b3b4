/**
 * The slice of the engine's math library the core relies on: 2D/3D vectors,
 * an unsigned index vector, the rounding operations on `f32`, and `f32`
 * itself as an exact real extended with the non-finite values of IEEE-754.
 */
module BevyMath {

  /** `Vec2`: a world- or grid-space position. */
  datatype Vec2 = Vec2(x: real, y: real)

  /** `Vec3`: a mesh vertex position, normal or scale. */
  datatype Vec3 = Vec3(x: real, y: real, z: real)

  /** `USizeVec2`: a pair of grid indices. */
  datatype UVec2 = UVec2(x: nat, y: nat)

  /**
   * An `f32` value: a finite value (modelled exactly, without rounding),
   * one of the two infinities, or NaN.
   */
  datatype Float = Finite(r: real) | PosInf | NegInf | NaN

  /** `f32::MAX`, the largest finite `f32`: (2 - 2^-23) * 2^127. */
  const F32_MAX: real := 340282346638528859811704183484516925440.0

  datatype Ordering = Less | Equal | Greater

  datatype Option<T> = None | Some(value: T)

  /** Position of a non-NaN value on the extended real line. */
  predicate Below(a: Float, b: Float)
    requires !a.NaN? && !b.NaN?
  {
    match (a, b)
    case (NegInf, NegInf) => false
    case (NegInf, _) => true
    case (Finite(x), Finite(y)) => x < y
    case (Finite(_), PosInf) => true
    case _ => false
  }

  /** `PartialOrd::partial_cmp` on `f32`: NaN is unordered with everything. */
  function PartialCmp(a: Float, b: Float): (o: Option<Ordering>)
    ensures o.None? <==> a.NaN? || b.NaN?
    ensures o == Some(Equal) ==> a == b
    ensures o == Some(Less) <==> !a.NaN? && !b.NaN? && Below(a, b)
    ensures o == Some(Greater) <==> !a.NaN? && !b.NaN? && Below(b, a)
  {
    if a.NaN? || b.NaN? then None
    else if Below(a, b) then Some(Less)
    else if Below(b, a) then Some(Greater)
    else Some(Equal)
  }

  /** `a <= b` on ordered values. */
  predicate AtMost(a: Float, b: Float)
    requires !a.NaN? && !b.NaN?
  {
    !Below(b, a)
  }

  /** `f32::floor`. */
  function Floor(x: real): (i: int)
    ensures i as real <= x < i as real + 1.0
  {
    x.Floor
  }

  /** `f32::ceil`. */
  function Ceil(x: real): (i: int)
    ensures i as real - 1.0 < x <= i as real
  {
    -((-x).Floor)
  }

  /** `f32::round`: to the nearest integer, halfway cases away from zero. */
  function Round(x: real): (i: int)
    ensures x - 0.5 <= i as real <= x + 0.5
    ensures x >= 0.0 ==> x - 0.5 < i as real <= x + 0.5 && i >= 0
    ensures x < 0.0 ==> x - 0.5 <= i as real < x + 0.5 && i <= 0
  {
    if x >= 0.0 then (x + 0.5).Floor else -((-x + 0.5).Floor)
  }

  /** `f32::trunc`: towards zero. */
  function Trunc(x: real): (i: int)
    ensures x >= 0.0 ==> i == Floor(x)
    ensures x < 0.0 ==> i == Ceil(x)
  {
    if x >= 0.0 then Floor(x) else Ceil(x)
  }

  /** `f32::fract`: `x - x.trunc()`, so it is negative for negative `x`. */
  function Fract(x: real): (f: real)
    ensures x >= 0.0 ==> 0.0 <= f < 1.0
    ensures x < 0.0 ==> -1.0 < f <= 0.0
    ensures (Trunc(x) as real) + f == x
  {
    x - Trunc(x) as real
  }

  /**
   * The saturating float-to-`usize` cast applied to an already integral value:
   * negative values become 0 (the upper saturation point, `usize::MAX`, is
   * far beyond every grid size and is always clamped away afterwards).
   */
  function AsUsize(i: int): (n: nat)
    ensures i >= 0 ==> n == i
    ensures i < 0 ==> n == 0
  {
    if i < 0 then 0 else i
  }

  /** `1 << n`. */
  function Pow2(n: nat): (p: nat)
    ensures p >= 1
  {
    if n == 0 then 1 else 2 * Pow2(n - 1)
  }

  lemma {:induction false} Pow2Add(a: nat, b: nat)
    ensures Pow2(a + b) == Pow2(a) * Pow2(b)
  {
    if a > 0 {
      Pow2Add(a - 1, b);
      assert Pow2(a + b) == 2 * Pow2(a - 1 + b);
    }
  }

  /** `Mix::mix` on a scalar: `a * (1 - t) + b * t`. */
  function Lerp(a: real, b: real, t: real): (r: real)
    ensures t == 0.0 ==> r == a
    ensures t == 1.0 ==> r == b
    ensures a == b ==> r == a
    ensures 0.0 <= t <= 1.0 ==> Min(a, b) <= r <= Max(a, b)
  {
    LerpBounded(a, b, t);
    a * (1.0 - t) + b * t
  }

  /** `x * x`. */
  function Sq(x: real): (r: real)
    ensures r >= 0.0
  {
    x * x
  }

  lemma SqMono(a: real, b: real)
    requires 0.0 <= a <= b
    ensures Sq(a) <= Sq(b)
  {
    MulMono(0.0, b - a, b + a);
    assert (b - a) * (b + a) == b * b - a * a;
    assert Sq(a) == a * a && Sq(b) == b * b;
  }

  /** A value at least `r > 0` away from zero squares to at least `r * r`. */
  lemma SqOutside(a: real, r: real)
    ensures r > 0.0 && a >= r ==> Sq(a) >= Sq(r)
    ensures r > 0.0 && a <= -r ==> Sq(a) >= Sq(r)
  {
    if r > 0.0 && a >= r {
      SqMono(r, a);
    } else if r > 0.0 && a <= -r {
      SqMono(r, -a);
      assert Sq(-a) == Sq(a);
    }
  }

  /** `a * a < r * r` with `r > 0` puts `a` strictly inside `(-r, r)`. */
  lemma SqBelow(a: real, r: real)
    requires r > 0.0 && Sq(a) < Sq(r)
    ensures -r < a < r
  {
    SqOutside(a, r);
  }

  function Min(a: real, b: real): real { if a <= b then a else b }

  function Max(a: real, b: real): real { if a <= b then b else a }

  lemma MulMono(x: real, y: real, c: real)
    requires x <= y && 0.0 <= c
    ensures x * c <= y * c
  {
    assert y * c - x * c == (y - x) * c;
  }

  lemma MulPos(a: real, b: real)
    requires a > 0.0 && b > 0.0
    ensures a * b > 0.0
  {
  }

  lemma AddMono(a: real, b: real, c: real, d: real)
    requires a <= b && c <= d
    ensures a + c <= b + d
  {
  }

  lemma LerpBounded(a: real, b: real, t: real)
    ensures 0.0 <= t <= 1.0 ==> Min(a, b) <= a * (1.0 - t) + b * t <= Max(a, b)
  {
    if 0.0 <= t <= 1.0 {
      var lo, hi, u := Min(a, b), Max(a, b), 1.0 - t;
      MulMono(lo, a, u);
      MulMono(lo, b, t);
      assert lo * u + lo * t == lo;
      AddMono(lo * u, a * u, lo * t, b * t);
      MulMono(a, hi, u);
      MulMono(b, hi, t);
      assert hi * u + hi * t == hi;
      AddMono(a * u, hi * u, b * t, hi * t);
    }
  }
}
