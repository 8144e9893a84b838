/**
 * Positive numbers as the exposure equations use them, held exactly as their
 * base-2 logarithm: `Magnitude(e)` is the number 2^e. Products, quotients,
 * powers and square roots of such numbers stay exact, so the floating-point
 * arithmetic of the source is modelled without rounding error.
 */
module Magnitudes {

  datatype Magnitude = Magnitude(log2: real)

  const One: Magnitude := Magnitude(0.0)
  const Two: Magnitude := Magnitude(1.0)
  const SqrtTwo: Magnitude := Magnitude(0.5)

  /** `a * b` */
  function Mul(a: Magnitude, b: Magnitude): Magnitude {
    Magnitude(a.log2 + b.log2)
  }

  /** `a / b` */
  function Div(a: Magnitude, b: Magnitude): Magnitude {
    Magnitude(a.log2 - b.log2)
  }

  /** `a ** 2` */
  function Square(a: Magnitude): Magnitude {
    Magnitude(2.0 * a.log2)
  }

  /** `Math.sqrt(a)` */
  function Sqrt(a: Magnitude): Magnitude {
    Magnitude(a.log2 / 2.0)
  }

  /** `base ** n` for an integer exponent */
  function Pow(base: Magnitude, n: int): Magnitude {
    Magnitude(base.log2 * n as real)
  }

  /** `Math.log2(a)` */
  function Log2(a: Magnitude): real {
    a.log2
  }

  /** `Math.round(x)`: the nearest integer, halves rounded up. */
  function Round(x: real): (r: int)
    ensures r as real - 0.5 <= x < r as real + 0.5
  {
    (x + 0.5).Floor
  }

  /** A real number with no fractional part. */
  predicate IsWhole(x: real) {
    x.Floor as real == x
  }

  /** Subtracting a real from an integer keeps it whole exactly when the real is whole. */
  lemma WholeDifference(n: int, x: real)
    ensures IsWhole(n as real - x) <==> IsWhole(x)
    ensures IsWhole(x) ==> (n as real - x).Floor == n - x.Floor
  {
    if IsWhole(n as real - x) {
      var m := (n as real - x).Floor;
      assert x == (n - m) as real;
    }
  }

  /** Adding a real to an integer keeps it whole exactly when the real is whole. */
  lemma WholeSum(n: int, x: real)
    ensures IsWhole(n as real + x) <==> IsWhole(x)
    ensures IsWhole(x) ==> (n as real + x).Floor == n + x.Floor
  {
    if IsWhole(n as real + x) {
      var m := (n as real + x).Floor;
      assert x == (m - n) as real;
    }
  }

  /** `Math.round` leaves integers unchanged. */
  lemma RoundWhole(n: int)
    ensures Round(n as real) == n
  {
  }

  /**
   * A film speed, held as its distance in stops from ISO 100: ISO = 100 * 2^stops.
   * ISO 200 is `FilmSpeed(1.0)`, ISO 50 is `FilmSpeed(-1.0)`; a film speed that is
   * not ISO 100 times a power of two has a non-integer `stops`.
   */
  datatype FilmSpeed = FilmSpeed(stops: real)

  const Iso100: FilmSpeed := FilmSpeed(0.0)
  const Iso200: FilmSpeed := FilmSpeed(1.0)

  /** `filmSpeed / 100` */
  function Per100(iso: FilmSpeed): Magnitude {
    Magnitude(iso.stops)
  }
}
