/**
 * The exposure equations of the legacy JavaScript build, on positional rows
 * `[stop, nominal, exact]`. The exposure value is never limited to a range and
 * the light value is never checked against the exposure-value table.
 */
module LibEquations {
  import opened Wrappers
  import opened Magnitudes
  import opened Equations
  import opened LibData

  /** `calculateExposureValue(fNumber, shutterSpeed)`: log2(f^2 / t), rounded. */
  function CalculateExposureValue(fNumber: Entry<real>, shutterSpeed: Entry<string>): (r: int)
    ensures r as real - 0.5 <= Log2(Div(Square(fNumber.2), shutterSpeed.2)) < r as real + 0.5
  {
    Round(Log2(Div(Square(fNumber.2), shutterSpeed.2)))
  }

  /** `calculateLightValue(fNumber, shutterSpeed, filmSpeed)`: the exposure value less log2(filmSpeed / 100). */
  function CalculateLightValue(fNumber: Entry<real>, shutterSpeed: Entry<string>, filmSpeed: FilmSpeed): (r: real)
    ensures r + Log2(Per100(filmSpeed)) == CalculateExposureValue(fNumber, shutterSpeed) as real
  {
    CalculateExposureValue(fNumber, shutterSpeed) as real - Log2(Per100(filmSpeed))
  }

  /** `calculateShutterSpeed(exposureValue, fNumber, filmSpeed)` = f^2 / 2^ev / (filmSpeed / 100) */
  function CalculateShutterSpeed(exposureValue: int, fNumber: Entry<real>, filmSpeed: FilmSpeed): (t: Magnitude)
    ensures Log2(Div(Square(fNumber.2), t)) == exposureValue as real + filmSpeed.stops
  {
    Div(Div(Mul(fNumber.2, fNumber.2), Pow(Two, exposureValue)), Per100(filmSpeed))
  }

  /** `calculateFNumber(exposureValue, shutterSpeed, filmSpeed)` = sqrt(2^ev * t * filmSpeed / 100) */
  function CalculateFNumber(exposureValue: int, shutterSpeed: Entry<string>, filmSpeed: FilmSpeed): (f: Magnitude)
    ensures 2.0 * Log2(f) == exposureValue as real + Log2(shutterSpeed.2) + filmSpeed.stops
  {
    Sqrt(Mul(Mul(Pow(Two, exposureValue), shutterSpeed.2), Per100(filmSpeed)))
  }

  /**
   * The legacy equations compute what the TypeScript ones do: the exposure
   * value is the unlimited `calcExposureValue`, and the shutter speed and
   * f-number equations agree.
   */
  lemma EquationsAgree(ev: int, fNumber: Entry<real>, shutterSpeed: Entry<string>, filmSpeed: FilmSpeed, evs: seq<int>)
    ensures CalcExposureValue(fNumber.2, shutterSpeed.2, false, evs) == Some(CalculateExposureValue(fNumber, shutterSpeed))
    ensures CalculateShutterSpeed(ev, fNumber, filmSpeed) == CalcShutterSpeed(ev, fNumber.2, filmSpeed)
    ensures CalculateFNumber(ev, shutterSpeed, filmSpeed) == CalcFNumber(ev, shutterSpeed.2, filmSpeed)
  {
    var x := Log2(Div(Square(fNumber.2), shutterSpeed.2));
    assert CalculateExposureValue(fNumber, shutterSpeed) == Round(x);
  }

  /**
   * Where the TypeScript light value is defined, the legacy one is the same
   * number; the legacy one is defined everywhere else too, unchecked.
   */
  lemma LightValueAgrees(fNumber: Entry<real>, shutterSpeed: Entry<string>, filmSpeed: FilmSpeed, evs: seq<int>)
    requires CalcLightValue(fNumber.2, shutterSpeed.2, filmSpeed, evs).Some?
    ensures CalculateLightValue(fNumber, shutterSpeed, filmSpeed) == CalcLightValue(fNumber.2, shutterSpeed.2, filmSpeed, evs).value as real
  {
    EquationsAgree(0, fNumber, shutterSpeed, filmSpeed, evs);
  }

  /** On exact rows, the exposure value is the f-number's stop less the shutter speed's. */
  lemma ExposureValueInStops(fNumber: Entry<real>, shutterSpeed: Entry<string>)
    requires fNumber.2 == CalcExactFNumber(fNumber.0) && shutterSpeed.2 == CalcExactShutterSpeed(shutterSpeed.0)
    ensures CalculateExposureValue(fNumber, shutterSpeed) == fNumber.0 - shutterSpeed.0
  {
    RoundWhole(fNumber.0 - shutterSpeed.0);
  }

  /** On exact rows, the light value is the difference of the stops less the film speed's stops. */
  lemma LightValueInStops(fNumber: Entry<real>, shutterSpeed: Entry<string>, filmSpeed: FilmSpeed)
    requires fNumber.2 == CalcExactFNumber(fNumber.0) && shutterSpeed.2 == CalcExactShutterSpeed(shutterSpeed.0)
    ensures CalculateLightValue(fNumber, shutterSpeed, filmSpeed) == (fNumber.0 - shutterSpeed.0) as real - filmSpeed.stops
  {
    ExposureValueInStops(fNumber, shutterSpeed);
  }

  /**
   * The shutter speed and f-number equations undo each other: the f-number
   * computed for a shutter speed leads back to that shutter speed, and the
   * shutter speed computed for an f-number leads back to that f-number.
   */
  lemma ShutterSpeedFNumberInverse(ev: int, fNumber: Entry<real>, shutterSpeed: Entry<string>, filmSpeed: FilmSpeed)
    ensures CalculateShutterSpeed(ev, (fNumber.0, fNumber.1, CalculateFNumber(ev, shutterSpeed, filmSpeed)), filmSpeed) == shutterSpeed.2
    ensures CalculateFNumber(ev, (shutterSpeed.0, shutterSpeed.1, CalculateShutterSpeed(ev, fNumber, filmSpeed)), filmSpeed) == fNumber.2
  {
    var f := CalculateFNumber(ev, shutterSpeed, filmSpeed);
    assert 2.0 * f.log2 == ev as real + shutterSpeed.2.log2 + filmSpeed.stops;
    var t := CalculateShutterSpeed(ev, fNumber, filmSpeed);
    assert 2.0 * fNumber.2.log2 - t.log2 == ev as real + filmSpeed.stops;
  }
}
