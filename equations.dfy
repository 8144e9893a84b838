/**
 * The exposure equations, on exact magnitudes. With f-number f = sqrt(2)^a and
 * shutter speed t = 2^b (a and b the stops of the two tables), every equation
 * reduces to integer arithmetic on stops, which the lemmas below state.
 */
module Equations {
  import opened Wrappers
  import opened Magnitudes

  /** `calcExactFNumber(stop)` = sqrt(2) ** stop */
  function CalcExactFNumber(stop: int): (m: Magnitude)
    ensures Square(m) == CalcExactShutterSpeed(stop)
    ensures stop == 0 ==> m == One
  {
    Pow(SqrtTwo, stop)
  }

  /** `calcExactShutterSpeed(stop)` = 2 ** stop */
  function CalcExactShutterSpeed(stop: int): (m: Magnitude)
    ensures Log2(m) == stop as real
  {
    Pow(Two, stop)
  }

  /** Adjacent stops: shutter speeds double, f-numbers grow by sqrt(2). */
  lemma ExactStopRatios(stop: int)
    ensures CalcExactShutterSpeed(stop + 1) == Mul(Two, CalcExactShutterSpeed(stop))
    ensures CalcExactFNumber(stop + 1) == Mul(SqrtTwo, CalcExactFNumber(stop))
  {
  }

  /** Distinct stops have distinct exact values, in both tables. */
  lemma ExactValuesInjective(a: int, b: int)
    ensures CalcExactFNumber(a) == CalcExactFNumber(b) <==> a == b
    ensures CalcExactShutterSpeed(a) == CalcExactShutterSpeed(b) <==> a == b
  {
  }

  /** Whether `x` is one of `values` (`values.indexOf(x) !== -1` on a number). */
  function IsListed(values: seq<int>, x: real): (r: bool)
    ensures r <==> exists i :: 0 <= i < |values| && values[i] as real == x
  {
    IsWhole(x) && x.Floor in values
  }

  /**
   * `calcExposureValue(f, t, limitRange)`: log2(f^2 / t), rounded. With
   * `limitRange`, a value outside the exposure-value table `evs` is `null`.
   */
  function CalcExposureValue(exactFNumber: Magnitude, exactShutterSpeed: Magnitude, limitRange: bool, evs: seq<int>): (r: Option<int>)
    ensures !limitRange ==> r.Some?
    ensures r.Some? ==> r.value as real - 0.5 <= Log2(Div(Square(exactFNumber), exactShutterSpeed)) < r.value as real + 0.5
    ensures limitRange && r.Some? ==> r.value in evs
    ensures r.None? ==> limitRange && Round(Log2(Div(Square(exactFNumber), exactShutterSpeed))) !in evs
  {
    var x := Round(Log2(Div(Square(exactFNumber), exactShutterSpeed)));
    if limitRange && x !in evs then None else Some(x)
  }

  /** In stops, the exposure value is the f-number stop minus the shutter-speed stop. */
  lemma ExposureValueInStops(a: int, b: int, limitRange: bool, evs: seq<int>)
    ensures CalcExposureValue(CalcExactFNumber(a), CalcExactShutterSpeed(b), limitRange, evs)
         == if !limitRange || a - b in evs then Some(a - b) else None
  {
    RoundWhole(a - b);
  }

  /**
   * `calcLightValue(f, t, filmSpeed)`: the unranged exposure value minus
   * log2(filmSpeed / 100); `null` unless that final value is in `evs`.
   */
  function CalcLightValue(exactFNumber: Magnitude, exactShutterSpeed: Magnitude, filmSpeed: FilmSpeed, evs: seq<int>): (r: Option<int>)
    ensures r.Some? ==> r.value in evs
    ensures r.Some? ==> r.value as real == CalcExposureValue(exactFNumber, exactShutterSpeed, false, evs).value as real - filmSpeed.stops
    ensures r.None? ==> !IsListed(evs, CalcExposureValue(exactFNumber, exactShutterSpeed, false, evs).value as real - filmSpeed.stops)
  {
    var x := CalcExposureValue(exactFNumber, exactShutterSpeed, false, evs);
    if x.None? then None
    else
      var result := x.value as real - Log2(Per100(filmSpeed));
      if !IsListed(evs, result) then None else Some(result.Floor)
  }

  /**
   * In stops, the light value is a - b - k for film speed ISO 100 * 2^k; a film
   * speed off the power-of-two scale gives no light value.
   */
  lemma LightValueInStops(a: int, b: int, filmSpeed: FilmSpeed, evs: seq<int>)
    ensures CalcLightValue(CalcExactFNumber(a), CalcExactShutterSpeed(b), filmSpeed, evs)
         == if IsWhole(filmSpeed.stops) && a - b - filmSpeed.stops.Floor in evs
            then Some(a - b - filmSpeed.stops.Floor) else None
  {
    ExposureValueInStops(a, b, false, evs);
    WholeDifference(a - b, filmSpeed.stops);
  }

  /** Doubling the film speed lowers the light value by exactly one. */
  lemma LightValueIso200(f: Magnitude, t: Magnitude, evs: seq<int>)
    requires CalcLightValue(f, t, Iso200, evs).Some?
    ensures CalcLightValue(f, t, Iso200, evs).value == CalcExposureValue(f, t, false, evs).value - 1
  {
  }

  /** `calcFNumber(lv, t, filmSpeed)` = sqrt(2^lv * t * filmSpeed / 100) */
  function CalcFNumber(lightValue: int, exactShutterSpeed: Magnitude, filmSpeed: FilmSpeed): (f: Magnitude)
    ensures CalcShutterSpeed(lightValue, f, filmSpeed) == exactShutterSpeed
  {
    var y := Per100(filmSpeed);
    Sqrt(Mul(Mul(Pow(Two, lightValue), exactShutterSpeed), y))
  }

  /** `calcShutterSpeed(lv, f, filmSpeed)` = f^2 / 2^lv / (filmSpeed / 100) */
  function CalcShutterSpeed(lightValue: int, exactFNumber: Magnitude, filmSpeed: FilmSpeed): (t: Magnitude)
    ensures Log2(Div(Square(exactFNumber), t)) == lightValue as real + filmSpeed.stops
  {
    var y := Per100(filmSpeed);
    var x := Div(Mul(exactFNumber, exactFNumber), Pow(Two, lightValue));
    Div(x, y)
  }

  /** The f-number the shutter-speed equation was fed is recovered by the f-number equation. */
  lemma FNumberUndoesShutterSpeed(lightValue: int, f: Magnitude, filmSpeed: FilmSpeed)
    ensures CalcFNumber(lightValue, CalcShutterSpeed(lightValue, f, filmSpeed), filmSpeed) == f
  {
  }

  /** In stops, the shutter speed for f-number stop a is stop a - lv - k. */
  lemma ShutterSpeedInStops(lightValue: int, a: int, k: int)
    ensures CalcShutterSpeed(lightValue, CalcExactFNumber(a), FilmSpeed(k as real))
         == CalcExactShutterSpeed(a - lightValue - k)
  {
  }

  /** In stops, the f-number for shutter-speed stop b is stop lv + b + k. */
  lemma FNumberInStops(lightValue: int, b: int, k: int)
    ensures CalcFNumber(lightValue, CalcExactShutterSpeed(b), FilmSpeed(k as real))
         == CalcExactFNumber(lightValue + b + k)
  {
  }

  /**
   * Round trip through the equations: the shutter speed computed for an EV at
   * ISO 100 gives back that EV.
   */
  lemma ExposureValueOfComputedShutterSpeed(ev: int, a: int, evs: seq<int>)
    ensures CalcExposureValue(CalcExactFNumber(a), CalcShutterSpeed(ev, CalcExactFNumber(a), Iso100), false, evs) == Some(ev)
  {
    ShutterSpeedInStops(ev, a, 0);
    ExposureValueInStops(a, a - ev, false, evs);
  }
}
