/**
 * The class interface of the library: a `Sunny16` object holds its own
 * decorated f-number and shutter-speed tables, which `SetFNumbers` and
 * `SetShutterSpeeds` replace, and answers the settings and value queries from
 * them.
 */
module Index {
  import opened Wrappers
  import opened Magnitudes
  import opened Types
  import opened FNumbers
  import opened ShutterSpeeds
  import opened StopDomain
  import Queries = Sunny16

  /** The bound a spread argument list supplies at position `i`, if any. */
  function SpreadArgument<T>(args: seq<T>, i: nat): (r: Option<T>)
    ensures r.Some? <==> i < |args|
    ensures r.Some? ==> r.value == args[i]
  {
    if i < |args| then Some(args[i]) else None
  }

  /** The decorated f-numbers of the standard table between `min` and `max`. */
  function BoundedFNumbers(min: real, max: real): (r: seq<CameraValue<real>>)
    ensures Queries.IsExactFNumbers(r) && SameRows(r, Queries.GetFNumbers(Some(min), Some(max)))
  {
    Queries.DecorateExactFNumbers(Queries.SetBounds(F_NUMBERS, Some(min), Some(max)))
  }

  /** The decorated shutter speeds of the standard table between `min` and `max`. */
  function BoundedShutterSpeeds(min: string, max: string): (r: seq<CameraValue<string>>)
    ensures Queries.IsExactShutterSpeeds(r) && SameRows(r, Queries.GetShutterSpeeds(Some(min), Some(max)))
  {
    Queries.DecorateExactShutterSpeeds(Queries.SetBounds(SHUTTER_SPEEDS, Some(min), Some(max)))
  }

  class Sunny16 {
    var fNumbers: seq<CameraValue<real>>
    var shutterSpeeds: seq<CameraValue<string>>

    /** Both tables carry the exact value of every row. */
    ghost predicate Valid()
      reads this
    {
      Queries.IsExactFNumbers(fNumbers) && Queries.IsExactShutterSpeeds(shutterSpeeds)
    }

    /**
     * `new Sunny16(fNumberBounds, shutterSpeedBounds)`: each list of bounds is
     * spread into the matching setter, so a missing bound takes its default.
     */
    constructor(fNumberBounds: seq<real>, shutterSpeedBounds: seq<string>)
      ensures Valid()
      ensures fNumbers == BoundedFNumbers(SpreadArgument(fNumberBounds, 0).GetOr(2.0), SpreadArgument(fNumberBounds, 1).GetOr(16.0))
      ensures shutterSpeeds == BoundedShutterSpeeds(SpreadArgument(shutterSpeedBounds, 0).GetOr("1/1000"), SpreadArgument(shutterSpeedBounds, 1).GetOr("1"))
    {
      new;
      var _ := SetFNumbers(SpreadArgument(fNumberBounds, 0), SpreadArgument(fNumberBounds, 1));
      var _ := SetShutterSpeeds(SpreadArgument(shutterSpeedBounds, 0), SpreadArgument(shutterSpeedBounds, 1));
    }

    /** `getFNumbers()` */
    function GetFNumbers(): (r: seq<CameraValue<real>>)
      reads this
      ensures r == fNumbers
      ensures Valid() ==> Queries.IsExactFNumbers(r)
    {
      fNumbers
    }

    /** `getShutterSpeeds()` */
    function GetShutterSpeeds(): (r: seq<CameraValue<string>>)
      reads this
      ensures r == shutterSpeeds
      ensures Valid() ==> Queries.IsExactShutterSpeeds(r)
    {
      shutterSpeeds
    }

    /**
     * `setFNumbers(min = 2, max = 16)`: the standard f-numbers between the
     * bounds, decorated, become the object's f-numbers and are returned; the
     * shutter speeds are left as they were.
     */
    method SetFNumbers(min: Option<real>, max: Option<real>) returns (r: seq<CameraValue<real>>)
      modifies this
      ensures fNumbers == BoundedFNumbers(min.GetOr(2.0), max.GetOr(16.0))
      ensures shutterSpeeds == old(shutterSpeeds)
      ensures r == fNumbers
      ensures Queries.IsExactShutterSpeeds(old(shutterSpeeds)) ==> Valid()
    {
      var bounded := Queries.SetBounds(F_NUMBERS, Some(min.GetOr(2.0)), Some(max.GetOr(16.0)));
      fNumbers := Queries.DecorateExactFNumbers(bounded);
      r := fNumbers;
    }

    /**
     * `setShutterSpeeds(min = '1/1000', max = '1')`: the standard shutter
     * speeds between the bounds, decorated, become the object's shutter speeds
     * and are returned; the f-numbers are left as they were.
     */
    method SetShutterSpeeds(min: Option<string>, max: Option<string>) returns (r: seq<CameraValue<string>>)
      modifies this
      ensures shutterSpeeds == BoundedShutterSpeeds(min.GetOr("1/1000"), max.GetOr("1"))
      ensures fNumbers == old(fNumbers)
      ensures r == shutterSpeeds
      ensures Queries.IsExactFNumbers(old(fNumbers)) ==> Valid()
    {
      var bounded := Queries.SetBounds(SHUTTER_SPEEDS, Some(min.GetOr("1/1000")), Some(max.GetOr("1")));
      shutterSpeeds := Queries.DecorateExactShutterSpeeds(bounded);
      r := shutterSpeeds;
    }

    /** `byFNumber(ev, filmSpeed)` on the object's tables; the inputs are echoed. */
    function ByFNumber(ev: int, filmSpeed: FilmSpeed): (r: CameraSettings)
      reads this
      ensures r.drivingValue == ev && r.filmSpeed == filmSpeed
      ensures |r.settings| <= |fNumbers|
      ensures forall i :: 0 <= i < |r.settings| ==> r.settings[i].shutterSpeed.Some?
    {
      CameraSettings(ev, filmSpeed, Queries.MatchShutterSpeeds(ev, filmSpeed, fNumbers, shutterSpeeds))
    }

    /** `byShutterSpeed(ev, filmSpeed)` on the object's tables; the inputs are echoed. */
    function ByShutterSpeed(ev: int, filmSpeed: FilmSpeed): (r: CameraSettings)
      reads this
      ensures r.drivingValue == ev && r.filmSpeed == filmSpeed
      ensures |r.settings| <= |shutterSpeeds|
      ensures forall i :: 0 <= i < |r.settings| ==> r.settings[i].fNumber.Some?
    {
      CameraSettings(ev, filmSpeed, Queries.MatchFNumbers(ev, filmSpeed, fNumbers, shutterSpeeds))
    }

    /** `exposureValue(nominalFNumber, nominalShutterSpeed)` on the object's tables, with the exposure-value table `evs`. */
    function ExposureValue(nominalFNumber: real, nominalShutterSpeed: string, evs: seq<int>): (r: Option<int>)
      reads this
      ensures r.Some? ==> r.value in evs
      ensures nominalFNumber !in Nominals(fNumbers) || nominalShutterSpeed !in Nominals(shutterSpeeds) ==> r.None?
    {
      Queries.FindNominal(fNumbers, nominalFNumber);
      Queries.FindNominal(shutterSpeeds, nominalShutterSpeed);
      Queries.LookupExposureValue(fNumbers, shutterSpeeds, nominalFNumber, nominalShutterSpeed, evs)
    }

    /** `lightValue(nominalFNumber, nominalShutterSpeed, filmSpeed)` on the object's tables, with the exposure-value table `evs`. */
    function LightValue(nominalFNumber: real, nominalShutterSpeed: string, filmSpeed: FilmSpeed, evs: seq<int>): (r: Option<int>)
      reads this
      ensures r.Some? ==> r.value in evs
      ensures nominalFNumber !in Nominals(fNumbers) || nominalShutterSpeed !in Nominals(shutterSpeeds) ==> r.None?
    {
      Queries.FindNominal(fNumbers, nominalFNumber);
      Queries.FindNominal(shutterSpeeds, nominalShutterSpeed);
      Queries.LookupLightValue(fNumbers, shutterSpeeds, nominalFNumber, nominalShutterSpeed, filmSpeed, evs)
    }

    /**
     * The settings by f-number, in stops: each f-number of the object at stop
     * a meets its shutter speed at stop a - ev - k, for film speed
     * ISO 100 * 2^k; none when k is not whole.
     */
    lemma ByFNumberInStops(ev: int, filmSpeed: FilmSpeed)
      requires Valid()
      ensures ByFNumber(ev, filmSpeed).settings
           == SettingsByFNumberAt(fNumbers, shutterSpeeds, ev, filmSpeed.stops)
    {
      Queries.MatchShutterSpeedsInStops(ev, filmSpeed, fNumbers, shutterSpeeds);
    }

    /**
     * The settings by shutter speed, in stops: each shutter speed of the
     * object at stop b meets its f-number at stop b + ev + k, for film speed
     * ISO 100 * 2^k; none when k is not whole.
     */
    lemma ByShutterSpeedInStops(ev: int, filmSpeed: FilmSpeed)
      requires Valid()
      ensures ByShutterSpeed(ev, filmSpeed).settings
           == SettingsByShutterSpeedAt(fNumbers, shutterSpeeds, ev, filmSpeed.stops)
    {
      Queries.MatchFNumbersInStops(ev, filmSpeed, fNumbers, shutterSpeeds);
    }

    /** The exposure value, in stops: the f-number's stop less the shutter speed's, when it is a listed EV. */
    lemma ExposureValueInStops(nominalFNumber: real, nominalShutterSpeed: string, evs: seq<int>)
      requires Valid()
      ensures ExposureValue(nominalFNumber, nominalShutterSpeed, evs)
           == ExposureValueSpec(fNumbers, shutterSpeeds, nominalFNumber, nominalShutterSpeed, evs)
    {
      Queries.LookupExposureValueInStops(fNumbers, shutterSpeeds, nominalFNumber, nominalShutterSpeed, evs);
    }

    /** The light value, in stops: the exposure value less the film speed's stops, when that is a listed EV. */
    lemma LightValueInStops(nominalFNumber: real, nominalShutterSpeed: string, filmSpeed: FilmSpeed, evs: seq<int>)
      requires Valid()
      ensures LightValue(nominalFNumber, nominalShutterSpeed, filmSpeed, evs)
           == LightValueSpec(fNumbers, shutterSpeeds, nominalFNumber, nominalShutterSpeed, filmSpeed.stops, evs)
    {
      Queries.LookupLightValueInStops(fNumbers, shutterSpeeds, nominalFNumber, nominalShutterSpeed, filmSpeed, evs);
    }
  }

  /** With the default bounds an object holds f/2 to f/16, seven rows. */
  lemma DefaultFNumbers(min: real, max: real)
    // Pinned parameters rather than literals only keep the solver from unrolling the tables.
    requires min == 2.0 && max == 16.0
    ensures SameRows(BoundedFNumbers(min, max), F_NUMBERS[3..10])
    ensures |BoundedFNumbers(min, max)| == 7
  {
    Queries.FNumberRangeDefault(min, max);
  }

  /** With the default bounds an object holds 1/1000 to 1 second, eleven rows. */
  lemma DefaultShutterSpeeds(min: string, max: string)
    // Pinned parameters rather than literals only keep the solver from unrolling the tables.
    requires min == "1/1000" && max == "1"
    ensures SameRows(BoundedShutterSpeeds(min, max), SHUTTER_SPEEDS[4..15])
    ensures |BoundedShutterSpeeds(min, max)| == 11
  {
    Queries.ShutterSpeedRangeDefault(min, max);
  }
}
