/**
 * The queries of the legacy JavaScript build, on tables of positional rows.
 * The settings queries take the tables as their first two arguments, which
 * `getCameraSettings` binds; the value queries read a missing row as
 * `undefined` and throw.
 */
module LibIndex {
  import opened Wrappers
  import opened Magnitudes
  import opened Types
  import opened JsArray
  import H = Helpers
  import opened Equations
  import opened StopDomain
  import opened LibData
  import opened LibEquations
  import S = Sunny16
  import opened FNumbers
  import opened ShutterSpeeds

  /** A settings query with its two tables still to be bound. */
  type SettingsQuery = (seq<Entry<real>>, seq<Entry<string>>, int, FilmSpeed) -> CameraSettings

  /**
   * `getCameraSettings(wrappedFn, fNumbers = getFNumbers(), shutterSpeeds = getShutterSpeeds())`:
   * the query with the caller's tables, or the default-bounded ones, bound
   * ahead of its remaining arguments.
   */
  function GetCameraSettings(wrappedFn: SettingsQuery, fNumbers: Option<seq<Entry<real>>>, shutterSpeeds: Option<seq<Entry<string>>>): (r: (int, FilmSpeed) -> CameraSettings)
    ensures forall exposureValue, filmSpeed :: r(exposureValue, filmSpeed)
              == wrappedFn(fNumbers.GetOr(GetFNumbers(None, None)), shutterSpeeds.GetOr(GetShutterSpeeds(None, None)), exposureValue, filmSpeed)
  {
    var stops := fNumbers.GetOr(GetFNumbers(None, None));
    var speeds := shutterSpeeds.GetOr(GetShutterSpeeds(None, None));
    (exposureValue: int, filmSpeed: FilmSpeed) => wrappedFn(stops, speeds, exposureValue, filmSpeed)
  }

  /** `matchingShutterSpeed(fNumber)` inside `byFNumber`. */
  function MatchingShutterSpeed(exposureValue: int, filmSpeed: FilmSpeed, speeds: seq<Entry<string>>, fNumber: Entry<real>): (r: CameraSetting)
    ensures r.fNumber == Some(fNumber.1)
    ensures r.shutterSpeed.Some? ==> exists e :: e in speeds && e.2 == CalculateShutterSpeed(exposureValue, fNumber, filmSpeed) && e.1 == r.shutterSpeed.value
    ensures r.shutterSpeed.None? ==> forall e :: e in speeds ==> e.2 != CalculateShutterSpeed(exposureValue, fNumber, filmSpeed)
  {
    var val := CalculateShutterSpeed(exposureValue, fNumber, filmSpeed);
    var shutterSpeed := Find(speeds, ExactSelector(val));
    CameraSetting(Some(fNumber.1), if shutterSpeed.Some? then Some(shutterSpeed.value.1) else None)
  }

  /** `matchingShutterSpeed` as the callback `map` is given. */
  function MatchingShutterSpeedOf(exposureValue: int, filmSpeed: FilmSpeed, speeds: seq<Entry<string>>): Entry<real> -> CameraSetting {
    (fNumber: Entry<real>) => MatchingShutterSpeed(exposureValue, filmSpeed, speeds, fNumber)
  }

  /** `matchingFNumber(shutterSpeed)` inside `byShutterSpeed`. */
  function MatchingFNumber(exposureValue: int, filmSpeed: FilmSpeed, stops: seq<Entry<real>>, shutterSpeed: Entry<string>): (r: CameraSetting)
    ensures r.shutterSpeed == Some(shutterSpeed.1)
    ensures r.fNumber.Some? ==> exists e :: e in stops && e.2 == CalculateFNumber(exposureValue, shutterSpeed, filmSpeed) && e.1 == r.fNumber.value
    ensures r.fNumber.None? ==> forall e :: e in stops ==> e.2 != CalculateFNumber(exposureValue, shutterSpeed, filmSpeed)
  {
    var val := CalculateFNumber(exposureValue, shutterSpeed, filmSpeed);
    var fNumber := Find(stops, ExactSelector(val));
    CameraSetting(if fNumber.Some? then Some(fNumber.value.1) else None, Some(shutterSpeed.1))
  }

  /** `matchingFNumber` as the callback `map` is given. */
  function MatchingFNumberOf(exposureValue: int, filmSpeed: FilmSpeed, stops: seq<Entry<real>>): Entry<string> -> CameraSetting {
    (shutterSpeed: Entry<string>) => MatchingFNumber(exposureValue, filmSpeed, stops, shutterSpeed)
  }

  /** An f-number row pairs with what its record pairs with among the shutter-speed records. */
  lemma MatchingShutterSpeedAgrees(exposureValue: int, filmSpeed: FilmSpeed, speeds: seq<Entry<string>>, fNumber: Entry<real>)
    ensures MatchingShutterSpeed(exposureValue, filmSpeed, speeds, fNumber)
         == S.MatchingShutterSpeed(exposureValue, filmSpeed, Rows(speeds), AsRow(fNumber))
  {
    var t := CalculateShutterSpeed(exposureValue, fNumber, filmSpeed);
    assert t == CalcShutterSpeed(exposureValue, fNumber.2, filmSpeed);
    FindMap(speeds, AsRow, H.ExactSelector(t), ExactSelector(t));
  }

  /** A shutter-speed row pairs with what its record pairs with among the f-number records. */
  lemma MatchingFNumberAgrees(exposureValue: int, filmSpeed: FilmSpeed, stops: seq<Entry<real>>, shutterSpeed: Entry<string>)
    ensures MatchingFNumber(exposureValue, filmSpeed, stops, shutterSpeed)
         == S.MatchingFNumber(exposureValue, filmSpeed, Rows(stops), AsRow(shutterSpeed))
  {
    var f := CalculateFNumber(exposureValue, shutterSpeed, filmSpeed);
    assert f == CalcFNumber(exposureValue, shutterSpeed.2, filmSpeed);
    FindMap(stops, AsRow, H.ExactSelector(f), ExactSelector(f));
  }

  /**
   * `byFNumber(stops, speeds, exposureValue, filmSpeed)`: for each f-number,
   * the shutter speed that gives the exposure value at the film speed; the
   * inputs are echoed. The settings are, row by row, those the TypeScript
   * build computes on the same tables read as records.
   */
  function ByFNumber(stops: seq<Entry<real>>, speeds: seq<Entry<string>>, exposureValue: int, filmSpeed: FilmSpeed): (r: CameraSettings)
    ensures r.drivingValue == exposureValue && r.filmSpeed == filmSpeed
    ensures |r.settings| <= |stops|
    ensures forall i :: 0 <= i < |r.settings| ==> r.settings[i].shutterSpeed.Some?
    ensures r.settings == S.MatchShutterSpeeds(exposureValue, filmSpeed, Rows(stops), Rows(speeds))
  {
    var m := MatchingShutterSpeedOf(exposureValue, filmSpeed, speeds);
    var m' := S.MatchingShutterSpeedOf(exposureValue, filmSpeed, Rows(speeds));
    forall i | 0 <= i < |stops|
      ensures m(stops[i]) == m'(Rows(stops)[i])
    {
      MatchingShutterSpeedAgrees(exposureValue, filmSpeed, speeds, stops[i]);
    }
    assert Map(stops, m) == Map(Rows(stops), m');
    CameraSettings(exposureValue, filmSpeed, Filter(Map(stops, m), H.NotNullSelector(Some(ShutterSpeedField))))
  }

  /**
   * `byShutterSpeed(stops, speeds, exposureValue, filmSpeed)`: for each
   * shutter speed, the f-number that gives the exposure value at the film
   * speed; the inputs are echoed. The settings are, row by row, those the
   * TypeScript build computes on the same tables read as records.
   */
  function ByShutterSpeed(stops: seq<Entry<real>>, speeds: seq<Entry<string>>, exposureValue: int, filmSpeed: FilmSpeed): (r: CameraSettings)
    ensures r.drivingValue == exposureValue && r.filmSpeed == filmSpeed
    ensures |r.settings| <= |speeds|
    ensures forall i :: 0 <= i < |r.settings| ==> r.settings[i].fNumber.Some?
    ensures r.settings == S.MatchFNumbers(exposureValue, filmSpeed, Rows(stops), Rows(speeds))
  {
    var m := MatchingFNumberOf(exposureValue, filmSpeed, stops);
    var m' := S.MatchingFNumberOf(exposureValue, filmSpeed, Rows(stops));
    forall i | 0 <= i < |speeds|
      ensures m(speeds[i]) == m'(Rows(speeds)[i])
    {
      MatchingFNumberAgrees(exposureValue, filmSpeed, stops, speeds[i]);
    }
    assert Map(speeds, m) == Map(Rows(speeds), m');
    CameraSettings(exposureValue, filmSpeed, Filter(Map(speeds, m), H.NotNullSelector(Some(FNumberField))))
  }

  /**
   * The legacy settings by f-number, in stops, on exact tables: each f-number
   * at stop a meets the shutter speed at stop a - ev - k, for film speed
   * ISO 100 * 2^k, in f-number order; none when k is not whole.
   */
  lemma ByFNumberInStops(stops: seq<Entry<real>>, speeds: seq<Entry<string>>, exposureValue: int, filmSpeed: FilmSpeed)
    requires IsExactFNumbers(stops) && IsExactShutterSpeeds(speeds)
    ensures ByFNumber(stops, speeds, exposureValue, filmSpeed).settings
         == SettingsByFNumberAt(Rows(stops), Rows(speeds), exposureValue, filmSpeed.stops)
    ensures IsSubsequence(FNumbersOf(ByFNumber(stops, speeds, exposureValue, filmSpeed).settings), PresentNominals(Rows(stops)))
  {
    assert S.IsExactFNumbers(Rows(stops)) && S.IsExactShutterSpeeds(Rows(speeds)) by {
      ExactRows(stops, speeds);
    }
    assert ByFNumber(stops, speeds, exposureValue, filmSpeed).settings == S.MatchShutterSpeeds(exposureValue, filmSpeed, Rows(stops), Rows(speeds));
    S.MatchShutterSpeedsInStops(exposureValue, filmSpeed, Rows(stops), Rows(speeds));
    SettingsAtOrder(Rows(stops), Rows(speeds), exposureValue, filmSpeed.stops);
  }

  /**
   * The legacy settings by shutter speed, in stops, on exact tables: each
   * shutter speed at stop b meets the f-number at stop b + ev + k, for film
   * speed ISO 100 * 2^k, in shutter-speed order; none when k is not whole.
   */
  lemma ByShutterSpeedInStops(stops: seq<Entry<real>>, speeds: seq<Entry<string>>, exposureValue: int, filmSpeed: FilmSpeed)
    requires IsExactFNumbers(stops) && IsExactShutterSpeeds(speeds)
    ensures ByShutterSpeed(stops, speeds, exposureValue, filmSpeed).settings
         == SettingsByShutterSpeedAt(Rows(stops), Rows(speeds), exposureValue, filmSpeed.stops)
    ensures IsSubsequence(ShutterSpeedsOf(ByShutterSpeed(stops, speeds, exposureValue, filmSpeed).settings), PresentNominals(Rows(speeds)))
  {
    assert S.IsExactFNumbers(Rows(stops)) && S.IsExactShutterSpeeds(Rows(speeds)) by {
      ExactRows(stops, speeds);
    }
    assert ByShutterSpeed(stops, speeds, exposureValue, filmSpeed).settings == S.MatchFNumbers(exposureValue, filmSpeed, Rows(stops), Rows(speeds));
    S.MatchFNumbersInStops(exposureValue, filmSpeed, Rows(stops), Rows(speeds));
    SettingsAtOrder(Rows(stops), Rows(speeds), exposureValue, filmSpeed.stops);
  }

  /**
   * On tables that read as the decorated records of `fNumberArr` and
   * `shutterSpeedArr`, the legacy settings queries answer what the TypeScript
   * ones answer on those records.
   */
  lemma SettingsAgree(stops: seq<Entry<real>>, speeds: seq<Entry<string>>, fNumberArr: seq<CameraValue<real>>, shutterSpeedArr: seq<CameraValue<string>>, exposureValue: int, filmSpeed: FilmSpeed)
    requires Rows(stops) == S.DecorateExactFNumbers(fNumberArr) && Rows(speeds) == S.DecorateExactShutterSpeeds(shutterSpeedArr)
    ensures ByFNumber(stops, speeds, exposureValue, filmSpeed).settings == S.SettingsByFNumber(exposureValue, filmSpeed, fNumberArr, shutterSpeedArr)
    ensures ByShutterSpeed(stops, speeds, exposureValue, filmSpeed).settings == S.SettingsByShutterSpeed(exposureValue, filmSpeed, fNumberArr, shutterSpeedArr)
  {
  }

  /**
   * Bound to the default tables, the legacy settings queries answer what the
   * TypeScript ones answer with no tables configured: both default to f/2 to
   * f/16 and 1/1000 to 1 second.
   */
  lemma DefaultSettingsAgree(exposureValue: int, filmSpeed: FilmSpeed)
    ensures GetCameraSettings(ByFNumber, None, None)(exposureValue, filmSpeed) == S.ByFNumber(exposureValue, filmSpeed, Config(None, None))
    ensures GetCameraSettings(ByShutterSpeed, None, None)(exposureValue, filmSpeed) == S.ByShutterSpeed(exposureValue, filmSpeed, Config(None, None))
  {
    var stops := GetFNumbers(None, None);
    var speeds := GetShutterSpeeds(None, None);
    GetFNumbersAgree(None, None);
    GetShutterSpeedsAgree(None, None);
    SettingsAgree(stops, speeds, S.ConfigFNumbers(Config(None, None)), S.ConfigShutterSpeeds(Config(None, None)), exposureValue, filmSpeed);
  }

  /** A nominal value is found in a table of positional rows exactly where the reference lookup finds its stop. */
  lemma {:induction false} FindEntryNominal<N(!new)>(t: seq<Entry<N>>, v: N)
    ensures Find(t, EntryNominalSelector(v)).None? <==> StopOfNominal(Rows(t), v).None?
    ensures Find(t, EntryNominalSelector(v)).Some? ==> Find(t, EntryNominalSelector(v)).value.0 == StopOfNominal(Rows(t), v).value
  {
    FindMap(t, AsRow, H.NominalSelector(v), EntryNominalSelector(v));
    S.FindNominal(Rows(t), v);
  }

  /**
   * The lookup `getExposureValue` performs, on the tables `fNumbers` and
   * `shutterSpeeds`: a nominal value missing there leaves its row `undefined`,
   * and reading its exact value throws a `TypeError`.
   */
  function ExposureValueIn(fNumbers: seq<Entry<real>>, shutterSpeeds: seq<Entry<string>>, nominalFNumber: real, nominalShutterSpeed: string): (r: Result<int>)
    ensures var a := StopOfNominal(Rows(fNumbers), nominalFNumber);
            var b := StopOfNominal(Rows(shutterSpeeds), nominalShutterSpeed);
            (r.Ok? <==> a.Some? && b.Some?) &&
            ((r.Ok? && IsExactFNumbers(fNumbers) && IsExactShutterSpeeds(shutterSpeeds)) ==> r.value == a.value - b.value)
  {
    FindEntryNominal(fNumbers, nominalFNumber);
    FindEntryNominal(shutterSpeeds, nominalShutterSpeed);
    var fNumber := Find(fNumbers, EntryNominalSelector(nominalFNumber));
    var shutterSpeed := Find(shutterSpeeds, EntryNominalSelector(nominalShutterSpeed));
    if fNumber.None? || shutterSpeed.None? then TypeError
    else
      assert fNumber.value in fNumbers && shutterSpeed.value in shutterSpeeds;
      assert IsExactFNumbers(fNumbers) && IsExactShutterSpeeds(shutterSpeeds) ==> CalculateExposureValue(fNumber.value, shutterSpeed.value) == fNumber.value.0 - shutterSpeed.value.0 by {
        if IsExactFNumbers(fNumbers) && IsExactShutterSpeeds(shutterSpeeds) {
          LibEquations.ExposureValueInStops(fNumber.value, shutterSpeed.value);
        }
      }
      Ok(CalculateExposureValue(fNumber.value, shutterSpeed.value))
  }

  /** No f-number bound: `getFNumbers()` is called without arguments, so the defaults apply. */
  const NoFNumberBound: Option<real> := None

  /** No shutter-speed bound: `getShutterSpeeds()` is called without arguments, so the defaults apply. */
  const NoShutterSpeedBound: Option<string> := None

  /**
   * `getExposureValue(nominalFNumber, nominalShutterSpeed)`: looked up in the
   * default-bounded tables only, throwing a `TypeError` for a nominal value
   * missing there; otherwise the difference of the two stops.
   */
  function GetExposureValue(nominalFNumber: real, nominalShutterSpeed: string): (r: Result<int>)
    ensures var a := StopOfNominal(Rows(GetFNumbers(NoFNumberBound, NoFNumberBound)), nominalFNumber);
            var b := StopOfNominal(Rows(GetShutterSpeeds(NoShutterSpeedBound, NoShutterSpeedBound)), nominalShutterSpeed);
            (r.TypeError? <==> a.None? || b.None?) && (r.Ok? ==> r.value == a.value - b.value)
  {
    ExposureValueIn(GetFNumbers(NoFNumberBound, NoFNumberBound), GetShutterSpeeds(NoShutterSpeedBound, NoShutterSpeedBound), nominalFNumber, nominalShutterSpeed)
  }

  /**
   * `getLightValue(nominalFNumber, nominalShutterSpeed, filmSpeed, fNumbers, shutterSpeeds)`:
   * looked up in the caller's tables or the default-bounded ones; a missing
   * row throws a `TypeError`. The light value is not checked against any
   * range; on exact tables it is the difference of the stops less the film
   * speed's stops.
   */
  function GetLightValue(nominalFNumber: real, nominalShutterSpeed: string, filmSpeed: FilmSpeed, fNumbers: Option<seq<Entry<real>>>, shutterSpeeds: Option<seq<Entry<string>>>): (r: Result<real>)
    ensures var a := StopOfNominal(Rows(fNumbers.GetOr(GetFNumbers(None, None))), nominalFNumber);
            var b := StopOfNominal(Rows(shutterSpeeds.GetOr(GetShutterSpeeds(None, None))), nominalShutterSpeed);
            (r.Ok? <==> a.Some? && b.Some?) &&
            ((r.Ok? && IsExactFNumbers(fNumbers.GetOr(GetFNumbers(None, None))) && IsExactShutterSpeeds(shutterSpeeds.GetOr(GetShutterSpeeds(None, None))))
               ==> r.value == (a.value - b.value) as real - filmSpeed.stops)
  {
    var stops := fNumbers.GetOr(GetFNumbers(None, None));
    var speeds := shutterSpeeds.GetOr(GetShutterSpeeds(None, None));
    FindEntryNominal(stops, nominalFNumber);
    FindEntryNominal(speeds, nominalShutterSpeed);
    var fNumber := Find(stops, EntryNominalSelector(nominalFNumber));
    var shutterSpeed := Find(speeds, EntryNominalSelector(nominalShutterSpeed));
    if fNumber.None? || shutterSpeed.None? then TypeError
    else
      assert fNumber.value in stops && shutterSpeed.value in speeds;
      assert IsExactFNumbers(stops) && IsExactShutterSpeeds(speeds) ==> CalculateLightValue(fNumber.value, shutterSpeed.value, filmSpeed) == (fNumber.value.0 - shutterSpeed.value.0) as real - filmSpeed.stops by {
        if IsExactFNumbers(stops) && IsExactShutterSpeeds(speeds) {
          LibEquations.LightValueInStops(fNumber.value, shutterSpeed.value, filmSpeed);
        }
      }
      Ok(CalculateLightValue(fNumber.value, shutterSpeed.value, filmSpeed))
  }

  /** f/16 is stop 8 of the default legacy f-numbers. */
  lemma DefaultFNumberStop(f: real)
    // Pinned parameters rather than literals only keep the solver from unrolling the tables.
    requires f == 16.0
    ensures StopOfNominal(Rows(GetFNumbers(NoFNumberBound, NoFNumberBound)), f) == Some(8)
  {
    var stops := Rows(GetFNumbers(NoFNumberBound, NoFNumberBound));
    assert SameRows(stops, F_NUMBERS[3..10]) by {
      GetFNumbersAgree(NoFNumberBound, NoFNumberBound);
      S.FNumberRangeDefault(2.0, 16.0);
    }
    SameRowsSameStopOfNominal(stops, F_NUMBERS[3..10], f);
    assert StopOfNominal(F_NUMBERS[3..10], f) == Some(8) by {
      FNumberReferencePoints();
      FNumberNominalsDistinct();
      StopOfListedNominal(F_NUMBERS[3..10], 6);
    }
  }

  /** 1/250 second is stop -8 of the default legacy shutter speeds. */
  lemma DefaultShutterSpeedStop(t: string)
    // Pinned parameters rather than literals only keep the solver from unrolling the tables.
    requires t == "1/250"
    ensures StopOfNominal(Rows(GetShutterSpeeds(NoShutterSpeedBound, NoShutterSpeedBound)), t) == Some(-8)
  {
    var speeds := Rows(GetShutterSpeeds(NoShutterSpeedBound, NoShutterSpeedBound));
    assert SameRows(speeds, SHUTTER_SPEEDS[4..15]) by {
      GetShutterSpeedsAgree(NoShutterSpeedBound, NoShutterSpeedBound);
      S.ShutterSpeedRangeDefault("1/1000", "1");
    }
    SameRowsSameStopOfNominal(speeds, SHUTTER_SPEEDS[4..15], t);
    assert StopOfNominal(SHUTTER_SPEEDS[4..15], t) == Some(-8) by {
      ShutterSpeedReferencePoints();
      ShutterSpeedNominalsDistinct();
      StopOfListedNominal(SHUTTER_SPEEDS[4..15], 2);
    }
  }

  /** f/16 at 1/250 second is exposure value 16 in the default tables. */
  lemma GetExposureValueExample(f: real, t: string)
    // Pinned parameters rather than literals only keep the solver from unrolling the tables.
    requires f == 16.0 && t == "1/250"
    ensures GetExposureValue(f, t) == Ok(16)
  {
    DefaultFNumberStop(f);
    DefaultShutterSpeedStop(t);
  }
}
