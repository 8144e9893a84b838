/**
 * The stateless interface of the library: the standard tables cut to a range
 * of nominal values, the same tables decorated with exact values, and the
 * settings and value queries built on them.
 */
module Sunny16 {
  import opened Wrappers
  import opened Magnitudes
  import opened Types
  import opened JsArray
  import opened Helpers
  import opened Equations
  import opened FNumbers
  import opened ShutterSpeeds
  import opened StopDomain

  // ----- Bounds -----

  /** No value occurs twice in `xs`. */
  ghost predicate Distinct<T>(xs: seq<T>) {
    forall i, j :: 0 <= i < j < |xs| ==> xs[i] != xs[j]
  }

  /**
   * `s` is where the lower bound `min` starts a table with keys `keys`: the
   * position of `min`, or 0 when `min` is absent or not a key.
   */
  ghost predicate BoundStart<T>(keys: seq<T>, min: Option<T>, s: int) {
    if min.Some? && min.value in keys then 0 <= s < |keys| && keys[s] == min.value else s == 0
  }

  /**
   * `e` is where the upper bound `max` ends a table with keys `keys`
   * (exclusive): one past the position of `max`, or the length when `max` is
   * absent or not a key.
   */
  ghost predicate BoundEnd<T>(keys: seq<T>, max: Option<T>, e: int) {
    if max.Some? && max.value in keys then 0 < e <= |keys| && keys[e - 1] == max.value else e == |keys|
  }

  /** `bound ? nominalSelector(bound) : undefined` */
  function BoundSelector<N(==,!new)>(bound: Option<N>): (r: Option<CameraValue<N> -> bool>)
    ensures r.Some? <==> bound.Some?
    ensures r.Some? ==> forall o :: r.value(o) <==> o.nominal == bound.value
  {
    if bound.Some? then Some(NominalSelector(bound.value)) else None
  }

  /** `setBounds(data, min, max)`: `data` clipped between the rows whose nominal values are `min` and `max`. */
  function SetBounds<N(==,!new)>(data: seq<CameraValue<N>>, min: Option<N>, max: Option<N>): (r: seq<CameraValue<N>>)
    ensures |r| <= |data|
    ensures min.None? && max.None? ==> r == data
  {
    Clip(data, BoundSelector(min), BoundSelector(max))
  }

  /** With distinct nominal values, the row holding `min` is where `clip` starts. */
  lemma NominalBoundStart<N(!new)>(data: seq<CameraValue<N>>, min: Option<N>, s: int)
    requires Distinct(Nominals(data)) && BoundStart(Nominals(data), min, s)
    ensures ClipStart(data, BoundSelector(min), s)
  {
    if min.Some? {
      var sel := NominalSelector(min.value);
      var keys := Nominals(data);
      if min.value in keys {
        forall j | 0 <= j < s
          ensures !sel(data[j])
        {
          assert keys[j] != keys[s];
        }
        assert IsFirst(data, sel, s);
      } else {
        forall j | 0 <= j < |data|
          ensures !sel(data[j])
        {
          assert keys[j] == data[j].nominal;
        }
      }
    }
  }

  /** With distinct nominal values, the row holding `max` is where `clip` ends. */
  lemma NominalBoundEnd<N(!new)>(data: seq<CameraValue<N>>, max: Option<N>, e: int)
    requires Distinct(Nominals(data)) && BoundEnd(Nominals(data), max, e)
    ensures ClipEnd(data, BoundSelector(max), e)
  {
    if max.Some? {
      var sel := NominalSelector(max.value);
      var keys := Nominals(data);
      if max.value in keys {
        forall j | 0 <= j < e - 1
          ensures !sel(data[j])
        {
          assert keys[j] != keys[e - 1];
        }
        assert IsFirst(data, sel, e - 1);
      } else {
        forall j | 0 <= j < |data|
          ensures !sel(data[j])
        {
          assert keys[j] == data[j].nominal;
        }
      }
    }
  }

  /**
   * A table with distinct nominal values is cut from the row holding `min`
   * through the row holding `max`; an absent or unknown bound falls back to
   * the table's edge, and crossed bounds give the empty table.
   */
  lemma SetBoundsSlice<N(!new)>(data: seq<CameraValue<N>>, min: Option<N>, max: Option<N>, s: int, e: int)
    requires Distinct(Nominals(data))
    requires BoundStart(Nominals(data), min, s) && BoundEnd(Nominals(data), max, e)
    ensures 0 <= s <= |data| && 0 <= e <= |data|
    ensures SetBounds(data, min, max) == if s <= e then data[s..e] else []
  {
    NominalBoundStart(data, min, s);
    NominalBoundEnd(data, max, e);
    ClipSlice(data, BoundSelector(min), BoundSelector(max), s, e);
  }

  /** `bound ? (x => x === bound) : undefined`, the selector meant for a plain number. */
  function NumberSelector(bound: Option<int>): Option<int -> bool> {
    if bound.Some? then Some(x => x == bound.value) else None
  }

  /**
   * `setNumberBounds(data, min, max)` as the source writes it: it hands the
   * numbers to `nominalSelector`, which reads a `nominal` property a plain
   * number does not have. `undefined === min` never holds, so neither bound
   * is ever found and the whole of `data` comes back.
   */
  function SetNumberBoundsAsWritten(data: seq<int>, min: Option<int>, max: Option<int>): (r: seq<int>)
    ensures r == data
  {
    var never: int -> bool := _ => false;
    var minVal := if min.Some? then Some(never) else None;
    var maxVal := if max.Some? then Some(never) else None;
    ClipSlice(data, minVal, maxVal, 0, |data|);
    Clip(data, minVal, maxVal)
  }

  /** `setNumberBounds(data, min, max)` as intended: `data` clipped between the values `min` and `max`. */
  function SetNumberBounds(data: seq<int>, min: Option<int>, max: Option<int>): (r: seq<int>)
    ensures |r| <= |data|
    ensures min.None? && max.None? ==> r == data
  {
    Clip(data, NumberSelector(min), NumberSelector(max))
  }

  /** A list of distinct numbers is cut from the value `min` through the value `max`. */
  lemma SetNumberBoundsSlice(data: seq<int>, min: Option<int>, max: Option<int>, s: int, e: int)
    requires Distinct(data)
    requires BoundStart(data, min, s) && BoundEnd(data, max, e)
    ensures 0 <= s <= |data| && 0 <= e <= |data|
    ensures SetNumberBounds(data, min, max) == if s <= e then data[s..e] else []
  {
    if min.Some? && min.value in data {
      assert IsFirst(data, NumberSelector(min).value, s);
    }
    if max.Some? && max.value in data {
      assert IsFirst(data, NumberSelector(max).value, e - 1);
    }
    ClipSlice(data, NumberSelector(min), NumberSelector(max), s, e);
  }

  /**
   * The film speeds 100, 200 and 400 bounded to 200..200: as written the
   * bounds are ignored and all three come back; as intended only 200 does.
   */
  lemma NumberBoundsIgnored()
    ensures SetNumberBoundsAsWritten([100, 200, 400], Some(200), Some(200)) == [100, 200, 400]
    ensures SetNumberBounds([100, 200, 400], Some(200), Some(200)) == [200]
  {
    SetNumberBoundsSlice([100, 200, 400], Some(200), Some(200), 1, 2);
  }

  // ----- Table accessors -----

  /** `getFNumbers(min, max)`: the standard f-numbers, bounded when a bound is given. */
  function GetFNumbers(min: Option<real>, max: Option<real>): (r: seq<CameraValue<real>>)
    ensures |r| <= |F_NUMBERS|
  {
    if min.None? && max.None? then F_NUMBERS else SetBounds(F_NUMBERS, min, max)
  }

  /** `getShutterSpeeds(min, max)`: the standard shutter speeds, bounded when a bound is given. */
  function GetShutterSpeeds(min: Option<string>, max: Option<string>): (r: seq<CameraValue<string>>)
    ensures |r| <= |SHUTTER_SPEEDS|
  {
    if min.None? && max.None? then SHUTTER_SPEEDS else SetBounds(SHUTTER_SPEEDS, min, max)
  }

  /**
   * `getFilmSpeeds(min, max)` over the film-speed table and
   * `getExposureValues(min, max)` over the exposure-value table: the same
   * accessor on a table of numbers, with the intended bounds.
   */
  function GetNumbers(table: seq<int>, min: Option<int>, max: Option<int>): (r: seq<int>)
    ensures |r| <= |table|
    ensures min.None? && max.None? ==> r == table
  {
    if min.None? && max.None? then table else SetNumberBounds(table, min, max)
  }

  /** Distinct nominal values, stated on the list of nominal values. */
  lemma DistinctNominalKeys<N>(t: seq<CameraValue<N>>)
    requires DistinctNominals(t)
    ensures Distinct(Nominals(t))
  {
  }

  /** The f-numbers between two bounds are the slice of the standard table between their rows. */
  lemma GetFNumbersSlice(min: Option<real>, max: Option<real>, s: int, e: int)
    requires BoundStart(Nominals(F_NUMBERS), min, s) && BoundEnd(Nominals(F_NUMBERS), max, e)
    ensures GetFNumbers(min, max) == if s <= e then F_NUMBERS[s..e] else []
  {
    FNumberNominalsDistinct();
    DistinctNominalKeys(F_NUMBERS);
    SetBoundsSlice(F_NUMBERS, min, max, s, e);
  }

  /** The shutter speeds between two bounds are the slice of the standard table between their rows. */
  lemma GetShutterSpeedsSlice(min: Option<string>, max: Option<string>, s: int, e: int)
    requires BoundStart(Nominals(SHUTTER_SPEEDS), min, s) && BoundEnd(Nominals(SHUTTER_SPEEDS), max, e)
    ensures GetShutterSpeeds(min, max) == if s <= e then SHUTTER_SPEEDS[s..e] else []
  {
    ShutterSpeedNominalsDistinct();
    DistinctNominalKeys(SHUTTER_SPEEDS);
    SetBoundsSlice(SHUTTER_SPEEDS, min, max, s, e);
  }

  /** The numbers between two listed values are the slice of the table between them. */
  lemma GetNumbersSlice(table: seq<int>, min: Option<int>, max: Option<int>, s: int, e: int)
    requires Distinct(table)
    requires BoundStart(table, min, s) && BoundEnd(table, max, e)
    ensures GetNumbers(table, min, max) == if s <= e then table[s..e] else []
  {
    SetNumberBoundsSlice(table, min, max, s, e);
  }

  /** A one-element slice holds that element. */
  lemma SliceOne<T>(s: seq<T>, i: int)
    requires 0 <= i < |s|
    ensures s[i..i + 1] == [s[i]]
  {
  }

  /** The slice over the whole sequence is the sequence. */
  lemma SliceAll<T>(s: seq<T>)
    ensures s[0..|s|] == s
  {
  }

  /** Bounded by two of its nominal values, the f-number table is cut to the rows between them. */
  lemma FNumberRange(lo: real, hi: real, i: int, j: int)
    requires 0 <= i <= j < |F_NUMBERS|
    requires F_NUMBERS[i].nominal == lo && F_NUMBERS[j].nominal == hi
    ensures GetFNumbers(Some(lo), Some(hi)) == F_NUMBERS[i..j + 1]
  {
    var keys := Nominals(F_NUMBERS);
    assert keys[i] == lo && keys[j] == hi;
    GetFNumbersSlice(Some(lo), Some(hi), i, j + 1);
  }

  /** Bounded by two of its nominal values, the shutter-speed table is cut to the rows between them. */
  lemma ShutterSpeedRange(lo: string, hi: string, i: int, j: int)
    requires 0 <= i <= j < |SHUTTER_SPEEDS|
    requires SHUTTER_SPEEDS[i].nominal == lo && SHUTTER_SPEEDS[j].nominal == hi
    ensures GetShutterSpeeds(Some(lo), Some(hi)) == SHUTTER_SPEEDS[i..j + 1]
  {
    var keys := Nominals(SHUTTER_SPEEDS);
    assert keys[i] == lo && keys[j] == hi;
    GetShutterSpeedsSlice(Some(lo), Some(hi), i, j + 1);
  }

  /** f/16 alone, the f-number range of the library's own settings tests. */
  lemma FNumberRangeSingle(f: real)
    // Pinned parameters rather than literals only keep the solver from unrolling the tables.
    requires f == 16.0
    ensures GetFNumbers(Some(f), Some(f)) == [Stop(8, 16.0)]
  {
    FNumberReferencePoints();
    FNumberRange(f, f, 9, 9);
    SliceOne(F_NUMBERS, 9);
  }

  /** f/2 to f/16, the default f-number range of the settings queries: seven rows. */
  lemma FNumberRangeDefault(lo: real, hi: real)
    // Pinned parameters rather than literals only keep the solver from unrolling the tables.
    requires lo == 2.0 && hi == 16.0
    ensures GetFNumbers(Some(lo), Some(hi)) == F_NUMBERS[3..10]
    ensures |GetFNumbers(Some(lo), Some(hi))| == 7
  {
    FNumberReferencePoints();
    FNumberRange(lo, hi, 3, 9);
  }

  /** f/0.7 to f/520 is the whole f-number table. */
  lemma FNumberRangeFull(lo: real, hi: real)
    // Pinned parameters rather than literals only keep the solver from unrolling the tables.
    requires lo == 0.7 && hi == 520.0
    ensures GetFNumbers(Some(lo), Some(hi)) == F_NUMBERS
  {
    FNumberStops();
    FNumberRange(lo, hi, 0, 19);
    SliceAll(F_NUMBERS);
  }

  /** 1/250 alone, a shutter-speed range of the library's own settings tests. */
  lemma ShutterSpeedRangeSingle(t: string)
    // Pinned parameters rather than literals only keep the solver from unrolling the tables.
    requires t == "1/250"
    ensures GetShutterSpeeds(Some(t), Some(t)) == [Stop(-8, "1/250")]
  {
    ShutterSpeedReferencePoints();
    ShutterSpeedRange(t, t, 6, 6);
    SliceOne(SHUTTER_SPEEDS, 6);
  }

  /** 1 alone, the other shutter-speed range of the library's own settings tests. */
  lemma ShutterSpeedRangeOneSecond(t: string)
    // Pinned parameters rather than literals only keep the solver from unrolling the tables.
    requires t == "1"
    ensures GetShutterSpeeds(Some(t), Some(t)) == [Stop(0, "1")]
  {
    ShutterSpeedReferencePoints();
    ShutterSpeedRange(t, t, 14, 14);
    SliceOne(SHUTTER_SPEEDS, 14);
  }

  /** 1/1000 to 1, the default shutter-speed range of the settings queries: eleven rows. */
  lemma ShutterSpeedRangeDefault(lo: string, hi: string)
    // Pinned parameters rather than literals only keep the solver from unrolling the tables.
    requires lo == "1/1000" && hi == "1"
    ensures GetShutterSpeeds(Some(lo), Some(hi)) == SHUTTER_SPEEDS[4..15]
    ensures |GetShutterSpeeds(Some(lo), Some(hi))| == 11
  {
    ShutterSpeedReferencePoints();
    ShutterSpeedRange(lo, hi, 4, 14);
  }

  /** 1/16000 to 64 is the whole shutter-speed table. */
  lemma ShutterSpeedRangeFull(lo: string, hi: string)
    // Pinned parameters rather than literals only keep the solver from unrolling the tables.
    requires lo == "1/16000" && hi == "64"
    ensures GetShutterSpeeds(Some(lo), Some(hi)) == SHUTTER_SPEEDS
  {
    ShutterSpeedStops();
    ShutterSpeedRange(lo, hi, 0, 20);
    SliceAll(SHUTTER_SPEEDS);
  }

  // ----- Decoration -----

  /** Every row carries the exact f-number of its stop. */
  ghost predicate IsExactFNumbers(t: seq<CameraValue<real>>) {
    forall i :: 0 <= i < |t| ==> t[i].ExactStop? && t[i].exact == CalcExactFNumber(t[i].stop)
  }

  /** Every row carries the exact shutter speed of its stop. */
  ghost predicate IsExactShutterSpeeds(t: seq<CameraValue<string>>) {
    forall i :: 0 <= i < |t| ==> t[i].ExactStop? && t[i].exact == CalcExactShutterSpeed(t[i].stop)
  }

  /** `decorateExactFNumbers(fNumbers)`: each row with `exact` set from its stop. */
  function DecorateExactFNumbers(fNumbers: seq<CameraValue<real>>): (r: seq<CameraValue<real>>)
    ensures IsExactFNumbers(r) && SameRows(r, fNumbers)
  {
    var r := Map(fNumbers, (o: CameraValue<real>) => ExactStop(o.stop, o.nominal, CalcExactFNumber(o.stop)));
    SameRowsByIndex(r, fNumbers);
    r
  }

  /** `decorateExactShutterSpeeds(shutterSpeeds)`: each row with `exact` set from its stop. */
  function DecorateExactShutterSpeeds(shutterSpeeds: seq<CameraValue<string>>): (r: seq<CameraValue<string>>)
    ensures IsExactShutterSpeeds(r) && SameRows(r, shutterSpeeds)
  {
    var r := Map(shutterSpeeds, (o: CameraValue<string>) => ExactStop(o.stop, o.nominal, CalcExactShutterSpeed(o.stop)));
    SameRowsByIndex(r, shutterSpeeds);
    r
  }

  // ----- Lookups -----

  /** `row ? nominalValue(row) : null` */
  function NominalOf<N>(row: Option<CameraValue<N>>): Option<N> {
    if row.Some? then Some(row.value.nominal) else None
  }

  /** Looking a nominal value up finds a row exactly when the reference lookup finds a stop, and it finds that stop. */
  lemma {:induction false} FindNominal<N(!new)>(t: seq<CameraValue<N>>, v: N)
    ensures Find(t, NominalSelector(v)).None? <==> StopOfNominal(t, v).None?
    ensures Find(t, NominalSelector(v)).Some? ==> Find(t, NominalSelector(v)).value.stop == StopOfNominal(t, v).value
  {
    if t != [] {
      FindCons(t, NominalSelector(v));
      FindNominal(t[1..], v);
    }
  }

  /** The tail of a decorated f-number table is decorated. */
  lemma ExactFNumbersTail(t: seq<CameraValue<real>>)
    requires t != [] && IsExactFNumbers(t)
    ensures IsExactFNumbers(t[1..])
  {
    assert forall i :: 0 <= i < |t[1..]| ==> t[1..][i] == t[i + 1];
  }

  /** The tail of a decorated shutter-speed table is decorated. */
  lemma ExactShutterSpeedsTail(t: seq<CameraValue<string>>)
    requires t != [] && IsExactShutterSpeeds(t)
    ensures IsExactShutterSpeeds(t[1..])
  {
    assert forall i :: 0 <= i < |t[1..]| ==> t[1..][i] == t[i + 1];
  }

  /**
   * Searching a decorated shutter-speed table for an exact value finds the
   * row at stop log2(target) when that is whole, and nothing otherwise.
   */
  lemma {:induction false} FindExactShutterSpeed(t: seq<CameraValue<string>>, target: Magnitude)
    requires IsExactShutterSpeeds(t)
    ensures NominalOf(Find(t, ExactSelector(target)))
         == if IsWhole(target.log2) then NominalAtStop(t, target.log2.Floor) else None
  {
    if t != [] {
      FindCons(t, ExactSelector(target));
      ExactShutterSpeedsTail(t);
      FindExactShutterSpeed(t[1..], target);
    }
  }

  /**
   * Searching a decorated f-number table for an exact value finds the row at
   * stop 2 * log2(target) when that is whole, and nothing otherwise.
   */
  lemma {:induction false} FindExactFNumber(t: seq<CameraValue<real>>, target: Magnitude)
    requires IsExactFNumbers(t)
    ensures NominalOf(Find(t, ExactSelector(target)))
         == if IsWhole(2.0 * target.log2) then NominalAtStop(t, (2.0 * target.log2).Floor) else None
  {
    if t != [] {
      FindCons(t, ExactSelector(target));
      ExactFNumbersTail(t);
      FindExactFNumber(t[1..], target);
    }
  }

  // ----- Settings queries -----

  /**
   * `matchingShutterSpeed(fNumber)`: the f-number, paired with the shutter
   * speed of `shutterSpeeds` whose exact value the equations give for it, or
   * with `null`. A row without an exact value computes NaN, which matches nothing.
   */
  function MatchingShutterSpeed(lightValue: int, filmSpeed: FilmSpeed, shutterSpeeds: seq<CameraValue<string>>, fNumber: CameraValue<real>): (r: CameraSetting)
    ensures r.fNumber == Some(fNumber.nominal)
    ensures r.shutterSpeed.Some? ==> fNumber.ExactStop? && exists o :: o in shutterSpeeds && o.ExactStop? && o.exact == CalcShutterSpeed(lightValue, fNumber.exact, filmSpeed) && o.nominal == r.shutterSpeed.value
    ensures r.shutterSpeed.None? && fNumber.ExactStop? ==> forall o :: o in shutterSpeeds && o.ExactStop? ==> o.exact != CalcShutterSpeed(lightValue, fNumber.exact, filmSpeed)
  {
    var shutterSpeed :=
      if fNumber.ExactStop? then Find(shutterSpeeds, ExactSelector(CalcShutterSpeed(lightValue, fNumber.exact, filmSpeed)))
      else None;
    CameraSetting(Some(fNumber.nominal), NominalOf(shutterSpeed))
  }

  /** `matchingShutterSpeed` as the callback `map` is given. */
  function MatchingShutterSpeedOf(lightValue: int, filmSpeed: FilmSpeed, shutterSpeeds: seq<CameraValue<string>>): CameraValue<real> -> CameraSetting {
    (fNumber: CameraValue<real>) => MatchingShutterSpeed(lightValue, filmSpeed, shutterSpeeds, fNumber)
  }

  /** `fNumbers.map(matchingShutterSpeed).filter(notNullSelector('shutterSpeed'))` */
  function MatchShutterSpeeds(lightValue: int, filmSpeed: FilmSpeed, fNumbers: seq<CameraValue<real>>, shutterSpeeds: seq<CameraValue<string>>): (r: seq<CameraSetting>)
    ensures |r| <= |fNumbers|
    ensures forall i :: 0 <= i < |r| ==> r[i].shutterSpeed.Some?
  {
    Filter(Map(fNumbers, MatchingShutterSpeedOf(lightValue, filmSpeed, shutterSpeeds)), NotNullSelector(Some(ShutterSpeedField)))
  }

  /**
   * On decorated tables, the settings driven by f-number are those of the
   * reference definition, shifted by the light value plus the film speed in
   * stops; a film speed off the power-of-two scale gives none.
   */
  lemma {:induction false} MatchShutterSpeedsInStops(lightValue: int, filmSpeed: FilmSpeed, fNumbers: seq<CameraValue<real>>, shutterSpeeds: seq<CameraValue<string>>)
    requires IsExactFNumbers(fNumbers) && IsExactShutterSpeeds(shutterSpeeds)
    ensures MatchShutterSpeeds(lightValue, filmSpeed, fNumbers, shutterSpeeds)
         == SettingsByFNumberAt(fNumbers, shutterSpeeds, lightValue, filmSpeed.stops)
  {
    if fNumbers != [] {
      var m := MatchingShutterSpeedOf(lightValue, filmSpeed, shutterSpeeds);
      var p := NotNullSelector(Some(ShutterSpeedField));
      FilterMapCons(fNumbers, m, p);
      ExactFNumbersTail(fNumbers);
      MatchShutterSpeedsInStops(lightValue, filmSpeed, fNumbers[1..], shutterSpeeds);
      MatchingShutterSpeedInStops(lightValue, filmSpeed, shutterSpeeds, fNumbers[0]);
      SettingsByFNumberAtCons(fNumbers, shutterSpeeds, lightValue, filmSpeed.stops);
    }
  }

  /** The setting `matchingShutterSpeed` gives an exact f-number row, in stops. */
  lemma MatchingShutterSpeedInStops(lightValue: int, filmSpeed: FilmSpeed, shutterSpeeds: seq<CameraValue<string>>, fNumber: CameraValue<real>)
    requires IsExactShutterSpeeds(shutterSpeeds)
    requires fNumber.ExactStop? && fNumber.exact == CalcExactFNumber(fNumber.stop)
    ensures MatchingShutterSpeed(lightValue, filmSpeed, shutterSpeeds, fNumber)
         == CameraSetting(Some(fNumber.nominal), if IsWhole(filmSpeed.stops) then NominalAtStop(shutterSpeeds, fNumber.stop - lightValue - filmSpeed.stops.Floor) else None)
  {
    var a := fNumber.stop;
    var target := CalcShutterSpeed(lightValue, fNumber.exact, filmSpeed);
    assert target.log2 == (a - lightValue) as real - filmSpeed.stops;
    FindExactShutterSpeed(shutterSpeeds, target);
    WholeDifference(a - lightValue, filmSpeed.stops);
  }


  /**
   * `matchingFNumber(shutterSpeed)`: the shutter speed, paired with the
   * f-number of `fNumbers` whose exact value the equations give for it, or
   * with `null`.
   */
  function MatchingFNumber(lightValue: int, filmSpeed: FilmSpeed, fNumbers: seq<CameraValue<real>>, shutterSpeed: CameraValue<string>): (r: CameraSetting)
    ensures r.shutterSpeed == Some(shutterSpeed.nominal)
    ensures r.fNumber.Some? ==> shutterSpeed.ExactStop? && exists o :: o in fNumbers && o.ExactStop? && o.exact == CalcFNumber(lightValue, shutterSpeed.exact, filmSpeed) && o.nominal == r.fNumber.value
    ensures r.fNumber.None? && shutterSpeed.ExactStop? ==> forall o :: o in fNumbers && o.ExactStop? ==> o.exact != CalcFNumber(lightValue, shutterSpeed.exact, filmSpeed)
  {
    var fNumber :=
      if shutterSpeed.ExactStop? then Find(fNumbers, ExactSelector(CalcFNumber(lightValue, shutterSpeed.exact, filmSpeed)))
      else None;
    CameraSetting(NominalOf(fNumber), Some(shutterSpeed.nominal))
  }

  /** `matchingFNumber` as the callback `map` is given. */
  function MatchingFNumberOf(lightValue: int, filmSpeed: FilmSpeed, fNumbers: seq<CameraValue<real>>): CameraValue<string> -> CameraSetting {
    (shutterSpeed: CameraValue<string>) => MatchingFNumber(lightValue, filmSpeed, fNumbers, shutterSpeed)
  }

  /** `shutterSpeeds.map(matchingFNumber).filter(notNullSelector('fNumber'))` */
  function MatchFNumbers(lightValue: int, filmSpeed: FilmSpeed, fNumbers: seq<CameraValue<real>>, shutterSpeeds: seq<CameraValue<string>>): (r: seq<CameraSetting>)
    ensures |r| <= |shutterSpeeds|
    ensures forall i :: 0 <= i < |r| ==> r[i].fNumber.Some?
  {
    Filter(Map(shutterSpeeds, MatchingFNumberOf(lightValue, filmSpeed, fNumbers)), NotNullSelector(Some(FNumberField)))
  }

  /**
   * On decorated tables, the settings driven by shutter speed are those of the
   * reference definition, shifted by the light value plus the film speed in
   * stops; a film speed off the power-of-two scale gives none.
   */
  lemma {:induction false} MatchFNumbersInStops(lightValue: int, filmSpeed: FilmSpeed, fNumbers: seq<CameraValue<real>>, shutterSpeeds: seq<CameraValue<string>>)
    requires IsExactFNumbers(fNumbers) && IsExactShutterSpeeds(shutterSpeeds)
    ensures MatchFNumbers(lightValue, filmSpeed, fNumbers, shutterSpeeds)
         == SettingsByShutterSpeedAt(fNumbers, shutterSpeeds, lightValue, filmSpeed.stops)
  {
    if shutterSpeeds != [] {
      var m := MatchingFNumberOf(lightValue, filmSpeed, fNumbers);
      var p := NotNullSelector(Some(FNumberField));
      FilterMapCons(shutterSpeeds, m, p);
      ExactShutterSpeedsTail(shutterSpeeds);
      MatchFNumbersInStops(lightValue, filmSpeed, fNumbers, shutterSpeeds[1..]);
      MatchingFNumberInStops(lightValue, filmSpeed, fNumbers, shutterSpeeds[0]);
      SettingsByShutterSpeedAtCons(fNumbers, shutterSpeeds, lightValue, filmSpeed.stops);
    }
  }

  /** The setting `matchingFNumber` gives an exact shutter-speed row, in stops. */
  lemma MatchingFNumberInStops(lightValue: int, filmSpeed: FilmSpeed, fNumbers: seq<CameraValue<real>>, shutterSpeed: CameraValue<string>)
    requires IsExactFNumbers(fNumbers)
    requires shutterSpeed.ExactStop? && shutterSpeed.exact == CalcExactShutterSpeed(shutterSpeed.stop)
    ensures MatchingFNumber(lightValue, filmSpeed, fNumbers, shutterSpeed)
         == CameraSetting(if IsWhole(filmSpeed.stops) then NominalAtStop(fNumbers, shutterSpeed.stop + lightValue + filmSpeed.stops.Floor) else None, Some(shutterSpeed.nominal))
  {
    var b := shutterSpeed.stop;
    var target := CalcFNumber(lightValue, shutterSpeed.exact, filmSpeed);
    assert 2.0 * target.log2 == (lightValue + b) as real + filmSpeed.stops;
    FindExactFNumber(fNumbers, target);
    WholeSum(lightValue + b, filmSpeed.stops);
  }


  /** The f-number table of a settings query: the caller's, or f/2 to f/16. */
  function ConfigFNumbers(config: Config): (r: seq<CameraValue<real>>)
    ensures config.fNumbers.Some? ==> r == config.fNumbers.value
    ensures config.fNumbers.None? ==> r == F_NUMBERS[3..10]
  {
    FNumberRangeDefault(2.0, 16.0);
    config.fNumbers.GetOr(GetFNumbers(Some(2.0), Some(16.0)))
  }

  /** The shutter-speed table of a settings query: the caller's, or 1/1000 to 1. */
  function ConfigShutterSpeeds(config: Config): (r: seq<CameraValue<string>>)
    ensures config.shutterSpeeds.Some? ==> r == config.shutterSpeeds.value
    ensures config.shutterSpeeds.None? ==> r == SHUTTER_SPEEDS[4..15]
  {
    ShutterSpeedRangeDefault("1/1000", "1");
    config.shutterSpeeds.GetOr(GetShutterSpeeds(Some("1/1000"), Some("1")))
  }

  /** The settings `byFNumber` computes from the tables `fNumberArr` and `shutterSpeedArr`, decorated first. */
  function SettingsByFNumber(lightValue: int, filmSpeed: FilmSpeed, fNumberArr: seq<CameraValue<real>>, shutterSpeedArr: seq<CameraValue<string>>): (r: seq<CameraSetting>)
    ensures |r| <= |fNumberArr|
    ensures forall i :: 0 <= i < |r| ==> r[i].shutterSpeed.Some?
  {
    MatchShutterSpeeds(lightValue, filmSpeed, DecorateExactFNumbers(fNumberArr), DecorateExactShutterSpeeds(shutterSpeedArr))
  }

  /** The settings `byShutterSpeed` computes from the tables `fNumberArr` and `shutterSpeedArr`, decorated first. */
  function SettingsByShutterSpeed(lightValue: int, filmSpeed: FilmSpeed, fNumberArr: seq<CameraValue<real>>, shutterSpeedArr: seq<CameraValue<string>>): (r: seq<CameraSetting>)
    ensures |r| <= |shutterSpeedArr|
    ensures forall i :: 0 <= i < |r| ==> r[i].fNumber.Some?
  {
    MatchFNumbers(lightValue, filmSpeed, DecorateExactFNumbers(fNumberArr), DecorateExactShutterSpeeds(shutterSpeedArr))
  }

  /**
   * The settings by f-number, in stops: each f-number at stop a meets the
   * shutter speed at stop a - lightValue - k, for film speed ISO 100 * 2^k,
   * in f-number order; there are none when k is not whole.
   */
  lemma SettingsByFNumberInStops(lightValue: int, filmSpeed: FilmSpeed, fNumberArr: seq<CameraValue<real>>, shutterSpeedArr: seq<CameraValue<string>>)
    ensures SettingsByFNumber(lightValue, filmSpeed, fNumberArr, shutterSpeedArr)
         == SettingsByFNumberAt(fNumberArr, shutterSpeedArr, lightValue, filmSpeed.stops)
    ensures IsSubsequence(FNumbersOf(SettingsByFNumber(lightValue, filmSpeed, fNumberArr, shutterSpeedArr)), PresentNominals(fNumberArr))
  {
    var fNumbers := DecorateExactFNumbers(fNumberArr);
    var shutterSpeeds := DecorateExactShutterSpeeds(shutterSpeedArr);
    MatchShutterSpeedsInStops(lightValue, filmSpeed, fNumbers, shutterSpeeds);
    SameRowsSameSettingsAt(fNumbers, fNumberArr, shutterSpeeds, shutterSpeedArr, lightValue, filmSpeed.stops);
    SettingsAtOrder(fNumberArr, shutterSpeedArr, lightValue, filmSpeed.stops);
  }

  /**
   * The settings by shutter speed, in stops: each shutter speed at stop b
   * meets the f-number at stop b + lightValue + k, for film speed
   * ISO 100 * 2^k, in shutter-speed order; there are none when k is not whole.
   */
  lemma SettingsByShutterSpeedInStops(lightValue: int, filmSpeed: FilmSpeed, fNumberArr: seq<CameraValue<real>>, shutterSpeedArr: seq<CameraValue<string>>)
    ensures SettingsByShutterSpeed(lightValue, filmSpeed, fNumberArr, shutterSpeedArr)
         == SettingsByShutterSpeedAt(fNumberArr, shutterSpeedArr, lightValue, filmSpeed.stops)
    ensures IsSubsequence(ShutterSpeedsOf(SettingsByShutterSpeed(lightValue, filmSpeed, fNumberArr, shutterSpeedArr)), PresentNominals(shutterSpeedArr))
  {
    var fNumbers := DecorateExactFNumbers(fNumberArr);
    var shutterSpeeds := DecorateExactShutterSpeeds(shutterSpeedArr);
    MatchFNumbersInStops(lightValue, filmSpeed, fNumbers, shutterSpeeds);
    SameRowsSameSettingsAt(fNumbers, fNumberArr, shutterSpeeds, shutterSpeedArr, lightValue, filmSpeed.stops);
    SettingsAtOrder(fNumberArr, shutterSpeedArr, lightValue, filmSpeed.stops);
  }

  /**
   * `byFNumber(lightValue, filmSpeed, config)`: for each f-number, the shutter
   * speed that gives the light value at the film speed; the inputs are echoed.
   * The tables are the caller's or the defaults, and the settings are those
   * `SettingsByFNumberInStops` describes.
   */
  function ByFNumber(lightValue: int, filmSpeed: FilmSpeed, config: Config): (r: CameraSettings)
    ensures r.drivingValue == lightValue && r.filmSpeed == filmSpeed
    ensures r.settings == SettingsByFNumber(lightValue, filmSpeed, ConfigFNumbers(config), ConfigShutterSpeeds(config))
  {
    CameraSettings(lightValue, filmSpeed, SettingsByFNumber(lightValue, filmSpeed, ConfigFNumbers(config), ConfigShutterSpeeds(config)))
  }

  /**
   * `byShutterSpeed(lightValue, filmSpeed, config)`: for each shutter speed,
   * the f-number that gives the light value at the film speed; the inputs are
   * echoed. The settings are those `SettingsByShutterSpeedInStops` describes.
   */
  function ByShutterSpeed(lightValue: int, filmSpeed: FilmSpeed, config: Config): (r: CameraSettings)
    ensures r.drivingValue == lightValue && r.filmSpeed == filmSpeed
    ensures r.settings == SettingsByShutterSpeed(lightValue, filmSpeed, ConfigFNumbers(config), ConfigShutterSpeeds(config))
  {
    CameraSettings(lightValue, filmSpeed, SettingsByShutterSpeed(lightValue, filmSpeed, ConfigFNumbers(config), ConfigShutterSpeeds(config)))
  }

  // ----- Exposure and light values -----

  /**
   * The common part of `exposureValue` and `lightValue`: the exact values of the
   * rows whose nominal values are `nominalFNumber` and `nominalShutterSpeed`;
   * `None` when either row is missing, or carries no exact value (the source
   * then computes with NaN, which no table holds).
   */
  function ExactPair(fNumbers: seq<CameraValue<real>>, shutterSpeeds: seq<CameraValue<string>>, nominalFNumber: real, nominalShutterSpeed: string): (r: Option<(Magnitude, Magnitude)>)
    ensures r.Some? ==> Find(fNumbers, NominalSelector(nominalFNumber)).Some? && Find(shutterSpeeds, NominalSelector(nominalShutterSpeed)).Some?
  {
    var fNumber := Find(fNumbers, NominalSelector(nominalFNumber));
    var shutterSpeed := Find(shutterSpeeds, NominalSelector(nominalShutterSpeed));
    if fNumber.None? || shutterSpeed.None? then None
    else if !fNumber.value.ExactStop? || !shutterSpeed.value.ExactStop? then None
    else Some((fNumber.value.exact, shutterSpeed.value.exact))
  }

  /** On decorated tables, the exact pair is that of the stops the nominal values are listed at. */
  lemma ExactPairInStops(fNumbers: seq<CameraValue<real>>, shutterSpeeds: seq<CameraValue<string>>, nominalFNumber: real, nominalShutterSpeed: string)
    requires IsExactFNumbers(fNumbers) && IsExactShutterSpeeds(shutterSpeeds)
    ensures ExactPair(fNumbers, shutterSpeeds, nominalFNumber, nominalShutterSpeed)
         == var a := StopOfNominal(fNumbers, nominalFNumber);
            var b := StopOfNominal(shutterSpeeds, nominalShutterSpeed);
            if a.Some? && b.Some? then Some((CalcExactFNumber(a.value), CalcExactShutterSpeed(b.value))) else None
  {
    FindNominal(fNumbers, nominalFNumber);
    FindNominal(shutterSpeeds, nominalShutterSpeed);
    var fNumber := Find(fNumbers, NominalSelector(nominalFNumber));
    var shutterSpeed := Find(shutterSpeeds, NominalSelector(nominalShutterSpeed));
    if fNumber.Some? && shutterSpeed.Some? {
      var i :| 0 <= i < |fNumbers| && fNumbers[i] == fNumber.value;
      var j :| 0 <= j < |shutterSpeeds| && shutterSpeeds[j] == shutterSpeed.value;
    }
  }

  /**
   * The exposure value of two nominal values looked up in decorated tables:
   * `null` when either is not listed, else `calcExposureValue` limited to the
   * exposure-value table `evs`.
   */
  function LookupExposureValue(fNumbers: seq<CameraValue<real>>, shutterSpeeds: seq<CameraValue<string>>, nominalFNumber: real, nominalShutterSpeed: string, evs: seq<int>): (r: Option<int>)
    ensures r.Some? ==> r.value in evs
    ensures Find(fNumbers, NominalSelector(nominalFNumber)).None? ==> r.None?
    ensures Find(shutterSpeeds, NominalSelector(nominalShutterSpeed)).None? ==> r.None?
  {
    var pair := ExactPair(fNumbers, shutterSpeeds, nominalFNumber, nominalShutterSpeed);
    if pair.None? then None else CalcExposureValue(pair.value.0, pair.value.1, true, evs)
  }

  /**
   * The light value of two nominal values at a film speed, looked up in
   * decorated tables: `null` when either is not listed, else `calcLightValue`.
   */
  function LookupLightValue(fNumbers: seq<CameraValue<real>>, shutterSpeeds: seq<CameraValue<string>>, nominalFNumber: real, nominalShutterSpeed: string, filmSpeed: FilmSpeed, evs: seq<int>): (r: Option<int>)
    ensures r.Some? ==> r.value in evs
    ensures Find(fNumbers, NominalSelector(nominalFNumber)).None? ==> r.None?
    ensures Find(shutterSpeeds, NominalSelector(nominalShutterSpeed)).None? ==> r.None?
  {
    var pair := ExactPair(fNumbers, shutterSpeeds, nominalFNumber, nominalShutterSpeed);
    if pair.None? then None else CalcLightValue(pair.value.0, pair.value.1, filmSpeed, evs)
  }

  /** On decorated tables, the exposure value is the difference of the two stops, when it is a listed EV. */
  lemma LookupExposureValueInStops(fNumbers: seq<CameraValue<real>>, shutterSpeeds: seq<CameraValue<string>>, nominalFNumber: real, nominalShutterSpeed: string, evs: seq<int>)
    requires IsExactFNumbers(fNumbers) && IsExactShutterSpeeds(shutterSpeeds)
    ensures LookupExposureValue(fNumbers, shutterSpeeds, nominalFNumber, nominalShutterSpeed, evs)
         == ExposureValueSpec(fNumbers, shutterSpeeds, nominalFNumber, nominalShutterSpeed, evs)
  {
    ExactPairInStops(fNumbers, shutterSpeeds, nominalFNumber, nominalShutterSpeed);
    var a := StopOfNominal(fNumbers, nominalFNumber);
    var b := StopOfNominal(shutterSpeeds, nominalShutterSpeed);
    if a.Some? && b.Some? {
      ExposureValueInStops(a.value, b.value, true, evs);
    }
  }

  /** On decorated tables, the light value is the difference of the two stops less the film speed's stops. */
  lemma LookupLightValueInStops(fNumbers: seq<CameraValue<real>>, shutterSpeeds: seq<CameraValue<string>>, nominalFNumber: real, nominalShutterSpeed: string, filmSpeed: FilmSpeed, evs: seq<int>)
    requires IsExactFNumbers(fNumbers) && IsExactShutterSpeeds(shutterSpeeds)
    ensures LookupLightValue(fNumbers, shutterSpeeds, nominalFNumber, nominalShutterSpeed, filmSpeed, evs)
         == LightValueSpec(fNumbers, shutterSpeeds, nominalFNumber, nominalShutterSpeed, filmSpeed.stops, evs)
  {
    ExactPairInStops(fNumbers, shutterSpeeds, nominalFNumber, nominalShutterSpeed);
    var a := StopOfNominal(fNumbers, nominalFNumber);
    var b := StopOfNominal(shutterSpeeds, nominalShutterSpeed);
    if a.Some? && b.Some? {
      LightValueInStops(a.value, b.value, filmSpeed, evs);
    }
  }

  /** The f-number table of a value query: the caller's, or the whole standard table. */
  function ValueFNumbers(config: Config): (r: seq<CameraValue<real>>)
    ensures config.fNumbers.Some? ==> r == config.fNumbers.value
    ensures config.fNumbers.None? ==> r == F_NUMBERS
  {
    config.fNumbers.GetOr(GetFNumbers(None, None))
  }

  /** The shutter-speed table of a value query: the caller's, or the whole standard table. */
  function ValueShutterSpeeds(config: Config): (r: seq<CameraValue<string>>)
    ensures config.shutterSpeeds.Some? ==> r == config.shutterSpeeds.value
    ensures config.shutterSpeeds.None? ==> r == SHUTTER_SPEEDS
  {
    config.shutterSpeeds.GetOr(GetShutterSpeeds(None, None))
  }

  /** `exposureValue` on the tables `fNumberArr` and `shutterSpeedArr`, decorated first. */
  function ExposureValueOfTables(fNumberArr: seq<CameraValue<real>>, shutterSpeedArr: seq<CameraValue<string>>, nominalFNumber: real, nominalShutterSpeed: string, evs: seq<int>): (r: Option<int>)
    ensures r.Some? ==> r.value in evs
    ensures r == ExposureValueSpec(fNumberArr, shutterSpeedArr, nominalFNumber, nominalShutterSpeed, evs)
  {
    var fNumbers := DecorateExactFNumbers(fNumberArr);
    var shutterSpeeds := DecorateExactShutterSpeeds(shutterSpeedArr);
    LookupExposureValueInStops(fNumbers, shutterSpeeds, nominalFNumber, nominalShutterSpeed, evs);
    SameRowsSameValues(fNumbers, fNumberArr, shutterSpeeds, shutterSpeedArr, nominalFNumber, nominalShutterSpeed, 0.0, evs);
    LookupExposureValue(fNumbers, shutterSpeeds, nominalFNumber, nominalShutterSpeed, evs)
  }

  /** `lightValue` on the tables `fNumberArr` and `shutterSpeedArr`, decorated first. */
  function LightValueOfTables(fNumberArr: seq<CameraValue<real>>, shutterSpeedArr: seq<CameraValue<string>>, nominalFNumber: real, nominalShutterSpeed: string, filmSpeed: FilmSpeed, evs: seq<int>): (r: Option<int>)
    ensures r.Some? ==> r.value in evs
    ensures r == LightValueSpec(fNumberArr, shutterSpeedArr, nominalFNumber, nominalShutterSpeed, filmSpeed.stops, evs)
  {
    var fNumbers := DecorateExactFNumbers(fNumberArr);
    var shutterSpeeds := DecorateExactShutterSpeeds(shutterSpeedArr);
    LookupLightValueInStops(fNumbers, shutterSpeeds, nominalFNumber, nominalShutterSpeed, filmSpeed, evs);
    SameRowsSameValues(fNumbers, fNumberArr, shutterSpeeds, shutterSpeedArr, nominalFNumber, nominalShutterSpeed, filmSpeed.stops, evs);
    LookupLightValue(fNumbers, shutterSpeeds, nominalFNumber, nominalShutterSpeed, filmSpeed, evs)
  }

  /**
   * `exposureValue(nominalFNumber, nominalShutterSpeed, config)` with the
   * exposure-value table `evs`: the caller's tables or the whole standard
   * ones, looked up as `ExposureValueOfTables` describes.
   */
  function ExposureValue(nominalFNumber: real, nominalShutterSpeed: string, config: Config, evs: seq<int>): (r: Option<int>)
    ensures r.Some? ==> r.value in evs
    ensures r == ExposureValueSpec(ValueFNumbers(config), ValueShutterSpeeds(config), nominalFNumber, nominalShutterSpeed, evs)
  {
    ExposureValueOfTables(ValueFNumbers(config), ValueShutterSpeeds(config), nominalFNumber, nominalShutterSpeed, evs)
  }

  /**
   * `lightValue(nominalFNumber, nominalShutterSpeed, filmSpeed, config)` with
   * the exposure-value table `evs`: the caller's tables or the whole standard
   * ones, looked up as `LightValueOfTables` describes.
   */
  function LightValue(nominalFNumber: real, nominalShutterSpeed: string, filmSpeed: FilmSpeed, config: Config, evs: seq<int>): (r: Option<int>)
    ensures r.Some? ==> r.value in evs
    ensures r == LightValueSpec(ValueFNumbers(config), ValueShutterSpeeds(config), nominalFNumber, nominalShutterSpeed, filmSpeed.stops, evs)
  {
    LightValueOfTables(ValueFNumbers(config), ValueShutterSpeeds(config), nominalFNumber, nominalShutterSpeed, filmSpeed, evs)
  }

  // ----- The library's own examples -----

  /** The tables bounded to f/16 alone and to 1/250 alone, as a configuration. */
  lemma SingleRowConfig(config: Config, f: real, t: string)
    // Pinned parameters rather than literals only keep the solver from unrolling the tables.
    requires f == 16.0 && t == "1/250"
    requires config == Config(Some(GetFNumbers(Some(f), Some(f))), Some(GetShutterSpeeds(Some(t), Some(t))))
    ensures ConfigFNumbers(config) == [Stop(8, 16.0)] && ConfigShutterSpeeds(config) == [Stop(-8, "1/250")]
  {
    FNumberRangeSingle(f);
    ShutterSpeedRangeSingle(t);
  }

  /** f/16 against 1/250 at ISO 200 and LV 15, by f-number: one setting. */
  lemma ByFNumberExample(f: real, t: string)
    // Pinned parameters rather than literals only keep the solver from unrolling the tables.
    requires f == 16.0 && t == "1/250"
    ensures ByFNumber(15, Iso200, Config(Some(GetFNumbers(Some(f), Some(f))), Some(GetShutterSpeeds(Some(t), Some(t)))))
         == CameraSettings(15, Iso200, [CameraSetting(Some(16.0), Some("1/250"))])
  {
    SingleRowConfig(Config(Some(GetFNumbers(Some(f), Some(f))), Some(GetShutterSpeeds(Some(t), Some(t)))), f, t);
    assert SettingsByFNumber(15, Iso200, [Stop(8, 16.0)], [Stop(-8, "1/250")]) == [CameraSetting(Some(16.0), Some("1/250"))] by {
      SettingsByFNumberInStops(15, Iso200, [Stop(8, 16.0)], [Stop(-8, "1/250")]);
    }
  }

  /** f/16 against 1/250 at ISO 200 and LV 15, by shutter speed: one setting. */
  lemma ByShutterSpeedExample(f: real, t: string)
    // Pinned parameters rather than literals only keep the solver from unrolling the tables.
    requires f == 16.0 && t == "1/250"
    ensures ByShutterSpeed(15, Iso200, Config(Some(GetFNumbers(Some(f), Some(f))), Some(GetShutterSpeeds(Some(t), Some(t)))))
         == CameraSettings(15, Iso200, [CameraSetting(Some(16.0), Some("1/250"))])
  {
    SingleRowConfig(Config(Some(GetFNumbers(Some(f), Some(f))), Some(GetShutterSpeeds(Some(t), Some(t)))), f, t);
    assert SettingsByShutterSpeed(15, Iso200, [Stop(8, 16.0)], [Stop(-8, "1/250")]) == [CameraSetting(Some(16.0), Some("1/250"))] by {
      SettingsByShutterSpeedInStops(15, Iso200, [Stop(8, 16.0)], [Stop(-8, "1/250")]);
    }
  }

  /** The tables bounded to f/16 alone and to one second alone, as a configuration. */
  lemma OneSecondConfig(config: Config, f: real, t: string)
    // Pinned parameters rather than literals only keep the solver from unrolling the tables.
    requires f == 16.0 && t == "1"
    requires config == Config(Some(GetFNumbers(Some(f), Some(f))), Some(GetShutterSpeeds(Some(t), Some(t))))
    ensures ConfigFNumbers(config) == [Stop(8, 16.0)] && ConfigShutterSpeeds(config) == [Stop(0, "1")]
  {
    FNumberRangeSingle(f);
    ShutterSpeedRangeOneSecond(t);
  }

  /** At ISO 200 and LV 15 a one-second exposure needs the f-number at stop 16, which the f/16 table lacks. */
  lemma OneSecondOutOfRange(fNumberArr: seq<CameraValue<real>>, shutterSpeedArr: seq<CameraValue<string>>)
    // Pinned parameters rather than literals only keep the solver from unrolling the tables.
    requires fNumberArr == [Stop(8, 16.0)] && shutterSpeedArr == [Stop(0, "1")]
    ensures SettingsByShutterSpeed(15, Iso200, fNumberArr, shutterSpeedArr) == []
  {
    SettingsByShutterSpeedInStops(15, Iso200, fNumberArr, shutterSpeedArr);
    OneSecondShift(fNumberArr, shutterSpeedArr);
  }

  /** In stops: the one-second row needs the f-number at stop 16. */
  lemma OneSecondShift(fNumberArr: seq<CameraValue<real>>, shutterSpeedArr: seq<CameraValue<string>>)
    // Pinned parameters rather than literals only keep the solver from unrolling the tables.
    requires fNumberArr == [Stop(8, 16.0)] && shutterSpeedArr == [Stop(0, "1")]
    ensures SettingsByShutterSpeedAt(fNumberArr, shutterSpeedArr, 15, Iso200.stops) == []
  {
    assert NominalAtStop(fNumberArr, 16) == None;
  }

  /** f/16 against a one-second exposure at ISO 200 and LV 15: no setting is in range. */
  lemma OutOfRangeExample(f: real, t: string)
    // Pinned parameters rather than literals only keep the solver from unrolling the tables.
    requires f == 16.0 && t == "1"
    ensures ByShutterSpeed(15, Iso200, Config(Some(GetFNumbers(Some(f), Some(f))), Some(GetShutterSpeeds(Some(t), Some(t))))).settings == []
  {
    var config := Config(Some(GetFNumbers(Some(f), Some(f))), Some(GetShutterSpeeds(Some(t), Some(t))));
    OneSecondConfig(config, f, t);
    OneSecondOutOfRange(ConfigFNumbers(config), ConfigShutterSpeeds(config));
  }

  /** f/16 at 1/250 is EV 16 on the whole standard tables. */
  lemma ExposureValueExample(config: Config, f: real, t: string, evs: seq<int>)
    // Pinned parameters rather than literals only keep the solver from unrolling the tables.
    requires config == Config(None, None) && f == 16.0 && t == "1/250"
    requires 16 in evs
    ensures ExposureValue(f, t, config, evs) == Some(16)
  {
    StandardStopsExample(config, f, t);
  }

  /** f/16 at 1/250 is LV 15 at ISO 200 on the whole standard tables. */
  lemma LightValueExample(config: Config, f: real, t: string, evs: seq<int>)
    // Pinned parameters rather than literals only keep the solver from unrolling the tables.
    requires config == Config(None, None) && f == 16.0 && t == "1/250"
    requires 15 in evs
    ensures LightValue(f, t, Iso200, config, evs) == Some(15)
  {
    StandardStopsExample(config, f, t);
  }

  /** f/16 is stop 8 and 1/250 is stop -8 of the standard tables. */
  lemma StandardStopsExample(config: Config, f: real, t: string)
    // Pinned parameters rather than literals only keep the solver from unrolling the tables.
    requires config == Config(None, None) && f == 16.0 && t == "1/250"
    ensures StopOfNominal(ValueFNumbers(config), f) == Some(8)
    ensures StopOfNominal(ValueShutterSpeeds(config), t) == Some(-8)
  {
    assert ValueFNumbers(config) == F_NUMBERS && ValueShutterSpeeds(config) == SHUTTER_SPEEDS;
    assert StopOfNominal(F_NUMBERS, f) == Some(8) by {
      FNumberReferencePoints();
      FNumberNominalsDistinct();
      StopOfListedNominal(F_NUMBERS, 9);
    }
    assert StopOfNominal(SHUTTER_SPEEDS, t) == Some(-8) by {
      ShutterSpeedReferencePoints();
      ShutterSpeedNominalsDistinct();
      StopOfListedNominal(SHUTTER_SPEEDS, 6);
    }
  }
}
