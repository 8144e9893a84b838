/**
 * The tables of the legacy JavaScript build. A row is a positional array:
 * `[stop, nominal]` in the constant tables, `[stop, nominal, exact]` once the
 * exact value is appended. The constant tables hold the same rows as the
 * TypeScript ones.
 */
module LibData {
  import opened Wrappers
  import opened Magnitudes
  import opened Types
  import opened JsArray
  import H = Helpers
  import opened Equations
  import opened FNumbers
  import opened ShutterSpeeds
  import S = Sunny16

  /** `[stop, nominal]` */
  type Pair<N> = (int, N)

  /** `[stop, nominal, exact]` */
  type Entry<N> = (int, N, Magnitude)

  /** A table row as a positional pair. */
  function AsPair<N>(o: CameraValue<N>): Pair<N> {
    (o.stop, o.nominal)
  }

  /** The f-number constants the legacy build loads: the f-number table as pairs. */
  const LIB_F_NUMBERS: seq<Pair<real>> := Map(F_NUMBERS, AsPair)

  /** The shutter-speed constants the legacy build loads: the shutter-speed table as pairs. */
  const LIB_SHUTTER_SPEEDS: seq<Pair<string>> := Map(SHUTTER_SPEEDS, AsPair)

  /** A positional row read as the record the TypeScript build uses. */
  function AsRow<N>(e: Entry<N>): CameraValue<N> {
    ExactStop(e.0, e.1, e.2)
  }

  /** A table of positional rows read as records. */
  function Rows<N>(t: seq<Entry<N>>): (r: seq<CameraValue<N>>)
    ensures |r| == |t|
    ensures forall i :: 0 <= i < |t| ==> r[i] == ExactStop(t[i].0, t[i].1, t[i].2)
  {
    Map(t, AsRow)
  }

  /** `nominalSelector(val)` on a constant row: position 1 is `val`. */
  function NominalSelector<N(==,!new)>(val: N): (sel: Pair<N> -> bool)
    ensures forall arr :: sel(arr) <==> arr.1 == val
  {
    (arr: Pair<N>) => arr.1 == val
  }

  /** `nominalSelector(val)` on a row with its exact value: position 1 is `val`. */
  function EntryNominalSelector<N(==,!new)>(val: N): (sel: Entry<N> -> bool)
    ensures forall arr :: sel(arr) <==> arr.1 == val
  {
    (arr: Entry<N>) => arr.1 == val
  }

  /**
   * `exactSelector(val)`: position 2 matches `val`. The source compares within
   * 1e-5; on exact magnitudes the match is equality, as in the TypeScript build.
   */
  function ExactSelector<N(!new)>(val: Magnitude): (sel: Entry<N> -> bool)
    ensures forall arr :: sel(arr) <==> arr.2 == val
  {
    (arr: Entry<N>) => arr.2 == val
  }

  /**
   * `clip(collection, min, max)`: `None` stands for a collection that is not
   * an array, which clips to nothing. On an array it is the TypeScript `clip`
   * with both predicates given.
   */
  function Clip<T>(collection: Option<seq<T>>, min: T -> bool, max: T -> bool): (r: seq<T>)
    ensures collection.None? ==> r == []
    ensures collection.Some? ==> r == H.Clip(collection.value, Some(min), Some(max))
  {
    if collection.None? then []
    else
      var arr := collection.value;
      var length := |arr|;
      var minI := FindIndex(arr, min);
      var maxI := FindIndex(arr, max);
      Slice(arr, H.WithDefault(minI, 0), H.IncrementIfNotLast(H.WithDefault(maxI, length), length))
  }

  /** `setBounds(data, min, max)`: `data` clipped between the rows whose nominal values are `min` and `max`. */
  function SetBounds<N(==,!new)>(data: seq<Pair<N>>, min: N, max: N): (r: seq<Pair<N>>)
    ensures |r| <= |data|
  {
    Clip(Some(data), NominalSelector(min), NominalSelector(max))
  }

  /** `exactFNumber(fNumber)` = sqrt(2) ** stop */
  function ExactFNumber(fNumber: Pair<real>): (m: Magnitude)
    ensures m == CalcExactFNumber(fNumber.0)
  {
    Pow(SqrtTwo, fNumber.0)
  }

  /** `exactShutterSpeed(shutterSpeed)` = 2 ** stop */
  function ExactShutterSpeed(shutterSpeed: Pair<string>): (m: Magnitude)
    ensures m == CalcExactShutterSpeed(shutterSpeed.0)
  {
    Pow(Two, shutterSpeed.0)
  }

  /** `[...fNumber, exactFNumber(fNumber)]` */
  function WithExactFNumber(fNumber: Pair<real>): (r: Entry<real>)
    ensures r.0 == fNumber.0 && r.1 == fNumber.1
    ensures r.2 == CalcExactFNumber(fNumber.0)
  {
    (fNumber.0, fNumber.1, ExactFNumber(fNumber))
  }

  /** `[...shutterSpeed, exactShutterSpeed(shutterSpeed)]` */
  function WithExactShutterSpeed(shutterSpeed: Pair<string>): (r: Entry<string>)
    ensures r.0 == shutterSpeed.0 && r.1 == shutterSpeed.1
    ensures r.2 == CalcExactShutterSpeed(shutterSpeed.0)
  {
    (shutterSpeed.0, shutterSpeed.1, ExactShutterSpeed(shutterSpeed))
  }

  /** Every f-number row carries the exact value of its stop. */
  ghost predicate IsExactFNumbers(t: seq<Entry<real>>) {
    forall i :: 0 <= i < |t| ==> t[i].2 == CalcExactFNumber(t[i].0)
  }

  /** Every shutter-speed row carries the exact value of its stop. */
  ghost predicate IsExactShutterSpeeds(t: seq<Entry<string>>) {
    forall i :: 0 <= i < |t| ==> t[i].2 == CalcExactShutterSpeed(t[i].0)
  }

  /** `getFNumbers(min = 2, max = 16)`: the bounded f-number constants with their exact values appended. */
  function GetFNumbers(min: Option<real>, max: Option<real>): (r: seq<Entry<real>>)
    ensures |r| <= |F_NUMBERS|
    ensures IsExactFNumbers(r)
  {
    Map(SetBounds(LIB_F_NUMBERS, min.GetOr(2.0), max.GetOr(16.0)), WithExactFNumber)
  }

  /** `getShutterSpeeds(min = '1/1000', max = '1')`: the bounded shutter-speed constants with their exact values appended. */
  function GetShutterSpeeds(min: Option<string>, max: Option<string>): (r: seq<Entry<string>>)
    ensures |r| <= |SHUTTER_SPEEDS|
    ensures IsExactShutterSpeeds(r)
  {
    Map(SetBounds(LIB_SHUTTER_SPEEDS, min.GetOr("1/1000"), max.GetOr("1")), WithExactShutterSpeed)
  }

  /** A positional table is exact exactly when its records are. */
  lemma ExactRows(fNumbers: seq<Entry<real>>, shutterSpeeds: seq<Entry<string>>)
    ensures IsExactFNumbers(fNumbers) <==> S.IsExactFNumbers(Rows(fNumbers))
    ensures IsExactShutterSpeeds(shutterSpeeds) <==> S.IsExactShutterSpeeds(Rows(shutterSpeeds))
  {
  }

  /**
   * Bounding a table of pairs and appending exact values gives, row by row,
   * the decorated records of the same table bounded the TypeScript way.
   */
  lemma BoundedFNumbersAgree(table: seq<CameraValue<real>>, min: real, max: real)
    ensures Rows(Map(SetBounds(Map(table, AsPair), min, max), WithExactFNumber))
         == S.DecorateExactFNumbers(S.SetBounds(table, Some(min), Some(max)))
  {
    H.ClipMap(table, AsPair, NominalSelector(min), NominalSelector(max), H.NominalSelector(min), H.NominalSelector(max));
    var clipped := S.SetBounds(table, Some(min), Some(max));
    assert SetBounds(Map(table, AsPair), min, max) == Map(clipped, AsPair);
  }

  /** The shutter-speed counterpart of `BoundedFNumbersAgree`. */
  lemma BoundedShutterSpeedsAgree(table: seq<CameraValue<string>>, min: string, max: string)
    ensures Rows(Map(SetBounds(Map(table, AsPair), min, max), WithExactShutterSpeed))
         == S.DecorateExactShutterSpeeds(S.SetBounds(table, Some(min), Some(max)))
  {
    H.ClipMap(table, AsPair, NominalSelector(min), NominalSelector(max), H.NominalSelector(min), H.NominalSelector(max));
    var clipped := S.SetBounds(table, Some(min), Some(max));
    assert SetBounds(Map(table, AsPair), min, max) == Map(clipped, AsPair);
  }

  /**
   * The legacy f-numbers are, read as records, the TypeScript f-numbers
   * between the same bounds, decorated; the defaults are the same f/2 to f/16.
   */
  lemma GetFNumbersAgree(min: Option<real>, max: Option<real>)
    ensures Rows(GetFNumbers(min, max))
         == S.DecorateExactFNumbers(S.GetFNumbers(Some(min.GetOr(2.0)), Some(max.GetOr(16.0))))
  {
    BoundedFNumbersAgree(F_NUMBERS, min.GetOr(2.0), max.GetOr(16.0));
  }

  /**
   * The legacy shutter speeds are, read as records, the TypeScript shutter
   * speeds between the same bounds, decorated; the defaults are the same
   * 1/1000 to 1 second.
   */
  lemma GetShutterSpeedsAgree(min: Option<string>, max: Option<string>)
    ensures Rows(GetShutterSpeeds(min, max))
         == S.DecorateExactShutterSpeeds(S.GetShutterSpeeds(Some(min.GetOr("1/1000")), Some(max.GetOr("1"))))
  {
    BoundedShutterSpeedsAgree(SHUTTER_SPEEDS, min.GetOr("1/1000"), max.GetOr("1"));
  }
}
