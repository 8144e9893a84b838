/**
 * Reference definitions of the lookups and settings queries, stated on stop
 * numbers alone. The resolvers of the library are proved equal to these.
 */
module StopDomain {
  import opened Wrappers
  import opened Types
  import opened Magnitudes

  /** The nominal value of the first row whose stop is `stop`. */
  function NominalAtStop<N>(table: seq<CameraValue<N>>, stop: int): Option<N> {
    if table == [] then None
    else if table[0].stop == stop then Some(table[0].nominal)
    else NominalAtStop(table[1..], stop)
  }

  /** A nominal value is found at `stop` exactly when some row has that stop, and it is that row's. */
  lemma {:induction false} NominalAtStopFound<N>(table: seq<CameraValue<N>>, stop: int)
    ensures NominalAtStop(table, stop).None? <==> forall i :: 0 <= i < |table| ==> table[i].stop != stop
    ensures NominalAtStop(table, stop).Some? ==> exists i :: 0 <= i < |table| && table[i].stop == stop && table[i].nominal == NominalAtStop(table, stop).value
  {
    if table != [] && table[0].stop != stop {
      NominalAtStopFound(table[1..], stop);
      var r := NominalAtStop(table[1..], stop);
      assert r.Some? ==> exists i :: 0 <= i < |table[1..]| && table[1..][i].stop == stop && table[1..][i].nominal == r.value;
      assert (forall i :: 0 <= i < |table[1..]| ==> table[1..][i].stop != stop) ==> forall i :: 0 <= i < |table| ==> table[i].stop != stop by {
        if forall i :: 0 <= i < |table[1..]| ==> table[1..][i].stop != stop {
          forall i | 0 <= i < |table| ensures table[i].stop != stop {
            if i > 0 { assert table[i] == table[1..][i - 1]; }
          }
        }
      }
    }
  }

  /** The stop of the first row whose nominal value is `v`. */
  function StopOfNominal<N(==)>(table: seq<CameraValue<N>>, v: N): Option<int> {
    if table == [] then None
    else if table[0].nominal == v then Some(table[0].stop)
    else StopOfNominal(table[1..], v)
  }

  /** A stop is found for `v` exactly when `v` is a nominal value of the table, and it is the stop of a row with that value. */
  lemma {:induction false} StopOfNominalFound<N>(table: seq<CameraValue<N>>, v: N)
    ensures StopOfNominal(table, v).None? <==> v !in Nominals(table)
    ensures StopOfNominal(table, v).Some? ==> exists i :: 0 <= i < |table| && table[i].nominal == v && table[i].stop == StopOfNominal(table, v).value
  {
    if table != [] && table[0].nominal != v {
      StopOfNominalFound(table[1..], v);
      var r := StopOfNominal(table[1..], v);
      assert Nominals(table) == [table[0].nominal] + Nominals(table[1..]);
      assert r.Some? ==> exists i :: 0 <= i < |table[1..]| && table[1..][i].nominal == v && table[1..][i].stop == r.value;
    }
  }

  /** With distinct nominal values, a row's nominal value leads back to its own stop. */
  lemma {:induction false} StopOfListedNominal<N>(table: seq<CameraValue<N>>, i: int)
    requires DistinctNominals(table) && 0 <= i < |table|
    ensures StopOfNominal(table, table[i].nominal) == Some(table[i].stop)
  {
    if i > 0 {
      assert table[0].nominal != table[i].nominal;
      assert table[1..][i - 1] == table[i];
      StopOfListedNominal(table[1..], i - 1);
    }
  }

  /** Two tables whose rows agree on stop and nominal value. */
  ghost predicate SameRows<N>(a: seq<CameraValue<N>>, b: seq<CameraValue<N>>)
    decreases |a|
  {
    |a| == |b| && (a == [] || (a[0].stop == b[0].stop && a[0].nominal == b[0].nominal && SameRows(a[1..], b[1..])))
  }

  /** Rows that agree position by position make the same table. */
  lemma {:induction false} SameRowsByIndex<N>(a: seq<CameraValue<N>>, b: seq<CameraValue<N>>)
    requires |a| == |b|
    requires forall i :: 0 <= i < |a| ==> a[i].stop == b[i].stop && a[i].nominal == b[i].nominal
    ensures SameRows(a, b)
  {
    if a != [] {
      assert forall i :: 0 <= i < |a[1..]| ==> a[1..][i] == a[i + 1] && b[1..][i] == b[i + 1];
      SameRowsByIndex(a[1..], b[1..]);
    }
  }

  /** `a` occurs in `b` in order, possibly with gaps. */
  predicate IsSubsequence<T(==)>(a: seq<T>, b: seq<T>)
    decreases |b|
  {
    a == [] || (b != [] && ((a[0] == b[0] && IsSubsequence(a[1..], b[1..])) || IsSubsequence(a, b[1..])))
  }

  /** The f-number of each setting, in order. */
  function FNumbersOf(settings: seq<CameraSetting>): (r: seq<Option<real>>)
    ensures |r| == |settings|
  {
    if settings == [] then [] else [settings[0].fNumber] + FNumbersOf(settings[1..])
  }

  /** The shutter speed of each setting, in order. */
  function ShutterSpeedsOf(settings: seq<CameraSetting>): (r: seq<Option<string>>)
    ensures |r| == |settings|
  {
    if settings == [] then [] else [settings[0].shutterSpeed] + ShutterSpeedsOf(settings[1..])
  }

  /** The nominal value of each row, as a present setting value. */
  function PresentNominals<N>(table: seq<CameraValue<N>>): (r: seq<Option<N>>)
    ensures |r| == |table|
  {
    if table == [] then [] else [Some(table[0].nominal)] + PresentNominals(table[1..])
  }

  /**
   * Settings driven by f-number: every f-number row for which the shutter-speed
   * table has the row `shift` stops below it, paired with that row, in
   * f-number order.
   */
  function SettingsByFNumberSpec(fNumbers: seq<CameraValue<real>>, shutterSpeeds: seq<CameraValue<string>>, shift: int): (r: seq<CameraSetting>)
    ensures |r| <= |fNumbers|
    ensures forall i :: 0 <= i < |r| ==> r[i].fNumber.Some? && r[i].shutterSpeed.Some?
  {
    if fNumbers == [] then []
    else
      var found := NominalAtStop(shutterSpeeds, fNumbers[0].stop - shift);
      var rest := SettingsByFNumberSpec(fNumbers[1..], shutterSpeeds, shift);
      if found.Some? then [CameraSetting(Some(fNumbers[0].nominal), found)] + rest else rest
  }

  /**
   * Settings driven by shutter speed: every shutter-speed row for which the
   * f-number table has the row `shift` stops above it, paired with that row,
   * in shutter-speed order.
   */
  function SettingsByShutterSpeedSpec(fNumbers: seq<CameraValue<real>>, shutterSpeeds: seq<CameraValue<string>>, shift: int): (r: seq<CameraSetting>)
    ensures |r| <= |shutterSpeeds|
    ensures forall i :: 0 <= i < |r| ==> r[i].fNumber.Some? && r[i].shutterSpeed.Some?
  {
    if shutterSpeeds == [] then []
    else
      var found := NominalAtStop(fNumbers, shutterSpeeds[0].stop + shift);
      var rest := SettingsByShutterSpeedSpec(fNumbers, shutterSpeeds[1..], shift);
      if found.Some? then [CameraSetting(found, Some(shutterSpeeds[0].nominal))] + rest else rest
  }

  /**
   * The settings driven by f-number for the light value `lightValue` at a
   * film speed `stops` stops above ISO 100: shifted by their sum when `stops`
   * is whole, and none otherwise.
   */
  function SettingsByFNumberAt(fNumbers: seq<CameraValue<real>>, shutterSpeeds: seq<CameraValue<string>>, lightValue: int, stops: real): seq<CameraSetting> {
    if IsWhole(stops) then SettingsByFNumberSpec(fNumbers, shutterSpeeds, lightValue + stops.Floor) else []
  }

  /** The settings driven by shutter speed, shifted the same way. */
  function SettingsByShutterSpeedAt(fNumbers: seq<CameraValue<real>>, shutterSpeeds: seq<CameraValue<string>>, lightValue: int, stops: real): seq<CameraSetting> {
    if IsWhole(stops) then SettingsByShutterSpeedSpec(fNumbers, shutterSpeeds, lightValue + stops.Floor) else []
  }

  /** The settings driven by f-number keep the f-number table's order. */
  lemma {:induction false} SettingsByFNumberOrder(fNumbers: seq<CameraValue<real>>, shutterSpeeds: seq<CameraValue<string>>, shift: int)
    ensures IsSubsequence(FNumbersOf(SettingsByFNumberSpec(fNumbers, shutterSpeeds, shift)), PresentNominals(fNumbers))
  {
    if fNumbers != [] {
      var found := NominalAtStop(shutterSpeeds, fNumbers[0].stop - shift);
      var rest := SettingsByFNumberSpec(fNumbers[1..], shutterSpeeds, shift);
      SettingsByFNumberOrder(fNumbers[1..], shutterSpeeds, shift);
      assert PresentNominals(fNumbers)[1..] == PresentNominals(fNumbers[1..]);
      if found.Some? {
        var r := [CameraSetting(Some(fNumbers[0].nominal), found)] + rest;
        assert FNumbersOf(r)[1..] == FNumbersOf(rest);
      }
    }
  }

  /** The settings driven by shutter speed keep the shutter-speed table's order. */
  lemma {:induction false} SettingsByShutterSpeedOrder(fNumbers: seq<CameraValue<real>>, shutterSpeeds: seq<CameraValue<string>>, shift: int)
    ensures IsSubsequence(ShutterSpeedsOf(SettingsByShutterSpeedSpec(fNumbers, shutterSpeeds, shift)), PresentNominals(shutterSpeeds))
  {
    if shutterSpeeds != [] {
      var found := NominalAtStop(fNumbers, shutterSpeeds[0].stop + shift);
      var rest := SettingsByShutterSpeedSpec(fNumbers, shutterSpeeds[1..], shift);
      SettingsByShutterSpeedOrder(fNumbers, shutterSpeeds[1..], shift);
      assert PresentNominals(shutterSpeeds)[1..] == PresentNominals(shutterSpeeds[1..]);
      if found.Some? {
        var r := [CameraSetting(found, Some(shutterSpeeds[0].nominal))] + rest;
        assert ShutterSpeedsOf(r)[1..] == ShutterSpeedsOf(rest);
      }
    }
  }

  /** Every f-number row with a counterpart yields its setting. */
  lemma {:induction false} SettingsByFNumberComplete(fNumbers: seq<CameraValue<real>>, shutterSpeeds: seq<CameraValue<string>>, shift: int, i: int)
    requires 0 <= i < |fNumbers|
    requires NominalAtStop(shutterSpeeds, fNumbers[i].stop - shift).Some?
    ensures CameraSetting(Some(fNumbers[i].nominal), NominalAtStop(shutterSpeeds, fNumbers[i].stop - shift))
         in SettingsByFNumberSpec(fNumbers, shutterSpeeds, shift)
  {
    if i > 0 {
      assert fNumbers[1..][i - 1] == fNumbers[i];
      SettingsByFNumberComplete(fNumbers[1..], shutterSpeeds, shift, i - 1);
    }
  }

  /** Every shutter-speed row with a counterpart yields its setting. */
  lemma {:induction false} SettingsByShutterSpeedComplete(fNumbers: seq<CameraValue<real>>, shutterSpeeds: seq<CameraValue<string>>, shift: int, i: int)
    requires 0 <= i < |shutterSpeeds|
    requires NominalAtStop(fNumbers, shutterSpeeds[i].stop + shift).Some?
    ensures CameraSetting(NominalAtStop(fNumbers, shutterSpeeds[i].stop + shift), Some(shutterSpeeds[i].nominal))
         in SettingsByShutterSpeedSpec(fNumbers, shutterSpeeds, shift)
  {
    if i > 0 {
      assert shutterSpeeds[1..][i - 1] == shutterSpeeds[i];
      SettingsByShutterSpeedComplete(fNumbers, shutterSpeeds[1..], shift, i - 1);
    }
  }

  /** The reference lookups read only stops and nominal values: by stop... */
  lemma {:induction false} SameRowsSameNominalAtStop<N>(a: seq<CameraValue<N>>, b: seq<CameraValue<N>>, stop: int)
    requires SameRows(a, b)
    ensures NominalAtStop(a, stop) == NominalAtStop(b, stop)
  {
    if a != [] {
      SameRowsSameNominalAtStop(a[1..], b[1..], stop);
    }
  }

  /** ...and by nominal value. */
  lemma {:induction false} SameRowsSameStopOfNominal<N>(a: seq<CameraValue<N>>, b: seq<CameraValue<N>>, v: N)
    requires SameRows(a, b)
    ensures StopOfNominal(a, v) == StopOfNominal(b, v)
  {
    if a != [] {
      SameRowsSameStopOfNominal(a[1..], b[1..], v);
    }
  }

  /** Tables with the same first row and the same lookup results give the same settings by f-number. */
  lemma SettingsByFNumberCongruent(fs: seq<CameraValue<real>>, fs': seq<CameraValue<real>>, ss: seq<CameraValue<string>>, ss': seq<CameraValue<string>>, shift: int)
    requires fs != [] && fs' != [] && fs[0].stop == fs'[0].stop && fs[0].nominal == fs'[0].nominal
    requires NominalAtStop(ss, fs[0].stop - shift) == NominalAtStop(ss', fs[0].stop - shift)
    requires SettingsByFNumberSpec(fs[1..], ss, shift) == SettingsByFNumberSpec(fs'[1..], ss', shift)
    ensures SettingsByFNumberSpec(fs, ss, shift) == SettingsByFNumberSpec(fs', ss', shift)
  {
  }

  /** So do the settings queries driven by f-number... */
  lemma {:induction false} SameRowsSameSettingsByFNumber(fs: seq<CameraValue<real>>, fs': seq<CameraValue<real>>, ss: seq<CameraValue<string>>, ss': seq<CameraValue<string>>, shift: int)
    requires SameRows(fs, fs') && SameRows(ss, ss')
    ensures SettingsByFNumberSpec(fs, ss, shift) == SettingsByFNumberSpec(fs', ss', shift)
  {
    if fs != [] {
      SameRowsSameNominalAtStop(ss, ss', fs[0].stop - shift);
      SameRowsSameSettingsByFNumber(fs[1..], fs'[1..], ss, ss', shift);
      SettingsByFNumberCongruent(fs, fs', ss, ss', shift);
    }
  }

  /** Tables with the same first row and the same lookup results give the same settings by shutter speed. */
  lemma SettingsByShutterSpeedCongruent(fs: seq<CameraValue<real>>, fs': seq<CameraValue<real>>, ss: seq<CameraValue<string>>, ss': seq<CameraValue<string>>, shift: int)
    requires ss != [] && ss' != [] && ss[0].stop == ss'[0].stop && ss[0].nominal == ss'[0].nominal
    requires NominalAtStop(fs, ss[0].stop + shift) == NominalAtStop(fs', ss[0].stop + shift)
    requires SettingsByShutterSpeedSpec(fs, ss[1..], shift) == SettingsByShutterSpeedSpec(fs', ss'[1..], shift)
    ensures SettingsByShutterSpeedSpec(fs, ss, shift) == SettingsByShutterSpeedSpec(fs', ss', shift)
  {
  }

  /** ...and by shutter speed. */
  lemma {:induction false} SameRowsSameSettingsByShutterSpeed(fs: seq<CameraValue<real>>, fs': seq<CameraValue<real>>, ss: seq<CameraValue<string>>, ss': seq<CameraValue<string>>, shift: int)
    requires SameRows(fs, fs') && SameRows(ss, ss')
    ensures SettingsByShutterSpeedSpec(fs, ss, shift) == SettingsByShutterSpeedSpec(fs', ss', shift)
  {
    if ss != [] {
      SameRowsSameNominalAtStop(fs, fs', ss[0].stop + shift);
      SameRowsSameSettingsByShutterSpeed(fs, fs', ss[1..], ss'[1..], shift);
      SettingsByShutterSpeedCongruent(fs, fs', ss, ss', shift);
    }
  }

  /** The shifted settings by f-number, one f-number row at a time. */
  lemma SettingsByFNumberAtCons(fs: seq<CameraValue<real>>, ss: seq<CameraValue<string>>, lightValue: int, stops: real)
    requires fs != []
    ensures var found := if IsWhole(stops) then NominalAtStop(ss, fs[0].stop - lightValue - stops.Floor) else None;
            SettingsByFNumberAt(fs, ss, lightValue, stops)
            == (if found.Some? then [CameraSetting(Some(fs[0].nominal), found)] else []) + SettingsByFNumberAt(fs[1..], ss, lightValue, stops)
  {
  }

  /** The shifted settings by shutter speed, one shutter-speed row at a time. */
  lemma SettingsByShutterSpeedAtCons(fs: seq<CameraValue<real>>, ss: seq<CameraValue<string>>, lightValue: int, stops: real)
    requires ss != []
    ensures var found := if IsWhole(stops) then NominalAtStop(fs, ss[0].stop + lightValue + stops.Floor) else None;
            SettingsByShutterSpeedAt(fs, ss, lightValue, stops)
            == (if found.Some? then [CameraSetting(found, Some(ss[0].nominal))] else []) + SettingsByShutterSpeedAt(fs, ss[1..], lightValue, stops)
  {
  }

  /** The shifted settings queries read only stops and nominal values too. */
  lemma SameRowsSameSettingsAt(fs: seq<CameraValue<real>>, fs': seq<CameraValue<real>>, ss: seq<CameraValue<string>>, ss': seq<CameraValue<string>>, lightValue: int, stops: real)
    requires SameRows(fs, fs') && SameRows(ss, ss')
    ensures SettingsByFNumberAt(fs, ss, lightValue, stops) == SettingsByFNumberAt(fs', ss', lightValue, stops)
    ensures SettingsByShutterSpeedAt(fs, ss, lightValue, stops) == SettingsByShutterSpeedAt(fs', ss', lightValue, stops)
  {
    if IsWhole(stops) {
      SameRowsSameSettingsByFNumber(fs, fs', ss, ss', lightValue + stops.Floor);
      SameRowsSameSettingsByShutterSpeed(fs, fs', ss, ss', lightValue + stops.Floor);
    }
  }

  /** The shifted settings keep the order of the table that drives them. */
  lemma SettingsAtOrder(fs: seq<CameraValue<real>>, ss: seq<CameraValue<string>>, lightValue: int, stops: real)
    ensures IsSubsequence(FNumbersOf(SettingsByFNumberAt(fs, ss, lightValue, stops)), PresentNominals(fs))
    ensures IsSubsequence(ShutterSpeedsOf(SettingsByShutterSpeedAt(fs, ss, lightValue, stops)), PresentNominals(ss))
  {
    if IsWhole(stops) {
      SettingsByFNumberOrder(fs, ss, lightValue + stops.Floor);
      SettingsByShutterSpeedOrder(fs, ss, lightValue + stops.Floor);
    } else {
      assert FNumbersOf([]) == [] && ShutterSpeedsOf([]) == [];
    }
  }

  /**
   * The exposure value of two nominal values: the difference of their stops,
   * when both are in their tables and the difference is a listed EV.
   */
  function ExposureValueSpec(fNumbers: seq<CameraValue<real>>, shutterSpeeds: seq<CameraValue<string>>, nominalFNumber: real, nominalShutterSpeed: string, evs: seq<int>): Option<int>
  {
    ExposureValueOfStops(StopOfNominal(fNumbers, nominalFNumber), StopOfNominal(shutterSpeeds, nominalShutterSpeed), evs)
  }

  /** The exposure value of the stops `a` and `b`, when both are known and their difference is a listed EV. */
  function ExposureValueOfStops(a: Option<int>, b: Option<int>, evs: seq<int>): Option<int> {
    if a.Some? && b.Some? && a.value - b.value in evs then Some(a.value - b.value) else None
  }

  /**
   * The light value of two nominal values at a film speed `stops` above ISO 100:
   * the exposure value less `stops`, when `stops` is whole and the result is a listed EV.
   */
  function LightValueSpec(fNumbers: seq<CameraValue<real>>, shutterSpeeds: seq<CameraValue<string>>, nominalFNumber: real, nominalShutterSpeed: string, stops: real, evs: seq<int>): Option<int>
  {
    LightValueOfStops(StopOfNominal(fNumbers, nominalFNumber), StopOfNominal(shutterSpeeds, nominalShutterSpeed), stops, evs)
  }

  /** The light value of the stops `a` and `b` at a film speed `stops` above ISO 100, when whole and listed. */
  function LightValueOfStops(a: Option<int>, b: Option<int>, stops: real, evs: seq<int>): Option<int> {
    if a.Some? && b.Some? && IsWhole(stops) && a.value - b.value - stops.Floor in evs
    then Some(a.value - b.value - stops.Floor) else None
  }

  /** Tables that agree on stops and nominal values give the same exposure and light values. */
  lemma SameRowsSameValues(fs: seq<CameraValue<real>>, fs': seq<CameraValue<real>>, ss: seq<CameraValue<string>>, ss': seq<CameraValue<string>>, nominalFNumber: real, nominalShutterSpeed: string, stops: real, evs: seq<int>)
    requires SameRows(fs, fs') && SameRows(ss, ss')
    ensures ExposureValueSpec(fs, ss, nominalFNumber, nominalShutterSpeed, evs) == ExposureValueSpec(fs', ss', nominalFNumber, nominalShutterSpeed, evs)
    ensures LightValueSpec(fs, ss, nominalFNumber, nominalShutterSpeed, stops, evs) == LightValueSpec(fs', ss', nominalFNumber, nominalShutterSpeed, stops, evs)
  {
    SameRowsSameStopOfNominal(fs, fs', nominalFNumber);
    SameRowsSameStopOfNominal(ss, ss', nominalShutterSpeed);
  }
}
