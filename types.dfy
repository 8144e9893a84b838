/** The records of the library: stop-table rows and camera settings. */
module Types {
  import opened Wrappers
  import opened Magnitudes

  /**
   * A row of an f-number table (`N` = real) or a shutter-speed table
   * (`N` = string). `Stop` is a row as the standard tables hold it;
   * `ExactStop` is the same row decorated with its exact magnitude.
   * The two constructors mirror the union `anyCameraValue | anyExactCameraValue`.
   */
  datatype CameraValue<N> =
    | Stop(stop: int, nominal: N)
    | ExactStop(stop: int, nominal: N, exact: Magnitude)

  /** One aperture / shutter-speed pair; `None` is the source's `null`. */
  datatype CameraSetting = CameraSetting(fNumber: Option<real>, shutterSpeed: Option<string>)

  /**
   * The result of a settings query: the driving EV or LV and the film speed,
   * echoed, and the settings found.
   */
  datatype CameraSettings = CameraSettings(drivingValue: int, filmSpeed: FilmSpeed, settings: seq<CameraSetting>)

  /** The two keys `notNullSelector` is called with. */
  datatype SettingField = FNumberField | ShutterSpeedField

  /** The optional table subsets a caller may pass in place of the defaults. */
  datatype Config = Config(fNumbers: Option<seq<CameraValue<real>>>, shutterSpeeds: Option<seq<CameraValue<string>>>)

  /** The nominal values of a table, in table order. */
  function Nominals<N>(table: seq<CameraValue<N>>): (r: seq<N>)
    ensures |r| == |table|
    ensures forall i :: 0 <= i < |table| ==> r[i] == table[i].nominal
  {
    if table == [] then [] else [table[0].nominal] + Nominals(table[1..])
  }

  /** No nominal value occurs twice in `table`. */
  ghost predicate DistinctNominals<N>(table: seq<CameraValue<N>>) {
    forall i, j :: 0 <= i < j < |table| ==> table[i].nominal != table[j].nominal
  }
}
