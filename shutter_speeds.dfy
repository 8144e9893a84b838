/** The standard shutter-speed table: one row per full stop, stop 0 at 1 second. */
module ShutterSpeeds {
  import opened Wrappers
  import opened Types

  const SHUTTER_SPEEDS: seq<CameraValue<string>> := [
    Stop(-14, "1/16000"),
    Stop(-13, "1/8000"),
    Stop(-12, "1/4000"),
    Stop(-11, "1/2000"),
    Stop(-10, "1/1000"),
    Stop(-9, "1/500"),
    Stop(-8, "1/250"),
    Stop(-7, "1/125"),
    Stop(-6, "1/60"),
    Stop(-5, "1/30"),
    Stop(-4, "1/15"),
    Stop(-3, "1/8"),
    Stop(-2, "1/4"),
    Stop(-1, "1/2"),
    Stop(0, "1"),
    Stop(1, "2"),
    Stop(2, "4"),
    Stop(3, "8"),
    Stop(4, "15"),
    Stop(5, "30"),
    Stop(6, "64")
  ]

  /** Twenty-one plain rows, stops -14 through 6, each one stop above the previous. */
  lemma ShutterSpeedStops()
    ensures |SHUTTER_SPEEDS| == 21
    ensures forall i :: 0 <= i < |SHUTTER_SPEEDS| ==> SHUTTER_SPEEDS[i].Stop? && SHUTTER_SPEEDS[i].stop == i - 14
  {
  }

  /** Stop 0 is one second; 1/1000 is stop -10 and 1/250 is stop -8. */
  lemma ShutterSpeedReferencePoints()
    ensures SHUTTER_SPEEDS[14] == Stop(0, "1")
    ensures SHUTTER_SPEEDS[4] == Stop(-10, "1/1000")
    ensures SHUTTER_SPEEDS[6] == Stop(-8, "1/250")
  {
  }

  /**
   * The length, last character and third (or first) character of a nominal
   * string packed into one number; it tells the table's nominal strings apart.
   * This and RowOfFingerprint exist only as a proof device: comparing the 21
   * strings pairwise directly is too costly for the solver.
   */
  function Fingerprint(s: string): int {
    if s == [] then 0
    else |s| * 0x1_0000_0000 + (s[|s| - 1] as int) * 0x11_0000 + (s[if |s| > 2 then 2 else 0] as int)
  }

  /**
   * The row whose nominal string has fingerprint `k`, or -1; the length of the
   * string is looked at first. The constants are the fingerprints of rows 0 to 20.
   */
  function RowOfFingerprint(k: int): int {
    var length := k / 0x1_0000_0000;
    if length == 7 then if k == 30118248497 then 0 else -1
    else if length == 6 then if k == 25823281208 then 1 else if k == 25823281204 then 2 else if k == 25823281202 then 3 else if k == 25823281201 then 4 else -1
    else if length == 5 then if k == 21528313909 then 5 else if k == 21528313906 then 6 else if k == 21533884465 then 7 else -1
    else if length == 4 then if k == 17233346614 then 8 else if k == 17233346611 then 9 else if k == 17238917169 then 10 else -1
    else if length == 3 then if k == 12947292216 then 11 else if k == 12942835764 then 12 else if k == 12940607538 then 13 else -1
    else if length == 2 then if k == 8648982577 then 18 else if k == 8643412019 then 19 else if k == 8647868470 then 20 else -1
    else if length == 1 then if k == 4349558833 then 14 else if k == 4350672946 then 15 else if k == 4352901172 then 16 else if k == 4357357624 then 17 else -1
    else -1
  }

  /** The rows from `lo` up to `hi` are recognised by their fingerprints. */
  ghost predicate IdentifiedBetween(lo: int, hi: int) {
    forall i :: lo <= i < hi && 0 <= i < |SHUTTER_SPEEDS| ==> RowOfFingerprint(Fingerprint(SHUTTER_SPEEDS[i].nominal)) == i
  }

  /** The shortest exposures, 1/16000 to 1/250, are recognised by their fingerprints. */
  lemma FastRowsIdentified()
    ensures IdentifiedBetween(0, 7)
  {
  }

  /** The middle exposures, 1/125 to 1/2, are recognised by their fingerprints. */
  lemma MiddleRowsIdentified()
    ensures IdentifiedBetween(7, 14)
  {
  }

  /** The longest exposures, 1 to 64 seconds, are recognised by their fingerprints. */
  lemma SlowRowsIdentified()
    ensures IdentifiedBetween(14, 21)
  {
  }

  /** Each row's nominal string is recognised by its fingerprint. */
  lemma FingerprintsIdentifyRows()
    ensures forall i :: 0 <= i < |SHUTTER_SPEEDS| ==> RowOfFingerprint(Fingerprint(SHUTTER_SPEEDS[i].nominal)) == i
  {
    FastRowsIdentified();
    MiddleRowsIdentified();
    SlowRowsIdentified();
  }

  /** No nominal string occurs twice, so a nominal value names at most one row. */
  lemma {:induction false} ShutterSpeedNominalsDistinct()
    ensures DistinctNominals(SHUTTER_SPEEDS)
  {
    FingerprintsIdentifyRows();
  }
}
