/** The standard f-number table: one row per full stop, stop 0 at f/1. */
module FNumbers {
  import opened Wrappers
  import opened Types

  const F_NUMBERS: seq<CameraValue<real>> := [
    Stop(-1, 0.7),
    Stop(0, 1.0),
    Stop(1, 1.4),
    Stop(2, 2.0),
    Stop(3, 2.8),
    Stop(4, 4.0),
    Stop(5, 5.6),
    Stop(6, 8.0),
    Stop(7, 11.0),
    Stop(8, 16.0),
    Stop(9, 22.0),
    Stop(10, 32.0),
    Stop(11, 45.0),
    Stop(12, 64.0),
    Stop(13, 90.0),
    Stop(14, 128.0),
    Stop(15, 180.0),
    Stop(16, 256.0),
    Stop(17, 360.0),
    Stop(18, 520.0)
  ]

  /** Twenty plain rows, stops -1 through 18, each one stop above the previous. */
  lemma FNumberStops()
    ensures |F_NUMBERS| == 20
    ensures forall i :: 0 <= i < |F_NUMBERS| ==> F_NUMBERS[i].Stop? && F_NUMBERS[i].stop == i - 1
  {
  }

  /** Stop 0 is f/1; f/2 is stop 2 and f/16 is stop 8. */
  lemma FNumberReferencePoints()
    ensures F_NUMBERS[1] == Stop(0, 1.0)
    ensures F_NUMBERS[3] == Stop(2, 2.0)
    ensures F_NUMBERS[9] == Stop(8, 16.0)
  {
  }

  /** The nominal values increase strictly along the table. */
  lemma FNumberNominalsIncrease()
    ensures forall i, j :: 0 <= i < j < |F_NUMBERS| ==> F_NUMBERS[i].nominal < F_NUMBERS[j].nominal
  {
    forall i, j | 0 <= i < j < |F_NUMBERS|
      ensures F_NUMBERS[i].nominal < F_NUMBERS[j].nominal
    {
      var k := i;
      while k < j
        invariant i <= k <= j
        invariant F_NUMBERS[i].nominal <= F_NUMBERS[k].nominal
        invariant k > i ==> F_NUMBERS[i].nominal < F_NUMBERS[k].nominal
      {
        k := k + 1;
      }
    }
  }

  /** So a nominal value names at most one row. */
  lemma FNumberNominalsDistinct()
    ensures DistinctNominals(F_NUMBERS)
  {
    FNumberNominalsIncrease();
  }
}
