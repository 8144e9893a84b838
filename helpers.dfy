/** The generic helpers of the library: the range clipper and the find selectors. */
module Helpers {
  import opened Wrappers
  import opened Magnitudes
  import opened JsArray
  import opened Types

  /** The tolerance `compareFloats` uses by default. */
  const EPSILON: real := 0.0000001

  /** `withDefault`: -1 (not found) becomes `val`. */
  function WithDefault(i: int, val: int): (r: int)
    ensures i == -1 ==> r == val
    ensures i != -1 ==> r == i
  {
    if i != -1 then i else val
  }

  /** `incrementIfNotLast`: one past `i`, but never past the end. */
  function IncrementIfNotLast(i: int, length: int): (r: int)
    ensures i < length ==> r == i + 1
    ensures i <= length ==> r <= length
    ensures i >= length ==> r == length
  {
    if i < length then i + 1 else length
  }

  /**
   * `clip(arr, min, max)`: the elements from the first one satisfying `min`
   * through the first one satisfying `max`. An absent or unmatched predicate
   * falls back to the start (for `min`) or to the end (for `max`).
   */
  function Clip<T>(arr: seq<T>, min: Option<T -> bool>, max: Option<T -> bool>): (r: seq<T>)
    ensures |r| <= |arr|
    ensures min.None? && max.None? ==> r == arr
  {
    var length := |arr|;
    var minI := if min.Some? then FindIndex(arr, min.value) else 0;
    var maxI := if max.Some? then FindIndex(arr, max.value) else length;
    Slice(arr, WithDefault(minI, 0), IncrementIfNotLast(WithDefault(maxI, length), length))
  }

  /** `s` is where `clip` starts: the first `min` match, or 0 when there is none. */
  ghost predicate ClipStart<T>(arr: seq<T>, min: Option<T -> bool>, s: int) {
    if min.Some? && !NoneMatch(arr, min.value) then IsFirst(arr, min.value, s) else s == 0
  }

  /** `e` is where `clip` ends (exclusive): one past the first `max` match, or the length. */
  ghost predicate ClipEnd<T>(arr: seq<T>, max: Option<T -> bool>, e: int) {
    if max.Some? && !NoneMatch(arr, max.value) then IsFirst(arr, max.value, e - 1) else e == |arr|
  }

  /** The result of `clip` is the slice between its start and its end, empty when they cross. */
  lemma ClipSlice<T>(arr: seq<T>, min: Option<T -> bool>, max: Option<T -> bool>, s: int, e: int)
    requires ClipStart(arr, min, s) && ClipEnd(arr, max, e)
    ensures 0 <= s <= |arr| && 0 <= e <= |arr|
    ensures Clip(arr, min, max) == if s <= e then arr[s..e] else []
  {
    if min.Some? && !NoneMatch(arr, min.value) {
      assert FindIndex(arr, min.value) == s;
    }
    if max.Some? && !NoneMatch(arr, max.value) {
      assert FindIndex(arr, max.value) == e - 1;
    }
  }

  /** Clipping a mapped sequence maps the clip taken with the predicates pulled back. */
  lemma ClipMap<T, U>(s: seq<T>, f: T -> U, min: U -> bool, max: U -> bool, min': T -> bool, max': T -> bool)
    requires forall x :: min'(x) == min(f(x))
    requires forall x :: max'(x) == max(f(x))
    ensures Clip(Map(s, f), Some(min), Some(max)) == Map(Clip(s, Some(min'), Some(max')), f)
  {
    FindIndexMap(s, f, min, min');
    FindIndexMap(s, f, max, max');
    var lo := WithDefault(FindIndex(s, min'), 0);
    var hi := IncrementIfNotLast(WithDefault(FindIndex(s, max'), |s|), |s|);
    SliceMap(s, f, lo, hi);
  }

  /** When the first `max` match comes before the first `min` match, nothing is kept. */
  lemma ClipCrossedBounds<T>(arr: seq<T>, min: T -> bool, max: T -> bool, i: int, j: int)
    requires IsFirst(arr, min, i) && IsFirst(arr, max, j) && j < i
    ensures Clip(arr, Some(min), Some(max)) == []
  {
    ClipSlice(arr, Some(min), Some(max), i, j + 1);
  }

  /** The test data of the library's own clip tests. */
  const ClipTestData: seq<string> := ["foo", "bar", "baz", "foobar", "foobaz"]

  /** `() => false`: a bound that matches nothing. */
  function NeverMatches(v: string): bool { false }

  /** `val => val === 'baz'` */
  function IsBaz(v: string): bool { v == "baz" }

  /** `val => val === 'foobaz'` */
  function IsFoobaz(v: string): bool { v == "foobaz" }

  /** A `min` that matches nothing starts the clip at the first item. */
  lemma ClipFromStartExample()
    ensures Clip(ClipTestData, Some(NeverMatches), Some(IsBaz)) == ["foo", "bar", "baz"]
  {
    assert IsFirst(ClipTestData, IsBaz, 2);
    ClipSlice(ClipTestData, Some(NeverMatches), Some(IsBaz), 0, 3);
    assert ClipTestData[0..3] == [ClipTestData[0], ClipTestData[1], ClipTestData[2]];
  }

  /** A `max` that matches nothing ends the clip at the last item. */
  lemma ClipToEndExample()
    ensures Clip(ClipTestData, Some(IsBaz), Some(NeverMatches)) == ["baz", "foobar", "foobaz"]
  {
    assert IsFirst(ClipTestData, IsBaz, 2);
    ClipSlice(ClipTestData, Some(IsBaz), Some(NeverMatches), 2, 5);
    assert ClipTestData[2..5] == [ClipTestData[2], ClipTestData[3], ClipTestData[4]];
  }

  /** Both bounds found: the clip runs from one through the other. */
  lemma ClipBetweenExample()
    ensures Clip(ClipTestData, Some(IsBaz), Some(IsFoobaz)) == ["baz", "foobar", "foobaz"]
  {
    assert IsFirst(ClipTestData, IsBaz, 2);
    assert IsFirst(ClipTestData, IsFoobaz, 4);
    ClipSlice(ClipTestData, Some(IsBaz), Some(IsFoobaz), 2, 5);
    assert ClipTestData[2..5] == [ClipTestData[2], ClipTestData[3], ClipTestData[4]];
  }

  /** `compareFloats(a, b, eps)`: `a` and `b` differ by less than `eps`. */
  function CompareFloats(a: real, b: real, eps: real): (r: bool)
    ensures r ==> -eps < a - b < eps
    ensures eps > 0.0 && a == b ==> r
  {
    var d := a - b;
    (if d < 0.0 then -d else d) < eps
  }

  /** The tolerance comparison does not depend on the order of its arguments. */
  lemma CompareFloatsSymmetric(a: real, b: real, eps: real)
    ensures CompareFloats(a, b, eps) == CompareFloats(b, a, eps)
  {
  }

  /** `nominalSelector(val)`: the row's nominal value is `val`. */
  function NominalSelector<N(==,!new)>(val: N): (sel: CameraValue<N> -> bool)
    ensures forall o :: sel(o) <==> o.nominal == val
  {
    (o: CameraValue<N>) => o.nominal == val
  }

  /**
   * `exactSelector(val)`: the row's exact value matches `val`. The source compares
   * within `EPSILON`; on exact magnitudes the match is equality (see README). A row
   * without an exact value reads as `undefined` and matches nothing.
   */
  function ExactSelector<N(!new)>(val: Magnitude): (sel: CameraValue<N> -> bool)
    ensures forall o :: sel(o) <==> o.ExactStop? && o.exact == val
  {
    (o: CameraValue<N>) => o.ExactStop? && o.exact == val
  }

  /** `notNullSelector(key)`: the setting's `key` is present; with no key, any setting. */
  function NotNullSelector(key: Option<SettingField>): (sel: CameraSetting -> bool)
    ensures forall o :: sel(o) <==> match key
      case None => true
      case Some(FNumberField) => o.fNumber.Some?
      case Some(ShutterSpeedField) => o.shutterSpeed.Some?
  {
    (o: CameraSetting) => match key
      case None => true
      case Some(FNumberField) => o.fNumber.Some?
      case Some(ShutterSpeedField) => o.shutterSpeed.Some?
  }
}
