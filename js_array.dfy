/**
 * The `Array.prototype` operations the library is built from: `findIndex`,
 * `find`, `slice`, `map` and `filter`, on sequences and total predicates.
 */
module JsArray {
  import opened Wrappers

  /** `i` is the first index whose element satisfies `p`. */
  ghost predicate IsFirst<T>(s: seq<T>, p: T -> bool, i: int) {
    0 <= i < |s| && p(s[i]) && forall j :: 0 <= j < i ==> !p(s[j])
  }

  /** No element of `s` satisfies `p`. */
  ghost predicate NoneMatch<T>(s: seq<T>, p: T -> bool) {
    forall i :: 0 <= i < |s| ==> !p(s[i])
  }

  /** `s.findIndex(p)`: the first index satisfying `p`, or -1. */
  function FindIndex<T>(s: seq<T>, p: T -> bool): (r: int)
    ensures r == -1 <==> NoneMatch(s, p)
    ensures r != -1 ==> IsFirst(s, p, r)
  {
    if s == [] then -1
    else if p(s[0]) then 0
    else
      var k := FindIndex(s[1..], p);
      if k == -1 then -1 else k + 1
  }

  /** `s.find(p)`: the first element satisfying `p`, or `undefined`. */
  function Find<T>(s: seq<T>, p: T -> bool): (r: Option<T>)
    ensures r.None? <==> NoneMatch(s, p)
    ensures r.Some? ==> p(r.value) && r.value in s
  {
    var i := FindIndex(s, p);
    if i == -1 then None else Some(s[i])
  }

  /** `find` looks at the head first, then at the rest. */
  lemma FindCons<T>(s: seq<T>, p: T -> bool)
    requires s != []
    ensures Find(s, p) == if p(s[0]) then Some(s[0]) else Find(s[1..], p)
  {
    if !p(s[0]) {
      var k := FindIndex(s[1..], p);
      if k != -1 {
        assert s[k + 1] == s[1..][k];
      }
    }
  }

  /** The relative index rule of `slice`: negative counts from the end, then clamp. */
  function SliceIndex(i: int, len: nat): (r: nat)
    ensures r <= len
    ensures 0 <= i <= len ==> r == i
  {
    if i < 0 then (if len + i < 0 then 0 else len + i)
    else if i > len then len
    else i
  }

  /** `s.slice(start, end)` */
  function Slice<T>(s: seq<T>, start: int, end: int): (r: seq<T>)
    ensures |r| <= |s|
    ensures 0 <= start <= end <= |s| ==> r == s[start..end]
    ensures 0 <= end <= start <= |s| ==> r == []
  {
    var lo, hi := SliceIndex(start, |s|), SliceIndex(end, |s|);
    if lo < hi then s[lo..hi] else []
  }

  /** `s.map(f)` */
  function Map<T, U>(s: seq<T>, f: T -> U): (r: seq<U>)
    ensures |r| == |s|
    ensures forall i :: 0 <= i < |s| ==> r[i] == f(s[i])
  {
    seq(|s|, i requires 0 <= i < |s| => f(s[i]))
  }

  /** Slicing a mapped sequence maps the slice. */
  lemma SliceMap<T, U>(s: seq<T>, f: T -> U, start: int, end: int)
    ensures Slice(Map(s, f), start, end) == Map(Slice(s, start, end), f)
  {
    var lo, hi := SliceIndex(start, |s|), SliceIndex(end, |s|);
    if lo < hi {
      assert Map(s, f)[lo..hi] == Map(s[lo..hi], f);
    }
  }

  /** `s.filter(p)` */
  function Filter<T>(s: seq<T>, p: T -> bool): (r: seq<T>)
    ensures |r| <= |s|
    ensures forall i :: 0 <= i < |r| ==> r[i] in s && p(r[i])
    ensures forall i :: 0 <= i < |s| && p(s[i]) ==> s[i] in r
  {
    if s == [] then []
    else (if p(s[0]) then [s[0]] else []) + Filter(s[1..], p)
  }

  /** Filtering a mapped sequence, one element at a time. */
  lemma FilterMapCons<T, U>(s: seq<T>, f: T -> U, p: U -> bool)
    requires s != []
    ensures Filter(Map(s, f), p)
         == (if p(f(s[0])) then [f(s[0])] else []) + Filter(Map(s[1..], f), p)
  {
    assert Map(s, f)[1..] == Map(s[1..], f);
  }

  /** `findIndex` on a mapped sequence is `findIndex` with the predicate pulled back. */
  lemma {:induction false} FindIndexMap<T, U>(s: seq<T>, f: T -> U, p: U -> bool, q: T -> bool)
    requires forall x :: q(x) == p(f(x))
    ensures FindIndex(Map(s, f), p) == FindIndex(s, q)
  {
    if s != [] {
      assert Map(s, f)[1..] == Map(s[1..], f);
      FindIndexMap(s[1..], f, p, q);
    }
  }

  /** `find` on a mapped sequence maps the element `find` picks. */
  lemma FindMap<T, U>(s: seq<T>, f: T -> U, p: U -> bool, q: T -> bool)
    requires forall x :: q(x) == p(f(x))
    ensures Find(Map(s, f), p) == match Find(s, q) case None => None case Some(x) => Some(f(x))
  {
    FindIndexMap(s, f, p, q);
  }
}
