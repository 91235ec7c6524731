/**
 `Array.prototype.find`: the first element of a sequence, in sequence order,
 that satisfies a predicate. The model returns the element's index so that
 callers can speak about "earliest".
 */
module FirstMatch {

  datatype Option<+T> = None | Some(value: T)

  /** `i` is the earliest index of `s` whose element satisfies `p`. */
  ghost predicate IsFirst<T>(s: seq<T>, p: T -> bool, i: int) {
    0 <= i < |s| && p(s[i]) && forall j :: 0 <= j < i ==> !p(s[j])
  }

  /** Scan `s` from the front and stop at the first element satisfying `p`. */
  function Find<T>(s: seq<T>, p: T -> bool): (r: Option<nat>)
    ensures r.Some? ==> IsFirst(s, p, r.value)
    ensures r.None? <==> forall j :: 0 <= j < |s| ==> !p(s[j])
    decreases |s|
  {
    if |s| == 0 then None
    else if p(s[0]) then Some(0)
    else match Find(s[1..], p)
      case None => None
      case Some(i) => Some(i + 1)
  }

  /** There is at most one earliest match, and Find returns it. */
  lemma FindReturnsTheFirst<T>(s: seq<T>, p: T -> bool, i: int)
    requires IsFirst(s, p, i)
    ensures Find(s, p) == Some(i)
  {
    assert Find(s, p).Some?;
  }
}
