/** Time windows, in whole minutes, as stored in a driver's availability tree.

    A window is written [low, high].  The tree's overlap test treats it as
    closed (windows that only touch overlap), while free time itself is read
    half-open: minute t is free in [low, high] when low <= t < high.
 */
module Intervals {

  datatype Interval = Interval(low: int, high: int)

  /** A well-formed free window: it has at least one free minute. */
  predicate Proper(x: Interval) {
    x.low < x.high
  }

  /** The tree's overlap test between a stored window and a query [lo, hi];
      endpoints that only touch count as overlapping. */
  predicate Overlaps(x: Interval, lo: int, hi: int) {
    x.low <= hi && lo <= x.high
  }

  /** x fully contains the query [lo, hi]. */
  predicate Covers(x: Interval, lo: int, hi: int) {
    x.low <= lo && hi <= x.high
  }

  /** Minute t is free in x. */
  predicate HasMinute(x: Interval, t: int) {
    x.low <= t < x.high
  }

  /** Two windows share no free minute. */
  predicate Disjoint(x: Interval, y: Interval) {
    x.high <= y.low || y.high <= x.low
  }

  /** x lies inside y. */
  predicate Within(x: Interval, y: Interval) {
    y.low <= x.low && x.high <= y.high
  }

  /** Some window of xs has minute t free. */
  predicate AnyHasMinute(xs: seq<Interval>, t: int) {
    exists i :: 0 <= i < |xs| && HasMinute(xs[i], t)
  }

  /** What is left of a free window x once [lo, hi] is reserved: the part
      before lo when x starts before lo, and the part after hi when x ends
      after hi. */
  function Remainder(x: Interval, lo: int, hi: int): (r: seq<Interval>)
    ensures |r| <= 2
    ensures forall i :: 0 <= i < |r| ==> Proper(r[i])
    ensures Overlaps(x, lo, hi) ==> forall i :: 0 <= i < |r| ==> Within(r[i], x)
    ensures lo <= hi && |r| == 2 ==> Disjoint(r[0], r[1])
    ensures forall i :: 0 <= i < |r| ==> !(r[i].low < hi && lo < r[i].high)
    ensures lo < hi ==> forall i :: 0 <= i < |r| ==> !Covers(r[i], lo, hi)
  {
    (if x.low < lo then [Interval(x.low, lo)] else [])
      + (if hi < x.high then [Interval(hi, x.high)] else [])
  }

  /** The remainder frees exactly the minutes of x outside [lo, hi). */
  lemma RemainderMinutes(x: Interval, lo: int, hi: int, t: int)
    requires Overlaps(x, lo, hi) && lo <= hi
    ensures AnyHasMinute(Remainder(x, lo, hi), t) <==> HasMinute(x, t) && !(lo <= t < hi)
  {
    var r := Remainder(x, lo, hi);
    if HasMinute(x, t) && !(lo <= t < hi) {
      if t < lo {
        assert HasMinute(r[0], t);
      } else {
        assert HasMinute(r[|r| - 1], t);
      }
    }
  }

  /** A window that only touches the reserved window at one end survives
      whole. */
  lemma TouchingSurvives(x: Interval, lo: int, hi: int)
    requires Proper(x) && lo < hi
    requires x.high == lo || x.low == hi
    ensures Overlaps(x, lo, hi)
    ensures Remainder(x, lo, hi) == [x]
  {
  }
}
