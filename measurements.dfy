/** Shared vocabulary of the interval analysis in lab9/src/lab9.py: the
    uncertainty radius, the `[low, high]` pairs the script passes around, and
    the error outcomes of its operations. */
module Measurements {

  /** Uncertainty radius of every measurement (the script writes `10e-4`). */
  const Eps: real := 0.001

  /** A closed interval `[lo, hi]`: a measurement interval or an elementary cell. */
  datatype Interval = Interval(lo: real, hi: real) {
    function Width(): real { hi - lo }
    predicate Contains(x: real) { lo <= x <= hi }
  }

  /** What Python raises in the modelled code: IndexError on an empty list
      (`data[0]`, `int_data[-1]`) and ZeroDivisionError on a zero denominator. */
  datatype Error = EmptyInput | ZeroDivision

  datatype Result<T> = Ok(value: T) | Err(error: Error)

  /** The interval `[d - Eps, d + Eps]` of one measurement. */
  function IntervalOf(d: real): (iv: Interval)
    ensures iv.lo < iv.hi && iv.Contains(d)
    ensures iv.Width() == 2.0 * Eps
  {
    Interval(d - Eps, d + Eps)
  }

  /** `interval_data` of the script's main block: one interval per measurement. */
  function IntervalData(data: seq<real>): (r: seq<Interval>)
    ensures |r| == |data|
    ensures forall k :: 0 <= k < |r| ==> (r[k].lo + r[k].hi) / 2.0 == data[k] && r[k].Width() == 2.0 * Eps
  {
    seq(|data|, k requires 0 <= k < |data| => IntervalOf(data[k]))
  }

  /** `x` is `d - Eps` or `d + Eps` for some measurement `d`. */
  ghost predicate IsEndpoint(x: real, data: seq<real>)
  {
    exists k :: 0 <= k < |data| && (x == data[k] - Eps || x == data[k] + Eps)
  }

  predicate Sorted(data: seq<real>)
  {
    forall i, j :: 0 <= i <= j < |data| ==> data[i] <= data[j]
  }

  predicate StrictlyIncreasing(s: seq<real>)
  {
    forall i, j :: 0 <= i < j < |s| ==> s[i] < s[j]
  }

  predicate Distinct(s: seq<real>)
  {
    forall i, j :: 0 <= i < j < |s| ==> s[i] != s[j]
  }

  /** Intervals laid out left to right without overlapping interiors. */
  predicate Ordered(s: seq<Interval>)
  {
    forall i, j :: 0 <= i < j < |s| ==> s[i].hi <= s[j].lo
  }

  /** An elementary cell: two endpoints with no endpoint strictly between them. */
  ghost predicate IsElementaryCell(c: Interval, data: seq<real>)
  {
    && IsEndpoint(c.lo, data)
    && IsEndpoint(c.hi, data)
    && c.lo < c.hi
    && forall x :: c.lo < x < c.hi ==> !IsEndpoint(x, data)
  }
}
