/** The summary figures of lab9/src/lab9.py: `estimators_of_data` (64-69),
    `Jakar_coeff` (97-107) and `relative_width_of_the_mode` (109-114). */
module Coefficients {
  import opened Measurements
  import Mode

  function Last<T>(s: seq<T>): T
    requires |s| > 0
  {
    s[|s| - 1]
  }

  function Max(a: real, b: real): real { if a >= b then a else b }

  function Min(a: real, b: real): real { if a <= b then a else b }

  /** `estimators_of_data`: `(data[0] - eps, data[size - 1] + eps)`; indexing an
      empty series fails. */
  function Estimators(data: seq<real>): (r: Result<Interval>)
    ensures r.Err? <==> |data| == 0
    ensures r.Err? ==> r.error == EmptyInput
    ensures r.Ok? ==> r.value == Span(IntervalData(data))
  {
    if |data| == 0 then Err(EmptyInput)
    else Ok(Interval(data[0] - Eps, Last(data) + Eps))
  }

  /** On data sorted ascending the estimate is the hull of all measurement
      intervals: both its ends are endpoints and no endpoint lies outside it.
      It is also the span `max_inc` that both ratios below divide by. */
  lemma EstimatorsSpanAllIntervals(data: seq<real>)
    requires Sorted(data) && |data| > 0
    ensures Estimators(data).Ok?
    ensures IsEndpoint(Estimators(data).value.lo, data) && IsEndpoint(Estimators(data).value.hi, data)
    ensures forall x :: IsEndpoint(x, data) ==> Estimators(data).value.Contains(x)
  {
    var e := Estimators(data).value;
    forall x | IsEndpoint(x, data)
      ensures e.Contains(x)
    {
      var k :| 0 <= k < |data| && (x == data[k] - Eps || x == data[k] + Eps);
      assert data[0] <= data[k] <= data[|data| - 1];
    }
  }

  /** `min_inc[0]` after the loop of lines 102-104: the largest low end. */
  function MaxLow(s: seq<Interval>): (m: real)
    requires |s| > 0
    ensures forall k :: 0 <= k < |s| ==> s[k].lo <= m
    ensures exists k :: 0 <= k < |s| && s[k].lo == m
  {
    if |s| == 1 then s[0].lo else Max(MaxLow(s[..|s| - 1]), Last(s).lo)
  }

  /** `min_inc[1]` after the loop of lines 102-104: the smallest high end. */
  function MinHigh(s: seq<Interval>): (m: real)
    requires |s| > 0
    ensures forall k :: 0 <= k < |s| ==> m <= s[k].hi
    ensures exists k :: 0 <= k < |s| && s[k].hi == m
  {
    if |s| == 1 then s[0].hi else Min(MinHigh(s[..|s| - 1]), Last(s).hi)
  }

  /** `x` lies in every interval of `s`. */
  predicate InAll(s: seq<Interval>, x: real)
  {
    forall k :: 0 <= k < |s| ==> s[k].Contains(x)
  }

  /** `min_inc`: the intersection of all intervals. A point is in it exactly
      when it is in every interval; it is inverted (negative width) exactly
      when the intervals have no common point. */
  function CommonPart(s: seq<Interval>): (r: Interval)
    requires |s| > 0
    ensures forall x :: r.Contains(x) <==> InAll(s, x)
    ensures r.Width() >= 0.0 <==> exists x :: InAll(s, x)
  {
    var r := Interval(MaxLow(s), MinHigh(s));
    assert r.Width() >= 0.0 ==> InAll(s, r.lo);
    r
  }

  /** `max_inc` (line 105), and the denominator of line 114: from the first
      interval's low end to the last interval's high end. */
  function Span(s: seq<Interval>): Interval
    requires |s| > 0
  {
    Interval(s[0].lo, Last(s).hi)
  }

  /** `Jakar_coeff` (lines 97-107). */
  method JaccardCoefficient(intData: seq<Interval>) returns (r: Result<real>)
    ensures |intData| == 0 ==> r == Err(EmptyInput)
    ensures |intData| > 0 && Span(intData).Width() == 0.0 ==> r == Err(ZeroDivision)
    ensures |intData| > 0 && Span(intData).Width() != 0.0 ==>
              r == Ok(CommonPart(intData).Width() / Span(intData).Width())
  {
    if |intData| == 0 {
      return Err(EmptyInput);
    }
    var minInc := Interval(intData[0].lo, intData[0].hi);
    for i := 0 to |intData|
      invariant minInc.lo == MaxLow(intData[..if i == 0 then 1 else i])
      invariant minInc.hi == MinHigh(intData[..if i == 0 then 1 else i])
    {
      if i > 0 {
        assert intData[..i + 1][..i] == intData[..i];
      }
      minInc := minInc.(lo := Max(minInc.lo, intData[i].lo));
      minInc := minInc.(hi := Min(minInc.hi, intData[i].hi));
    }
    assert intData[..|intData|] == intData;
    var maxInc := Interval(intData[0].lo, intData[|intData| - 1].hi);
    var den := maxInc.hi - maxInc.lo;
    if den == 0.0 {
      return Err(ZeroDivision);
    }
    r := Ok((minInc.hi - minInc.lo) / den);
  }

  /** `n` copies of one non-degenerate interval have coefficient exactly 1. */
  method JaccardOfCopies(iv: Interval, n: nat) returns (r: Result<real>)
    requires n > 0 && iv.lo < iv.hi
    ensures r == Ok(1.0)
  {
    var s := seq(n, _ => iv);
    CopiesOfOneInterval(s, iv);
    r := JaccardCoefficient(s);
    DivSelf(iv.Width());
  }

  lemma DivSelf(x: real)
    requires x != 0.0
    ensures x / x == 1.0
  {
  }

  lemma CopiesOfOneInterval(s: seq<Interval>, iv: Interval)
    requires |s| > 0 && forall k :: 0 <= k < |s| ==> s[k] == iv
    ensures CommonPart(s) == iv && Span(s) == iv
  {
    assert s[0] == iv && Last(s) == iv;
  }

  /** On data sorted ascending the denominator is positive and at least the
      numerator, so the coefficient is defined and at most 1 (its sign is
      that of `CommonPart`'s width). */
  lemma JaccardOfSortedData(data: seq<real>)
    requires Sorted(data) && |data| > 0
    ensures Span(IntervalData(data)).Width() > 0.0
    ensures CommonPart(IntervalData(data)).Width() <= Span(IntervalData(data)).Width()
  {
    var s := IntervalData(data);
    assert s[0] == IntervalOf(data[0]) && Last(s) == IntervalOf(Last(data));
    assert data[0] <= Last(data);
    assert MaxLow(s) >= s[0].lo && MinHigh(s) <= Last(s).hi;
  }

  /** `sum(m[1] - m[0] for m in mode)` of line 113. */
  function SumWidths(mode: seq<Interval>): real
  {
    if |mode| == 0 then 0.0 else SumWidths(mode[..|mode| - 1]) + Last(mode).Width()
  }

  /** `relative_width_of_the_mode` (lines 109-114). */
  function RelativeModeWidth(intData: seq<Interval>, mode: seq<Interval>): (r: Result<real>)
    ensures |intData| == 0 ==> r == Err(EmptyInput)
    ensures |intData| > 0 && Span(intData).Width() == 0.0 ==> r == Err(ZeroDivision)
    ensures |intData| > 0 && Span(intData).Width() != 0.0 ==> r.Ok?
    ensures r.Ok? ==> |intData| > 0 && r.value * Span(intData).Width() == SumWidths(mode)
  {
    if |intData| == 0 then Err(EmptyInput)
    else if Span(intData).Width() == 0.0 then Err(ZeroDivision)
    else Ok(SumWidths(mode) / Span(intData).Width())
  }

  /** Non-overlapping, left-to-right cells starting at or after `a` have a
      total width between 0 and the distance from `a` to the last high end. */
  lemma {:induction false} SumWidthsBound(mode: seq<Interval>, a: real)
    requires Ordered(mode) && mode != []
    requires forall k :: 0 <= k < |mode| ==> mode[k].lo <= mode[k].hi
    requires a <= mode[0].lo
    ensures 0.0 <= SumWidths(mode) <= Last(mode).hi - a
  {
    if |mode| > 1 {
      var front := mode[..|mode| - 1];
      assert Ordered(front) && front[0] == mode[0];
      SumWidthsBound(front, a);
      assert Last(front).hi <= Last(mode).lo;
    }
  }

  /** Every cell of the mode lies inside the span of sorted data. */
  lemma ModeWithinSpan(data: seq<real>, mode: seq<Interval>, maxMu: nat)
    requires Sorted(data) && |data| > 0
    requires Mode.IsModeOf(mode, maxMu, data)
    ensures forall k :: 0 <= k < |mode| ==>
              mode[k].lo < mode[k].hi && Span(IntervalData(data)).lo <= mode[k].lo && mode[k].hi <= Span(IntervalData(data)).hi
  {
    EstimatorsSpanAllIntervals(data);
    forall k | 0 <= k < |mode|
      ensures mode[k].lo < mode[k].hi
      ensures Span(IntervalData(data)).lo <= mode[k].lo && mode[k].hi <= Span(IntervalData(data)).hi
    {
      assert mode[k] in mode;
    }
  }

  lemma RatioInUnitRange(sum: real, w: real)
    requires 0.0 <= sum <= w && w > 0.0
    ensures 0.0 <= sum / w <= 1.0
  {
    assert sum / w * w == sum;
  }

  /** For data sorted ascending and the mode `mode_and_max_click` returns, the
      relative width of the mode is defined and lies between 0 and 1. */
  lemma RelativeModeWidthInUnitRange(data: seq<real>, mode: seq<Interval>, maxMu: nat)
    requires Sorted(data) && |data| > 0
    requires Mode.IsModeOf(mode, maxMu, data)
    ensures RelativeModeWidth(IntervalData(data), mode).Ok?
    ensures 0.0 <= RelativeModeWidth(IntervalData(data), mode).value <= 1.0
  {
    var span := Span(IntervalData(data));
    JaccardOfSortedData(data);
    ModeWithinSpan(data, mode, maxMu);
    if mode != [] {
      SumWidthsBound(mode, span.lo);
    }
    RatioInUnitRange(SumWidths(mode), span.Width());
  }

  /** A single measurement: the mode is the whole span, relative width 1. */
  method RelativeWidthOfSingleMeasurement(d: real) returns (r: Result<real>)
    ensures r == Ok(1.0)
  {
    var mode, maxMu := Mode.ModeOfSingleMeasurement(d);
    assert SumWidths(mode) == 2.0 * Eps;
    r := RelativeModeWidth(IntervalData([d]), mode);
  }
}
