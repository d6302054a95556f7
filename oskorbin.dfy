/** The linear program of `find_oskorbin_center_and_w` (lab9/src/lab9.py:116-133):
    minimise `w` over `(w, beta)` subject to `A * (w, beta) <= b`. Only the
    construction of `A`, `b` and `c` (lines 120-130) is modelled; the solver
    call is not. */
module Oskorbin {
  import opened Measurements

  /** A row `[a_w, a_beta]` of `A`, or the objective `c`: the coefficients of
      `w` and of `beta`. */
  datatype Row = Row(w: real, beta: real)

  /** `(w, beta)` meets every row of `A * x <= b`. */
  predicate Satisfies(A: seq<Row>, b: seq<real>, w: real, beta: real)
  {
    |A| == |b| && forall i :: 0 <= i < |A| ==> A[i].w * w + A[i].beta * beta <= b[i]
  }

  /** The intended meaning of the program: `w >= 1` and the interval
      `[beta - Eps * w, beta + Eps * w]` holds every measurement. */
  predicate CoversAll(data: seq<real>, w: real, beta: real)
  {
    w >= 1.0 && forall k :: 0 <= k < |data| ==> beta - Eps * w <= data[k] <= beta + Eps * w
  }

  /** Lines 120-130. The system built is exactly the covering condition. */
  method ConstraintSystem(data: seq<real>) returns (A: seq<Row>, b: seq<real>, c: Row)
    ensures |A| == 2 * |data| + 1 && |b| == 2 * |data| + 1
    ensures c == Row(1.0, 0.0)
    ensures forall w, beta :: Satisfies(A, b, w, beta) <==> CoversAll(data, w, beta)
  {
    A, b := [], [];
    var n := |data|;
    for i := 0 to n
      invariant |A| == 2 * i
      invariant forall k :: 0 <= k < i ==> A[2 * k] == Row(-Eps, -1.0) && A[2 * k + 1] == Row(-Eps, 1.0)
    {
      A := A + [Row(-Eps, -1.0)];
      A := A + [Row(-Eps, 1.0)];
    }
    A := A + [Row(-1.0, 0.0)];
    for i := 0 to |data|
      invariant |b| == 2 * i
      invariant forall k :: 0 <= k < i ==> b[2 * k] == -data[k] && b[2 * k + 1] == data[k]
    {
      b := b + [-data[i]];
      b := b + [data[i]];
    }
    b := b + [-1.0];
    c := Row(1.0, 0.0);
    SystemMeaning(data, A, b);
  }

  /** Rows `2k` and `2k + 1` bound `beta` by `data[k] -+ Eps * w`; the last row
      says `w >= 1`. */
  lemma SystemMeaning(data: seq<real>, A: seq<Row>, b: seq<real>)
    requires |A| == 2 * |data| + 1 && |b| == 2 * |data| + 1
    requires forall k :: 0 <= k < |data| ==> A[2 * k] == Row(-Eps, -1.0) && A[2 * k + 1] == Row(-Eps, 1.0)
    requires forall k :: 0 <= k < |data| ==> b[2 * k] == -data[k] && b[2 * k + 1] == data[k]
    requires A[2 * |data|] == Row(-1.0, 0.0) && b[2 * |data|] == -1.0
    ensures forall w, beta :: Satisfies(A, b, w, beta) <==> CoversAll(data, w, beta)
  {
    forall w, beta
      ensures Satisfies(A, b, w, beta) <==> CoversAll(data, w, beta)
    {
      if Satisfies(A, b, w, beta) {
        forall k | 0 <= k < |data|
          ensures beta - Eps * w <= data[k] <= beta + Eps * w
        {
          assert A[2 * k].w * w + A[2 * k].beta * beta <= b[2 * k];
          assert A[2 * k + 1].w * w + A[2 * k + 1].beta * beta <= b[2 * k + 1];
        }
        assert A[2 * |data|].w * w + A[2 * |data|].beta * beta <= b[2 * |data|];
      }
      if CoversAll(data, w, beta) {
        forall i | 0 <= i < |A|
          ensures A[i].w * w + A[i].beta * beta <= b[i]
        {
          if i < 2 * |data| {
            var k := i / 2;
            if i == 2 * k {
              assert A[2 * k] == Row(-Eps, -1.0) && b[2 * k] == -data[k];
            } else {
              assert i == 2 * k + 1;
              assert A[2 * k + 1] == Row(-Eps, 1.0) && b[2 * k + 1] == data[k];
            }
          }
        }
      }
    }
  }

  /** The largest and smallest measurement. */
  function MaxOf(data: seq<real>): (m: real)
    requires |data| > 0
    ensures forall k :: 0 <= k < |data| ==> data[k] <= m
    ensures exists k :: 0 <= k < |data| && data[k] == m
  {
    if |data| == 1 then data[0]
    else
      var rest := MaxOf(data[1..]);
      if data[0] >= rest then data[0] else rest
  }

  function MinOf(data: seq<real>): (m: real)
    requires |data| > 0
    ensures forall k :: 0 <= k < |data| ==> m <= data[k]
    ensures exists k :: 0 <= k < |data| && data[k] == m
  {
    if |data| == 1 then data[0]
    else
      var rest := MinOf(data[1..]);
      if data[0] <= rest then data[0] else rest
  }

  /** The optimum of the program for non-empty data: the point with `beta` at
      the midpoint of the data and `w = max(1, (max - min) / (2 * Eps))` meets
      every constraint, and no feasible point has a smaller `w`. So the
      program is never infeasible nor unbounded. */
  lemma OptimalInflation(data: seq<real>)
    requires |data| > 0
    ensures var wStar := if MaxOf(data) - MinOf(data) <= 2.0 * Eps then 1.0
                         else (MaxOf(data) - MinOf(data)) / (2.0 * Eps);
            && CoversAll(data, wStar, (MaxOf(data) + MinOf(data)) / 2.0)
            && forall w, beta :: CoversAll(data, w, beta) ==> wStar <= w
  {
    var hi, lo := MaxOf(data), MinOf(data);
    var wStar := if hi - lo <= 2.0 * Eps then 1.0 else (hi - lo) / (2.0 * Eps);
    assert Eps * wStar >= (hi - lo) / 2.0;
    forall w, beta | CoversAll(data, w, beta)
      ensures wStar <= w
    {
      var i :| 0 <= i < |data| && data[i] == hi;
      var j :| 0 <= j < |data| && data[j] == lo;
      assert hi - lo <= 2.0 * Eps * w;
    }
  }

  /** The program for the symmetric pair `-1, 1` has optimum `w = 1000`
      (that is, `1 / Eps`) at `beta = 0`. */
  lemma SymmetricPairOptimum()
    ensures CoversAll([-1.0, 1.0], 1000.0, 0.0)
    ensures forall w, beta :: CoversAll([-1.0, 1.0], w, beta) ==> 1000.0 <= w
    ensures forall beta :: CoversAll([-1.0, 1.0], 1000.0, beta) ==> beta == 0.0
  {
    var data := [-1.0, 1.0];
    OptimalInflation(data);
    assert MaxOf(data) == 1.0 && MinOf(data) == -1.0;
  }
}
