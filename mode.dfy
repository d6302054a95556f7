/** `mode_and_max_click` (lab9/src/lab9.py:71-95): score every elementary cell
    by its coverage, keep a running maximum with the indices that reach it,
    and return the cells at those indices together with the maximum. */
module Mode {
  import opened Measurements
  import Breakpoints

  /** The test of line 87: an endpoint of the measurement lies in the closed
      cell. This is not interval overlap: an interval that strictly contains
      the cell with both endpoints outside it does not touch it. */
  predicate Touches(c: Interval, d: real)
  {
    c.Contains(d - Eps) || c.Contains(d + Eps)
  }

  /** `mu` of line 87: the number of measurements that touch the cell. */
  function Coverage(c: Interval, data: seq<real>): (mu: nat)
    ensures mu <= |data|
  {
    if |data| == 0 then 0
    else (if Touches(c, data[0]) then 1 else 0) + Coverage(c, data[1..])
  }

  /** No measurement touches the cell exactly when its coverage is zero. */
  lemma {:induction false} CoverageZeroIff(c: Interval, data: seq<real>)
    ensures Coverage(c, data) == 0 <==> forall k :: 0 <= k < |data| ==> !Touches(c, data[k])
  {
    if |data| > 0 {
      CoverageZeroIff(c, data[1..]);
      assert forall k :: 1 <= k < |data| ==> data[1..][k - 1] == data[k];
    }
  }

  /** Every measurement touches the cell exactly when its coverage is `|data|`. */
  lemma {:induction false} CoverageFullIff(c: Interval, data: seq<real>)
    ensures Coverage(c, data) == |data| <==> forall k :: 0 <= k < |data| ==> Touches(c, data[k])
  {
    if |data| > 0 {
      CoverageFullIff(c, data[1..]);
      assert forall k :: 1 <= k < |data| ==> data[1..][k - 1] == data[k];
    }
  }

  /** An elementary cell is touched at least by the measurement whose endpoint
      is its lower end. */
  lemma ElementaryCellCovered(c: Interval, data: seq<real>)
    requires IsElementaryCell(c, data)
    ensures 1 <= Coverage(c, data)
  {
    var k :| 0 <= k < |data| && (c.lo == data[k] - Eps || c.lo == data[k] + Eps);
    assert Touches(c, data[k]);
    CoverageZeroIff(c, data);
  }

  /** The cells of `z` whose coverage is `m`, in the order of `z` (line 94). */
  function MaxCells(z: seq<Interval>, data: seq<real>, m: nat): (r: seq<Interval>)
    ensures |r| <= |z|
    ensures forall c :: c in r <==> c in z && Coverage(c, data) == m
  {
    if |z| == 0 then []
    else
      MaxCells(z[..|z| - 1], data, m)
      + (if Coverage(z[|z| - 1], data) == m then [z[|z| - 1]] else [])
  }

  /** Selecting cells keeps their left-to-right order. */
  lemma {:induction false} MaxCellsOrdered(z: seq<Interval>, data: seq<real>, m: nat)
    requires Ordered(z)
    ensures Ordered(MaxCells(z, data, m))
  {
    if |z| > 0 {
      var front := z[..|z| - 1];
      assert Ordered(front);
      MaxCellsOrdered(front, data, m);
      var r := MaxCells(front, data, m);
      forall c | c in r
        ensures c.hi <= z[|z| - 1].lo
      {
        var i :| 0 <= i < |front| && front[i] == c;
      }
    }
  }

  /** Lines 84-94: the running maximum `max_mu`, the index list `coefs` (which
      may hold an index twice), and the selection of the cells listed in it. */
  method ScoreCells(z: seq<Interval>, data: seq<real>) returns (mode: seq<Interval>, maxMu: nat)
    ensures forall i :: 0 <= i < |z| ==> Coverage(z[i], data) <= maxMu
    ensures |z| == 0 ==> maxMu == 0
    ensures |z| > 0 ==> exists i :: 0 <= i < |z| && Coverage(z[i], data) == maxMu
    ensures mode == MaxCells(z, data, maxMu)
  {
    maxMu := 0;
    var coefs: seq<int> := [];
    for i := 0 to |z|
      invariant forall j :: 0 <= j < i ==> Coverage(z[j], data) <= maxMu
      invariant i == 0 ==> maxMu == 0
      invariant i > 0 ==> exists j :: 0 <= j < i && Coverage(z[j], data) == maxMu
      invariant forall j :: j in coefs <==> 0 <= j < i && Coverage(z[j], data) == maxMu
    {
      var mu := Coverage(z[i], data);
      if mu > maxMu {
        maxMu := mu;
        coefs := [];
        coefs := coefs + [i];
      }
      if mu == maxMu {
        coefs := coefs + [i];
      }
    }
    mode := [];
    for i := 0 to |z|
      invariant mode == MaxCells(z[..i], data, maxMu)
    {
      assert z[..i + 1][..i] == z[..i];
      if i in coefs {
        mode := mode + [z[i]];
      }
    }
    assert z[..|z|] == z;
  }

  /** What `mode_and_max_click` returns, stated without its algorithm:
      `maxMu` bounds the coverage of every elementary cell, the mode holds
      exactly the elementary cells that reach it, left to right, and the
      maximum is 0 only when there is no cell at all. */
  ghost predicate IsModeOf(mode: seq<Interval>, maxMu: nat, data: seq<real>)
  {
    && (forall c :: IsElementaryCell(c, data) ==> Coverage(c, data) <= maxMu)
    && (forall c :: c in mode <==> IsElementaryCell(c, data) && Coverage(c, data) == maxMu)
    && Ordered(mode)
    && (mode == [] ==> maxMu == 0)
  }

  /** Lines 71-95. */
  method ModeAndMaxClick(data: seq<real>) returns (mode: seq<Interval>, maxMu: nat)
    ensures IsModeOf(mode, maxMu, data)
    ensures maxMu <= |data|
    ensures |data| == 0 ==> mode == [] && maxMu == 0
    ensures |data| > 0 ==> mode != [] && 1 <= maxMu
  {
    var y := Breakpoints.SortedBreakpoints(data);
    var z := Breakpoints.Cells(y);
    mode, maxMu := ScoreCells(z, data);
    Breakpoints.CellsAreElementary(data, y, z);
    MaxCellsOrdered(z, data, maxMu);
    if |data| > 0 {
      assert data[0] - Eps in y && data[0] + Eps in y;
      assert |z| > 0;
      var i :| 0 <= i < |z| && Coverage(z[i], data) == maxMu;
      assert z[i] in mode;
      ElementaryCellCovered(z[i], data);
    }
  }

  /** In a left-to-right sequence of non-degenerate intervals, the head lies
      left of every other member, and the tail holds all the other members. */
  lemma HeadIsLeftmost(a: seq<Interval>)
    requires Ordered(a) && a != []
    requires forall c :: c in a ==> c.lo < c.hi
    ensures forall c :: c in a && c != a[0] ==> a[0].hi <= c.lo
    ensures forall c :: c in a[1..] <==> c in a && c != a[0]
  {
    forall c | c in a && c != a[0]
      ensures a[0].hi <= c.lo && c in a[1..]
    {
      var p :| 0 <= p < |a| && a[p] == c;
      assert a[1..][p - 1] == c;
    }
    forall c | c in a[1..]
      ensures c != a[0]
    {
      var p :| 0 <= p < |a| - 1 && a[1..][p] == c;
      assert a[p + 1] == c;
    }
  }

  /** Two left-to-right sequences of non-degenerate intervals with the same
      members are equal. */
  lemma {:induction false} OrderedSameMembers(a: seq<Interval>, b: seq<Interval>)
    requires Ordered(a) && Ordered(b)
    requires forall c :: c in a ==> c.lo < c.hi
    requires forall c :: c in a <==> c in b
    ensures a == b
  {
    if a != [] {
      assert a[0] in a && b != [];
      assert b[0] in b;
      HeadIsLeftmost(a);
      HeadIsLeftmost(b);
      assert a[0] == b[0];
      assert Ordered(a[1..]) && Ordered(b[1..]);
      OrderedSameMembers(a[1..], b[1..]);
    }
  }

  /** The result of `mode_and_max_click` is determined by the data: two
      answers that both meet `IsModeOf` are the same. */
  lemma ModeIsUnique(data: seq<real>, mode1: seq<Interval>, mu1: nat, mode2: seq<Interval>, mu2: nat)
    requires IsModeOf(mode1, mu1, data) && IsModeOf(mode2, mu2, data)
    ensures mu1 == mu2 && mode1 == mode2
  {
    if mode1 != [] {
      assert mode1[0] in mode1;
    }
    if mode2 != [] {
      assert mode2[0] in mode2;
    }
    assert mu1 == mu2;
    OrderedSameMembers(mode1, mode2);
  }

  /** A single measurement `d`: the mode is its own interval, covered once. */
  method ModeOfSingleMeasurement(d: real) returns (mode: seq<Interval>, maxMu: nat)
    ensures mode == [IntervalOf(d)] && maxMu == 1
  {
    var data := [d];
    mode, maxMu := ModeAndMaxClick(data);
    var cell := IntervalOf(d);
    assert data[0] == d;
    assert IsElementaryCell(cell, data);
    assert forall c :: IsElementaryCell(c, data) ==> c == cell;
    assert mode[0] in mode;
    OrderedSameMembers(mode, [cell]);
    assert Coverage(cell, data) == 1;
  }

  /** Two equal measurements: one cell, covered twice. */
  method ModeOfRepeatedMeasurement(d: real) returns (mode: seq<Interval>, maxMu: nat)
    ensures mode == [IntervalOf(d)] && maxMu == 2
  {
    var data := [d, d];
    mode, maxMu := ModeAndMaxClick(data);
    var cell := IntervalOf(d);
    assert data[0] == d;
    assert IsElementaryCell(cell, data);
    assert forall c :: IsElementaryCell(c, data) ==> c == cell;
    assert mode[0] in mode;
    OrderedSameMembers(mode, [cell]);
    assert Coverage(cell, data) == 2;
  }

  /** Two far-apart measurements 0 and 10: the gap cell between their
      intervals has an endpoint of each on its boundary, so it scores 2 and
      is the whole mode, although no measurement interval overlaps it. */
  method ModeOfDisjointPair() returns (mode: seq<Interval>, maxMu: nat)
    ensures mode == [Interval(Eps, 10.0 - Eps)] && maxMu == 2
  {
    var data := [0.0, 10.0];
    mode, maxMu := ModeAndMaxClick(data);
    var gap := Interval(Eps, 10.0 - Eps);
    assert data[0] == 0.0 && data[1] == 10.0;
    assert forall x :: IsEndpoint(x, data) <==> x == -Eps || x == Eps || x == 10.0 - Eps || x == 10.0 + Eps;
    assert IsElementaryCell(gap, data);
    assert data[1..] == [10.0] && data[1..][1..] == [];
    assert Coverage(gap, data) == 2;
    assert maxMu == 2;
    assert forall c :: IsElementaryCell(c, data) && Coverage(c, data) == 2 ==> c == gap;
    assert mode[0] in mode;
    OrderedSameMembers(mode, [gap]);
  }
}
