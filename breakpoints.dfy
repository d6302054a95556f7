/** The first half of `mode_and_max_click` (lab9/src/lab9.py:75-83): the list
    `y` of all interval endpoints, its deduplication and sorting, and the list
    `z` of elementary cells between consecutive breakpoints. */
module Breakpoints {
  import opened Measurements

  /** `list(set(y))`: the same values, each once. Python's set order is
      arbitrary; this keeps first occurrences, which the sort below erases. */
  method Dedup(y: seq<real>) returns (u: seq<real>)
    ensures forall x :: x in u <==> x in y
    ensures Distinct(u)
    ensures |u| <= |y|
  {
    u := [];
    for i := 0 to |y|
      invariant forall x :: x in u <==> x in y[..i]
      invariant Distinct(u)
      invariant |u| <= i
    {
      assert y[..i + 1] == y[..i] + [y[i]];
      if y[i] !in u {
        u := u + [y[i]];
      }
    }
    assert y[..|y|] == y;
  }

  method Swap(a: array<real>, i: int, j: int)
    requires 0 <= i < a.Length && 0 <= j < a.Length
    modifies a
    ensures a[i] == old(a[j]) && a[j] == old(a[i])
    ensures forall k :: 0 <= k < a.Length && k != i && k != j ==> a[k] == old(a[k])
    ensures multiset(a[..]) == old(multiset(a[..]))
  {
    a[i], a[j] := a[j], a[i];
  }

  /** `y.sort()` on a list without repeated values: afterwards it is strictly
      increasing and holds the same values. */
  method SortInPlace(a: array<real>)
    requires Distinct(a[..])
    modifies a
    ensures StrictlyIncreasing(a[..])
    ensures multiset(a[..]) == old(multiset(a[..]))
  {
    var i := 0;
    while i < a.Length
      invariant 0 <= i <= a.Length
      invariant Distinct(a[..])
      invariant forall p, q :: 0 <= p < q < i ==> a[p] < a[q]
      invariant forall p, q :: 0 <= p < i <= q < a.Length ==> a[p] < a[q]
      invariant multiset(a[..]) == old(multiset(a[..]))
    {
      var m := i;
      var j := i + 1;
      while j < a.Length
        invariant i <= m < a.Length && i < j <= a.Length
        invariant forall k :: i <= k < j ==> a[m] <= a[k]
      {
        if a[j] < a[m] {
          m := j;
        }
        j := j + 1;
      }
      Swap(a, i, m);
      i := i + 1;
    }
  }

  /** Lines 75-80: every endpoint `d - Eps`, `d + Eps`, deduplicated and
      sorted. The result is strictly increasing and holds exactly the endpoints. */
  method SortedBreakpoints(data: seq<real>) returns (y: seq<real>)
    ensures StrictlyIncreasing(y)
    ensures forall x :: x in y <==> IsEndpoint(x, data)
    ensures |y| <= 2 * |data|
  {
    var raw: seq<real> := [];
    for i := 0 to |data|
      invariant |raw| == 2 * i
      invariant forall x :: x in raw <==> exists k :: 0 <= k < i && (x == data[k] - Eps || x == data[k] + Eps)
    {
      raw := raw + [data[i] - Eps];
      raw := raw + [data[i] + Eps];
    }
    var u := Dedup(raw);
    var a := new real[|u|];
    for k := 0 to |u|
      invariant a[..k] == u[..k]
    {
      a[k] := u[k];
    }
    assert a[..] == u;
    SortInPlace(a);
    y := a[..];
    forall x
      ensures x in y <==> x in u
    {
      assert x in y <==> x in multiset(y);
      assert x in u <==> x in multiset(u);
    }
  }

  /** Lines 81-83: `z[i] = [y[i], y[i+1]]` for every consecutive pair. */
  method Cells(y: seq<real>) returns (z: seq<Interval>)
    ensures |z| == if |y| == 0 then 0 else |y| - 1
    ensures forall i :: 0 <= i < |z| ==> z[i] == Interval(y[i], y[i + 1])
    ensures StrictlyIncreasing(y) ==> Ordered(z) && forall i :: 0 <= i < |z| ==> z[i].lo < z[i].hi
  {
    z := [];
    var n := if |y| == 0 then 0 else |y| - 1;
    for i := 0 to n
      invariant |z| == i
      invariant forall k :: 0 <= k < i ==> z[k] == Interval(y[k], y[k + 1])
    {
      z := z + [Interval(y[i], y[i + 1])];
    }
    if StrictlyIncreasing(y) {
      forall i, j | 0 <= i < j < |z|
        ensures z[i].hi <= z[j].lo
      {
        assert z[i] == Interval(y[i], y[i + 1]) && z[j] == Interval(y[j], y[j + 1]);
        assert i + 1 == j || y[i + 1] < y[j];
      }
      forall i | 0 <= i < |z|
        ensures z[i].lo < z[i].hi
      {
        assert z[i] == Interval(y[i], y[i + 1]);
      }
    }
  }

  /** The cells built from the sorted breakpoints are exactly the elementary
      cells of the data: each `z[i]` is one, and every elementary cell is some `z[i]`. */
  lemma CellsAreElementary(data: seq<real>, y: seq<real>, z: seq<Interval>)
    requires StrictlyIncreasing(y)
    requires forall x :: x in y <==> IsEndpoint(x, data)
    requires |z| == if |y| == 0 then 0 else |y| - 1
    requires forall i :: 0 <= i < |z| ==> z[i] == Interval(y[i], y[i + 1])
    ensures forall i :: 0 <= i < |z| ==> IsElementaryCell(z[i], data)
    ensures forall c :: IsElementaryCell(c, data) ==> c in z
  {
    forall i | 0 <= i < |z|
      ensures IsElementaryCell(z[i], data)
    {
      assert y[i] in y && y[i + 1] in y;
      forall x | z[i].lo < x < z[i].hi
        ensures !IsEndpoint(x, data)
      {
      }
    }
    forall c | IsElementaryCell(c, data)
      ensures c in z
    {
      assert c.lo in y && c.hi in y;
      var p :| 0 <= p < |y| && y[p] == c.lo;
      var q :| 0 <= q < |y| && y[q] == c.hi;
      assert p < q;
      if p + 1 < |y| {
        assert y[p + 1] in y && IsEndpoint(y[p + 1], data);
      }
      assert q == p + 1;
      assert z[p] == c;
    }
  }
}
