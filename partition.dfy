/** The loop of `diagram_with_mode` (lab9/src/lab9.py:38-50) that splits the
    measurements into those inside a mode cell and the rest; the plotting
    that follows it is not modelled. */
module Partition {
  import opened Measurements
  import Mode

  /** The test of line 43: the mode cell lies inside the measurement's interval. */
  predicate CellWithin(m: Interval, d: real)
  {
    m.lo >= d - Eps && m.hi <= d + Eps
  }

  /** Some mode cell lies inside the measurement's interval. */
  predicate InMode(d: real, mode: seq<Interval>)
  {
    exists m :: m in mode && CellWithin(m, d)
  }

  predicate Increasing(s: seq<int>)
  {
    forall i, j :: 0 <= i < j < |s| ==> s[i] < s[j]
  }

  /** Lines 38-50: every index goes to exactly one of the two lists, in
      increasing order, with its measurement alongside. */
  method PartitionByMode(data: seq<real>, mode: seq<Interval>)
    returns (dataMode: seq<real>, dataNotMode: seq<real>, indexMode: seq<int>, indexNotMode: seq<int>)
    ensures Increasing(indexMode) && Increasing(indexNotMode)
    ensures forall i :: i in indexMode <==> 0 <= i < |data| && InMode(data[i], mode)
    ensures forall i :: i in indexNotMode <==> 0 <= i < |data| && !InMode(data[i], mode)
    ensures |indexMode| + |indexNotMode| == |data|
    ensures |dataMode| == |indexMode| && forall j :: 0 <= j < |indexMode| ==> 0 <= indexMode[j] < |data| && dataMode[j] == data[indexMode[j]]
    ensures |dataNotMode| == |indexNotMode| && forall j :: 0 <= j < |indexNotMode| ==> 0 <= indexNotMode[j] < |data| && dataNotMode[j] == data[indexNotMode[j]]
  {
    dataMode, dataNotMode := [], [];
    indexMode, indexNotMode := [], [];
    for i := 0 to |data|
      invariant Increasing(indexMode) && Increasing(indexNotMode)
      invariant forall t :: t in indexMode <==> 0 <= t < i && InMode(data[t], mode)
      invariant forall t :: t in indexNotMode <==> 0 <= t < i && !InMode(data[t], mode)
      invariant |indexMode| + |indexNotMode| == i
      invariant |dataMode| == |indexMode| && forall j :: 0 <= j < |indexMode| ==> 0 <= indexMode[j] < |data| && dataMode[j] == data[indexMode[j]]
      invariant |dataNotMode| == |indexNotMode| && forall j :: 0 <= j < |indexNotMode| ==> 0 <= indexNotMode[j] < |data| && dataNotMode[j] == data[indexNotMode[j]]
    {
      var d := data[i];
      var inMode := false;
      var j := 0;
      while j < |mode|
        invariant 0 <= j <= |mode|
        invariant !inMode
        invariant forall t :: 0 <= t < j ==> !CellWithin(mode[t], d)
      {
        if CellWithin(mode[j], d) {
          dataMode := dataMode + [d];
          indexMode := indexMode + [i];
          inMode := true;
          break;
        }
        j := j + 1;
      }
      if !inMode {
        dataNotMode := dataNotMode + [d];
        indexNotMode := indexNotMode + [i];
      }
    }
  }

  /** For the two far-apart measurements 0 and 10 the mode is the gap cell
      between their intervals, which lies inside neither: no measurement is
      drawn as part of the mode. */
  method PartitionOfDisjointPair() returns (indexMode: seq<int>, indexNotMode: seq<int>)
    ensures indexMode == [] && indexNotMode == [0, 1]
  {
    var data := [0.0, 10.0];
    var mode, maxMu := Mode.ModeOfDisjointPair();
    var dataMode, dataNotMode;
    dataMode, dataNotMode, indexMode, indexNotMode := PartitionByMode(data, mode);
    assert !InMode(data[0], mode) && !InMode(data[1], mode);
    assert 0 in indexNotMode && 1 in indexNotMode;
    var p :| 0 <= p < |indexNotMode| && indexNotMode[p] == 0;
    var q :| 0 <= q < |indexNotMode| && indexNotMode[q] == 1;
    assert p < q;
    assert |indexNotMode| == 2 && indexMode == [];
  }
}
