/** The partition-based leakage statistics: splitting traces by a caller's
    selection function over the input bits, and the Difference of Means. */
module Leakage {
  import opened Rows

  /** Rows whose selection is false (`set0`) and true (`set1`). */
  datatype Split = Split(set0: seq<Row>, set1: seq<Row>)

  /** The split of the first n traces by `sel(data[i][0])`, each side in order. */
  function SplitBy(data: seq<Meta>, traces: seq<Row>, n: nat, sel: seq<int> -> bool): (r: Split)
    requires n <= |data| && n <= |traces|
    ensures r.set1 == Pick(traces, IndicesWhere(data, n, sel))
    ensures r.set0 == Pick(traces, IndicesWhere(data, n, Not(sel)))
    decreases n
  {
    if n == 0 then Split([], [])
    else
      var prev := SplitBy(data, traces, n - 1, sel);
      var x := data[n - 1].input;
      assert Not(sel)(x) == !sel(x);
      PickSelectedStep(data, traces, n, sel);
      PickSelectedStep(data, traces, n, Not(sel));
      if sel(x) then Split(prev.set0, prev.set1 + [traces[n - 1]])
      else Split(prev.set0 + [traces[n - 1]], prev.set1)
  }

  /** Selecting over one more record appends its trace when it is selected. */
  lemma PickSelectedStep(data: seq<Meta>, traces: seq<Row>, n: nat, p: seq<int> -> bool)
    requires 0 < n <= |data| && n <= |traces|
    ensures Pick(traces, IndicesWhere(data, n, p))
              == Pick(traces, IndicesWhere(data, n - 1, p)) + (if p(data[n - 1].input) then [traces[n - 1]] else [])
  {
    var idx := IndicesWhere(data, n - 1, p);
    if p(data[n - 1].input) {
      PickSnoc(traces, idx, n - 1);
    } else {
      assert IndicesWhere(data, n, p) == idx;
    }
  }

  /** Sum of column j over the rows. */
  function ColumnSum(rows: seq<Row>, j: nat): real
    requires forall k :: 0 <= k < |rows| ==> j < |rows[k]|
    decreases |rows|
  {
    if rows == [] then 0.0 else ColumnSum(rows[..|rows| - 1], j) + rows[|rows| - 1][j]
  }

  /** `np.mean(rows, axis=0)[j]`. */
  function ColumnMean(rows: seq<Row>, j: nat): real
    requires |rows| > 0
    requires forall k :: 0 <= k < |rows| ==> j < |rows[k]|
  {
    ColumnSum(rows, j) / (|rows| as real)
  }

  /** What `DoM` returns: the mean difference and the two groups. */
  datatype DoMResult = DoMResult(diff: Row, set0: seq<Row>, set1: seq<Row>)

  /** Both groups of the split over the first n records are non-empty. */
  ghost predicate BothGroups(data: seq<Meta>, n: nat, sel: seq<int> -> bool)
    requires n <= |data|
  {
    (exists i :: 0 <= i < n && sel(data[i].input)) && (exists i :: 0 <= i < n && !sel(data[i].input))
  }

  /** Rows picked from uniform traces keep the traces' width. */
  lemma PickKeepsWidth(traces: seq<Row>, idx: seq<nat>)
    requires Uniform(traces) && |traces| > 0 && InBounds(traces, idx)
    ensures forall k :: 0 <= k < |idx| ==> |Pick(traces, idx)[k]| == |traces[0]|
  {
  }

  lemma GroupsNonEmpty(data: seq<Meta>, n: nat, sel: seq<int> -> bool)
    requires n <= |data| && BothGroups(data, n, sel)
    ensures |IndicesWhere(data, n, sel)| > 0 && |IndicesWhere(data, n, Not(sel))| > 0
  {
    var i1 :| 0 <= i1 < n && sel(data[i1].input);
    var i0 :| 0 <= i0 < n && !sel(data[i0].input);
    assert i1 in IndicesWhere(data, n, sel);
    assert Not(sel)(data[i0].input);
    assert i0 in IndicesWhere(data, n, Not(sel));
  }

  /** Column-wise mean of `set1` minus mean of `set0`, over w columns. */
  function MeanDiff(set1: seq<Row>, set0: seq<Row>, w: nat): (diff: Row)
    requires |set1| > 0 && |set0| > 0
    requires forall k :: 0 <= k < |set1| ==> |set1[k]| == w
    requires forall k :: 0 <= k < |set0| ==> |set0[k]| == w
    ensures |diff| == w
    ensures forall j :: 0 <= j < w ==> diff[j] == ColumnMean(set1, j) - ColumnMean(set0, j)
  {
    seq(w, j requires 0 <= j < w => ColumnMean(set1, j) - ColumnMean(set0, j))
  }

  /** `DoM(data, traces, sel_func)`: splits the rows `l < len(data)` by
      `sel_func(data[l][0])` and returns, per sample column, the mean of the
      selected traces minus the mean of the others, with both groups. An empty
      group (NaN in numpy) is excluded by the precondition. */
  function DoM(data: seq<Meta>, traces: seq<Row>, sel: seq<int> -> bool): (r: DoMResult)
    requires |data| <= |traces| && Uniform(traces)
    requires BothGroups(data, |data|, sel)
    ensures r.set1 == Pick(traces, IndicesWhere(data, |data|, sel))
    ensures r.set0 == Pick(traces, IndicesWhere(data, |data|, Not(sel)))
    ensures |r.set0| > 0 && |r.set1| > 0 && |r.set0| + |r.set1| == |data|
    ensures |r.diff| == |traces[0]|
    ensures forall k :: 0 <= k < |r.set0| ==> |r.set0[k]| == |traces[0]|
    ensures forall k :: 0 <= k < |r.set1| ==> |r.set1[k]| == |traces[0]|
    ensures forall j :: 0 <= j < |r.diff| ==> r.diff[j] == ColumnMean(r.set1, j) - ColumnMean(r.set0, j)
  {
    var s := Groups(data, traces, sel);
    DoMResult(MeanDiff(s.set1, s.set0, |traces[0]|), s.set0, s.set1)
  }

  /** The two groups `DoM` averages: both non-empty, together as many as the
      records, and every row as wide as the traces. */
  function Groups(data: seq<Meta>, traces: seq<Row>, sel: seq<int> -> bool): (s: Split)
    requires |data| <= |traces| && Uniform(traces)
    requires BothGroups(data, |data|, sel)
    ensures |traces| > 0
    ensures s.set1 == Pick(traces, IndicesWhere(data, |data|, sel))
    ensures s.set0 == Pick(traces, IndicesWhere(data, |data|, Not(sel)))
    ensures |s.set0| > 0 && |s.set1| > 0 && |s.set0| + |s.set1| == |data|
    ensures forall k :: 0 <= k < |s.set0| ==> |s.set0[k]| == |traces[0]|
    ensures forall k :: 0 <= k < |s.set1| ==> |s.set1[k]| == |traces[0]|
  {
    IndicesWhereSplit(data, |data|, sel);
    GroupsNonEmpty(data, |data|, sel);
    PickKeepsWidth(traces, IndicesWhere(data, |data|, sel));
    PickKeepsWidth(traces, IndicesWhere(data, |data|, Not(sel)));
    SplitBy(data, traces, |data|, sel)
  }

  /** `definition_h0_h1(data, traces, sel_fun)`: the same split, over the rows
      `i < len(traces)`; returns (h0, h1). */
  function DefinitionH0H1(data: seq<Meta>, traces: seq<Row>, sel: seq<int> -> bool): (r: Split)
    requires |traces| <= |data|
    ensures r.set1 == Pick(traces, IndicesWhere(data, |traces|, sel))
    ensures r.set0 == Pick(traces, IndicesWhere(data, |traces|, Not(sel)))
    ensures |r.set0| + |r.set1| == |traces|
  {
    IndicesWhereSplit(data, |traces|, sel);
    SplitBy(data, traces, |traces|, sel)
  }

  /** With as many records as traces, `DoM` and `definition_h0_h1` form the
      same two groups. */
  lemma DoMAndH0H1Agree(data: seq<Meta>, traces: seq<Row>, sel: seq<int> -> bool)
    requires |data| == |traces| && Uniform(traces)
    requires BothGroups(data, |data|, sel)
    ensures DefinitionH0H1(data, traces, sel) == Split(DoM(data, traces, sel).set0, DoM(data, traces, sel).set1)
  {
  }

  lemma {:induction false} ColumnSumConstant(rows: seq<Row>, c: Row, j: nat)
    requires j < |c|
    requires forall k :: 0 <= k < |rows| ==> rows[k] == c
    ensures ColumnSum(rows, j) == (|rows| as real) * c[j]
    decreases |rows|
  {
    if rows != [] {
      ColumnSumConstant(rows[..|rows| - 1], c, j);
    }
  }

  lemma ColumnMeanConstant(rows: seq<Row>, c: Row, j: nat)
    requires |rows| > 0 && j < |c|
    requires forall k :: 0 <= k < |rows| ==> rows[k] == c
    ensures ColumnMean(rows, j) == c[j]
  {
    ColumnSumConstant(rows, c, j);
    var n := |rows| as real;
    assert n * c[j] / n == c[j];
  }

  /** When every trace is the same, whatever the split, the difference of
      means is zero in every column: no leakage is reported. */
  lemma DoMOfIdenticalTracesIsZero(data: seq<Meta>, traces: seq<Row>, sel: seq<int> -> bool)
    requires |data| <= |traces| && Uniform(traces)
    requires BothGroups(data, |data|, sel)
    requires forall i :: 0 <= i < |traces| ==> traces[i] == traces[0]
    ensures forall j :: 0 <= j < |DoM(data, traces, sel).diff| ==> DoM(data, traces, sel).diff[j] == 0.0
  {
    var r := DoM(data, traces, sel);
    var c := traces[0];
    PickedAreConstant(data, traces, sel, c);
    PickedAreConstant(data, traces, Not(sel), c);
    SameConstantGroups(r, c);
  }

  /** Two groups holding only copies of one row have zero mean difference. */
  lemma SameConstantGroups(r: DoMResult, c: Row)
    requires |r.set0| > 0 && |r.set1| > 0 && |r.diff| == |c|
    requires forall k :: 0 <= k < |r.set0| ==> r.set0[k] == c
    requires forall k :: 0 <= k < |r.set1| ==> r.set1[k] == c
    requires forall j :: 0 <= j < |r.diff| ==> r.diff[j] == ColumnMean(r.set1, j) - ColumnMean(r.set0, j)
    ensures forall j :: 0 <= j < |r.diff| ==> r.diff[j] == 0.0
  {
    forall j | 0 <= j < |r.diff|
      ensures r.diff[j] == 0.0
    {
      ColumnMeanConstant(r.set0, c, j);
      ColumnMeanConstant(r.set1, c, j);
    }
  }

  /** Picking the positions where p holds, out of traces that equal c wherever
      p holds, yields only copies of c. */
  lemma PickedAreConstant(data: seq<Meta>, traces: seq<Row>, p: seq<int> -> bool, c: Row)
    requires |data| <= |traces|
    requires forall i :: 0 <= i < |data| && p(data[i].input) ==> traces[i] == c
    ensures forall k :: 0 <= k < |IndicesWhere(data, |data|, p)| ==>
              Pick(traces, IndicesWhere(data, |data|, p))[k] == c
  {
  }

  /** The difference of means of two constant groups is the difference of
      their rows. */
  lemma MeanDiffOfConstants(set1: seq<Row>, set0: seq<Row>, c1: Row, c0: Row)
    requires |set1| > 0 && |set0| > 0 && |c1| == |c0|
    requires forall k :: 0 <= k < |set1| ==> set1[k] == c1
    requires forall k :: 0 <= k < |set0| ==> set0[k] == c0
    ensures forall j :: 0 <= j < |c0| ==> ColumnMean(set1, j) - ColumnMean(set0, j) == c1[j] - c0[j]
  {
    forall j | 0 <= j < |c0|
      ensures ColumnMean(set1, j) - ColumnMean(set0, j) == c1[j] - c0[j]
    {
      ColumnMeanConstant(set0, c0, j);
      ColumnMeanConstant(set1, c1, j);
    }
  }

  /** When every selected trace equals c1 and every other one equals c0, the
      difference of means is exactly c1 - c0, column by column: `DoM` recovers
      the gap between the two leakage levels. */
  lemma DoMOfTwoLevels(data: seq<Meta>, traces: seq<Row>, sel: seq<int> -> bool, c0: Row, c1: Row)
    requires |data| <= |traces| && Uniform(traces)
    requires BothGroups(data, |data|, sel)
    requires forall i :: 0 <= i < |data| && sel(data[i].input) ==> traces[i] == c1
    requires forall i :: 0 <= i < |data| && !sel(data[i].input) ==> traces[i] == c0
    ensures |c0| == |c1| == |DoM(data, traces, sel).diff|
    ensures forall j :: 0 <= j < |c0| ==> DoM(data, traces, sel).diff[j] == c1[j] - c0[j]
  {
    var r := DoM(data, traces, sel);
    var i1 :| 0 <= i1 < |data| && sel(data[i1].input);
    var i0 :| 0 <= i0 < |data| && !sel(data[i0].input);
    assert |c1| == |traces[0]| by { assert traces[i1] == c1; }
    assert |c0| == |traces[0]| by { assert traces[i0] == c0; }
    PickedAreConstant(data, traces, sel, c1);
    assert forall i :: 0 <= i < |data| && Not(sel)(data[i].input) ==> traces[i] == c0;
    PickedAreConstant(data, traces, Not(sel), c0);
    MeanDiffOfConstants(r.set1, r.set0, c1, c0);
  }

  /** The selection "first input bit is 1". */
  predicate FirstBitSet(input: seq<int>)
  {
    |input| > 0 && input[0] == 1
  }

  lemma ScenarioFacts(data: seq<Meta>, traces: seq<Row>)
    requires data == [Meta([0], []), Meta([0], []), Meta([1], []), Meta([1], [])]
    requires traces == [[1.0, 1.0], [1.0, 1.0], [5.0, 5.0], [5.0, 5.0]]
    ensures |data| == 4 && |data| <= |traces|
    ensures BothGroups(data, 4, FirstBitSet) && Uniform(traces)
    ensures forall i :: 0 <= i < |data| && FirstBitSet(data[i].input) ==> traces[i] == [5.0, 5.0]
    ensures forall i :: 0 <= i < |data| && !FirstBitSet(data[i].input) ==> traces[i] == [1.0, 1.0]
  {
    assert 0 <= 2 < 4 && FirstBitSet(data[2].input);
    assert 0 <= 0 < 4 && !FirstBitSet(data[0].input);
    assert forall i :: 0 <= i < |traces| ==> |traces[i]| == 2;
  }

  /** Two captures at [1,1] with the bit clear and two at [5,5] with it set:
      the difference of means is [4,4]. */
  lemma DoMScenario(data: seq<Meta>, traces: seq<Row>)
    requires data == [Meta([0], []), Meta([0], []), Meta([1], []), Meta([1], [])]
    requires traces == [[1.0, 1.0], [1.0, 1.0], [5.0, 5.0], [5.0, 5.0]]
    ensures BothGroups(data, 4, FirstBitSet) && Uniform(traces)
    ensures DoM(data, traces, FirstBitSet).diff == [4.0, 4.0]
  {
    ScenarioFacts(data, traces);
    TwoLevelsScenario(data, traces);
  }

  lemma TwoLevelsScenario(data: seq<Meta>, traces: seq<Row>)
    requires |data| == 4 && |data| <= |traces|
    requires BothGroups(data, 4, FirstBitSet) && Uniform(traces)
    requires forall i :: 0 <= i < |data| && FirstBitSet(data[i].input) ==> traces[i] == [5.0, 5.0]
    requires forall i :: 0 <= i < |data| && !FirstBitSet(data[i].input) ==> traces[i] == [1.0, 1.0]
    ensures DoM(data, traces, FirstBitSet).diff == [4.0, 4.0]
  {
    var d := DoM(data, traces, FirstBitSet).diff;
    assert |d| == 2 && d[0] == 4.0 && d[1] == 4.0 by {
      DoMOfTwoLevels(data, traces, FirstBitSet, [1.0, 1.0], [5.0, 5.0]);
    }
    RowOfTwo(d, 4.0, 4.0);
  }

  lemma RowOfTwo(d: Row, a: real, b: real)
    requires |d| == 2 && d[0] == a && d[1] == b
    ensures d == [a, b]
  {
  }
}
