/** Row transforms over a (traces, data) pair: dropping back-to-back duplicate
    captures, keeping the rising or the settled transitions, and the discrete
    derivative along the capture axis. */
module Preprocess {
  import opened Wrappers
  import opened Rows

  // ---------------------------------------------------------------------------
  // clean_traces

  /** Positions `clean_traces` keeps: 0, and every i+1 whose trace differs from
      trace i. */
  function KeptIdx(traces: seq<Row>): (idx: seq<nat>)
    requires |traces| > 0
    ensures |idx| > 0 && idx[0] == 0
    ensures Increasing(idx)
    ensures forall k :: 0 <= k < |idx| ==> idx[k] < |traces|
    ensures forall i :: 0 <= i < |traces| - 1 ==> (i + 1 in idx <==> traces[i] != traces[i + 1])
    decreases |traces|
  {
    if |traces| == 1 then [0]
    else
      var n := |traces| - 1;
      var prev := KeptIdx(traces[..n]);
      assert forall i :: 0 <= i < n ==> traces[..n][i] == traces[i];
      prev + (if traces[n - 1] != traces[n] then [n] else [])
  }

  /** Extending the scanned prefix by one trace adds its position exactly when
      it differs from the trace before it. */
  lemma KeptIdxSnoc(traces: seq<Row>, i: nat)
    requires i + 1 < |traces|
    ensures KeptIdx(traces[..i + 2])
              == KeptIdx(traces[..i + 1]) + (if traces[i] != traces[i + 1] then [i + 1] else [])
  {
    assert traces[..i + 2][..i + 1] == traces[..i + 1];
  }

  /** No trace equals the one right before it. */
  ghost predicate NoAdjacentRepeats(rows: seq<Row>)
  {
    forall k :: 0 <= k < |rows| - 1 ==> rows[k] != rows[k + 1]
  }

  /** `clean_traces(traces, data)` indexes `traces[0]`, so it fails on an
      empty list, and it indexes `data` at every kept position, so it fails
      when some kept trace has no metadata record. */
  datatype CleanError = EmptyTraces | MissingRecord

  /** Every position `clean_traces` keeps has a metadata record. */
  ghost predicate RecordsCover(traces: seq<Row>, data: seq<Meta>)
    requires |traces| > 0
  {
    forall k :: 0 <= k < |KeptIdx(traces)| ==> KeptIdx(traces)[k] < |data|
  }

  /** `clean_traces(traces, data)`: keeps row 0 and every row that differs from
      the row before it, with its metadata record. */
  method CleanTraces(traces: seq<Row>, data: seq<Meta>) returns (r: Result<Paired, CleanError>)
    requires Uniform(traces)
    ensures r.Failure? <==> |traces| == 0 || !RecordsCover(traces, data)
    ensures r.Failure? ==> (r.error == EmptyTraces <==> |traces| == 0)
    ensures r.Success? ==> r.value.traces == Pick(traces, KeptIdx(traces))
    ensures r.Success? ==> r.value.data == Pick(data, KeptIdx(traces))
    ensures r.Success? ==> |r.value.traces| > 0 && r.value.traces[0] == traces[0]
    ensures r.Success? ==> NoAdjacentRepeats(r.value.traces)
  {
    if |traces| == 0 {
      return Failure(EmptyTraces);
    }
    if |data| == 0 {
      assert KeptIdx(traces)[0] == 0;
      return Failure(MissingRecord);
    }
    var t := [traces[0]];
    var d := [data[0]];
    var i := 0;
    assert traces[..1] == [traces[0]];
    while i < |traces| - 1
      invariant 0 <= i <= |traces| - 1
      invariant InBounds(data, KeptIdx(traces[..i + 1]))
      invariant t == Pick(traces, KeptIdx(traces[..i + 1]))
      invariant d == Pick(data, KeptIdx(traces[..i + 1]))
    {
      if traces[i] != traces[i + 1] {
        if i + 1 >= |data| {
          MissingRecordAt(traces, data, i + 1);
          return Failure(MissingRecord);
        }
        CleanStep(traces, data, i);
        t := t + [traces[i + 1]];
        d := d + [data[i + 1]];
      } else {
        CleanStep(traces, data, i);
      }
      i := i + 1;
    }
    CleanDone(traces, data, i);
    return Success(Paired(t, d));
  }

  /** One iteration of the loop of `clean_traces`: scanning trace i+1 appends
      it and its record exactly when it differs from trace i. */
  lemma CleanStep(traces: seq<Row>, data: seq<Meta>, i: nat)
    requires i + 1 < |traces| && InBounds(data, KeptIdx(traces[..i + 1]))
    requires traces[i] != traces[i + 1] ==> i + 1 < |data|
    ensures InBounds(data, KeptIdx(traces[..i + 2]))
    ensures Pick(traces, KeptIdx(traces[..i + 2]))
              == Pick(traces, KeptIdx(traces[..i + 1])) + (if traces[i] != traces[i + 1] then [traces[i + 1]] else [])
    ensures Pick(data, KeptIdx(traces[..i + 2]))
              == Pick(data, KeptIdx(traces[..i + 1])) + (if traces[i] != traces[i + 1] then [data[i + 1]] else [])
  {
    var idx := KeptIdx(traces[..i + 1]);
    KeptIdxSnoc(traces, i);
    if traces[i] != traces[i + 1] {
      PickSnoc(traces, idx, i + 1);
      PickSnoc(data, idx, i + 1);
    }
  }

  /** When the loop has scanned every trace, it has kept what `KeptIdx`
      names, every kept trace has a record, and no two kept traces in a row
      are equal. */
  lemma CleanDone(traces: seq<Row>, data: seq<Meta>, i: nat)
    requires i + 1 == |traces| && InBounds(data, KeptIdx(traces[..i + 1]))
    ensures traces[..i + 1] == traces
    ensures RecordsCover(traces, data)
    ensures NoAdjacentRepeats(Pick(traces, KeptIdx(traces)))
  {
    assert traces[..i + 1] == traces;
    KeptHasNoAdjacentRepeats(traces);
  }

  /** A kept position past the last record leaves a kept trace without one. */
  lemma MissingRecordAt(traces: seq<Row>, data: seq<Meta>, j: nat)
    requires 0 < j < |traces| && traces[j - 1] != traces[j] && j >= |data|
    ensures !RecordsCover(traces, data)
  {
    var idx := KeptIdx(traces);
    assert j in idx;
    var k :| 0 <= k < |idx| && idx[k] == j;
  }

  /** Between two consecutive kept positions every trace equals the first, so
      the trace at the second differs from the trace at the first. */
  lemma {:induction false} KeptHasNoAdjacentRepeats(traces: seq<Row>)
    requires |traces| > 0
    ensures NoAdjacentRepeats(Pick(traces, KeptIdx(traces)))
  {
    var idx := KeptIdx(traces);
    forall k | 0 <= k < |idx| - 1
      ensures traces[idx[k]] != traces[idx[k + 1]]
    {
      var a, b := idx[k], idx[k + 1];
      RunBetweenKept(traces, idx, k, b - 1);
      assert traces[b - 1] != traces[b] by {
        assert b in idx;
      }
    }
  }

  /** For a kept position a = idx[k] and any j < idx[k+1], trace j equals trace a. */
  lemma {:induction false} RunBetweenKept(traces: seq<Row>, idx: seq<nat>, k: nat, j: nat)
    requires |traces| > 0 && idx == KeptIdx(traces)
    requires k + 1 < |idx| && idx[k] <= j < idx[k + 1]
    ensures traces[j] == traces[idx[k]]
    decreases j - idx[k]
  {
    if j > idx[k] {
      RunBetweenKept(traces, idx, k, j - 1);
      assert j !in idx by {
        forall m | 0 <= m < |idx|
          ensures idx[m] != j
        {
          if m <= k {
            assert idx[m] <= idx[k];
          } else {
            assert idx[k + 1] <= idx[m];
          }
        }
      }
      assert traces[j - 1] == traces[j];
    }
  }

  // ---------------------------------------------------------------------------
  // traces_from_zero_to_not_zero / traces_from_not_zero_to_zero

  /** `sum(data[i][0]) > 0`: the input at t1 has some bit set. */
  predicate Rising(input: seq<int>)
  {
    SumInts(input) > 0
  }

  /** `sum(data[i][0]) == 0`: the input at t1 is all zeros. */
  predicate Settled(input: seq<int>)
  {
    SumInts(input) == 0
  }

  /** The pairs among the first n whose input satisfies `p`, in order: the
      loop `for i in range(n): if p(data[i][0]): t += [traces[i]]; d += [data[i]]`. */
  function SelectPairs(traces: seq<Row>, data: seq<Meta>, n: nat, p: seq<int> -> bool): (r: Paired)
    requires n <= |traces| && n <= |data|
    ensures r.traces == Pick(traces, IndicesWhere(data, n, p))
    ensures r.data == Pick(data, IndicesWhere(data, n, p))
    decreases n
  {
    if n == 0 then Paired([], [])
    else
      var prev := SelectPairs(traces, data, n - 1, p);
      var idx := IndicesWhere(data, n - 1, p);
      if p(data[n - 1].input) then
        assert IndicesWhere(data, n, p) == idx + [n - 1];
        PickSnoc(traces, idx, n - 1);
        PickSnoc(data, idx, n - 1);
        Paired(prev.traces + [traces[n - 1]], prev.data + [data[n - 1]])
      else
        assert IndicesWhere(data, n, p) == idx;
        prev
  }

  /** `traces_from_zero_to_not_zero(traces, data)`: the pairs whose input is
      not all zeros, in order. */
  function FromZeroToNotZero(traces: seq<Row>, data: seq<Meta>): (r: Paired)
    requires |traces| <= |data|
    ensures r.traces == Pick(traces, IndicesWhere(data, |traces|, Rising))
    ensures r.data == Pick(data, IndicesWhere(data, |traces|, Rising))
    ensures forall k :: 0 <= k < |r.data| ==> SumInts(r.data[k].input) > 0
  {
    SelectPairs(traces, data, |traces|, Rising)
  }

  /** `traces_from_not_zero_to_zero(traces, data)`: the pairs whose input is
      all zeros, in order. */
  function FromNotZeroToZero(traces: seq<Row>, data: seq<Meta>): (r: Paired)
    requires |traces| <= |data|
    ensures r.traces == Pick(traces, IndicesWhere(data, |traces|, Settled))
    ensures r.data == Pick(data, IndicesWhere(data, |traces|, Settled))
    ensures forall k :: 0 <= k < |r.data| ==> SumInts(r.data[k].input) == 0
  {
    SelectPairs(traces, data, |traces|, Settled)
  }

  lemma {:induction false} SumNonNegative(xs: seq<int>)
    requires forall k :: 0 <= k < |xs| ==> xs[k] >= 0
    ensures SumInts(xs) >= 0
    decreases |xs|
  {
    if xs != [] {
      SumNonNegative(xs[1..]);
    }
  }

  /** For non-negative bit vectors the two filters split the pairs: every
      position goes to exactly one of them, so their sizes add up. */
  lemma {:induction false} TransitionFiltersPartition(traces: seq<Row>, data: seq<Meta>)
    requires |traces| <= |data|
    requires forall i, k :: 0 <= i < |data| && 0 <= k < |data[i].input| ==> data[i].input[k] >= 0
    ensures forall i :: 0 <= i < |traces| ==>
              (i in IndicesWhere(data, |traces|, Rising)) != (i in IndicesWhere(data, |traces|, Settled))
    ensures |FromZeroToNotZero(traces, data).traces| + |FromNotZeroToZero(traces, data).traces| == |traces|
  {
    forall i | 0 <= i < |data|
      ensures Rising(data[i].input) != Settled(data[i].input)
    {
      SumNonNegative(data[i].input);
    }
    ComplementSizes(data, |traces|, Rising, Settled);
  }

  // ---------------------------------------------------------------------------
  // deriv

  /** Elementwise `a - b`. */
  function Sub(a: Row, b: Row): (r: Row)
    requires |a| == |b|
    ensures |r| == |a|
    ensures forall j :: 0 <= j < |r| ==> r[j] == a[j] - b[j]
  {
    seq(|a|, j requires 0 <= j < |a| => a[j] - b[j])
  }

  /** Elementwise `a + b`. */
  function Add(a: Row, b: Row): (r: Row)
    requires |a| == |b|
    ensures |r| == |a|
    ensures forall j :: 0 <= j < |r| ==> r[j] == a[j] + b[j]
  {
    seq(|a|, j requires 0 <= j < |a| => a[j] + b[j])
  }

  /** The differences `traces[i+1] - traces[i]` for i < n. */
  function Diffs(traces: seq<Row>, n: nat): (dif: seq<Row>)
    requires Uniform(traces) && n < |traces|
    ensures |dif| == n
    ensures forall i :: 0 <= i < n ==> dif[i] == Sub(traces[i + 1], traces[i])
    decreases n
  {
    if n == 0 then [] else Diffs(traces, n - 1) + [Sub(traces[n], traces[n - 1])]
  }

  /** `deriv(traces, data)`: N-1 difference rows (none for N < 2), each paired
      with the later of its two captures' metadata, `data[1:]`. */
  function Deriv(traces: seq<Row>, data: seq<Meta>): (r: Paired)
    requires Uniform(traces)
    ensures |r.traces| == if |traces| == 0 then 0 else |traces| - 1
    ensures forall i :: 0 <= i < |r.traces| ==> r.traces[i] == Sub(traces[i + 1], traces[i])
    ensures forall i :: 0 <= i < |r.traces| ==> |r.traces[i]| == |traces[0]|
    ensures r.data == if data == [] then [] else data[1..]
  {
    var dif := if |traces| == 0 then [] else Diffs(traces, |traces| - 1);
    assert forall i :: 0 <= i < |dif| ==> |dif[i]| == |traces[i + 1]| == |traces[0]|;
    Paired(dif, if data == [] then [] else data[1..])
  }

  /** Running sums from `x`: x, x + ds[0], x + ds[0] + ds[1], … */
  function Integrate(x: Row, ds: seq<Row>): (r: seq<Row>)
    requires forall k :: 0 <= k < |ds| ==> |ds[k]| == |x|
    decreases |ds|
  {
    if ds == [] then [x] else [x] + Integrate(Add(x, ds[0]), ds[1..])
  }

  /** The derivative loses nothing but the first trace: summing it up from
      trace 0 gives back every trace. */
  lemma DerivInverse(traces: seq<Row>, data: seq<Meta>)
    requires Uniform(traces) && |traces| > 0
    ensures Integrate(traces[0], Deriv(traces, data).traces) == traces
  {
    IntegrateDiffs(traces, Deriv(traces, data).traces);
  }

  lemma {:induction false} IntegrateDiffs(xs: seq<Row>, ds: seq<Row>)
    requires Uniform(xs) && |xs| == |ds| + 1
    requires forall i :: 0 <= i < |ds| ==> ds[i] == Sub(xs[i + 1], xs[i])
    ensures forall k :: 0 <= k < |ds| ==> |ds[k]| == |xs[0]|
    ensures Integrate(xs[0], ds) == xs
    decreases |ds|
  {
    if ds != [] {
      assert |ds[0]| == |xs[1]| == |xs[0]|;
      assert Add(xs[0], ds[0]) == xs[1];
      IntegrateDiffs(xs[1..], ds[1..]);
      assert xs == [xs[0]] + xs[1..];
    }
  }

  /** With as many records as traces, the derivative keeps them paired. */
  lemma DerivKeepsPairs(traces: seq<Row>, data: seq<Meta>)
    requires Uniform(traces) && |traces| == |data|
    ensures |Deriv(traces, data).traces| == |Deriv(traces, data).data|
  {
  }
}
