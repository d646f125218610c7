/** Shared vocabulary of the analysis pipeline: trace rows, capture batches,
    metadata records, and the sequence operations the loaders and transforms
    are specified with. */
module Rows {

  /** One trace: a vector of samples (float32 in the source, real here). */
  type Row = seq<real>

  /** The rows of one capture file. */
  type Batch = seq<Row>

  /** One metadata record, the source's `[input_bits, output_bits]`;
      `data[i][0]` is `input`. */
  datatype Meta = Meta(input: seq<int>, output: seq<int>)

  /** A list of traces with the metadata records paired with them. */
  datatype Paired = Paired(traces: seq<Row>, data: seq<Meta>)

  /** Total number of elements over all pieces. */
  function TotalLen<T>(bs: seq<seq<T>>): nat
    decreases |bs|
  {
    if bs == [] then 0 else TotalLen(bs[..|bs| - 1]) + |bs[|bs| - 1]|
  }

  /** `np.concatenate`: the pieces one after the other, in order. */
  function Concat<T>(bs: seq<seq<T>>): (r: seq<T>)
    ensures |r| == TotalLen(bs)
    decreases |bs|
  {
    if bs == [] then [] else Concat(bs[..|bs| - 1]) + bs[|bs| - 1]
  }

  lemma {:induction false} ConcatAppend<T>(a: seq<seq<T>>, b: seq<seq<T>>)
    ensures Concat(a + b) == Concat(a) + Concat(b)
    decreases |b|
  {
    if b == [] {
      assert a + b == a;
    } else {
      var b', x := b[..|b| - 1], b[|b| - 1];
      assert (a + b)[..|a + b| - 1] == a + b';
      assert Concat(a + b) == Concat(a + b') + x;
      assert Concat(b) == Concat(b') + x;
      ConcatAppend(a, b');
      assert (Concat(a) + Concat(b')) + x == Concat(a) + (Concat(b') + x);
    }
  }

  lemma ConcatPrepend<T>(x: seq<T>, bs: seq<seq<T>>)
    ensures Concat([x] + bs) == x + Concat(bs)
  {
    ConcatAppend([x], bs);
    assert [x][..0] == [];
  }

  lemma ConcatSnoc<T>(bs: seq<seq<T>>, b: seq<T>)
    ensures Concat(bs + [b]) == Concat(bs) + b
    ensures TotalLen(bs + [b]) == TotalLen(bs) + |b|
  {
    ConcatAppend(bs, [b]);
    assert [b][..0] == [];
  }

  lemma {:induction false} TotalLenAppend<T>(a: seq<seq<T>>, b: seq<seq<T>>)
    ensures TotalLen(a + b) == TotalLen(a) + TotalLen(b)
  {
    ConcatAppend(a, b);
  }

  /** Python's `sum` over a list of integers. */
  function SumInts(xs: seq<int>): int
    decreases |xs|
  {
    if xs == [] then 0 else xs[0] + SumInts(xs[1..])
  }

  /** All rows have the same width, as the rows of a 2-D numpy array do. */
  ghost predicate Uniform(rows: seq<Row>)
  {
    forall i, j :: 0 <= i < |rows| && 0 <= j < |rows| ==> |rows[i]| == |rows[j]|
  }

  ghost predicate Increasing(idx: seq<nat>)
  {
    forall a, b :: 0 <= a < b < |idx| ==> idx[a] < idx[b]
  }

  ghost predicate InBounds<T>(xs: seq<T>, idx: seq<nat>)
  {
    forall k :: 0 <= k < |idx| ==> idx[k] < |xs|
  }

  /** The elements of `xs` at the positions `idx`, in the order of `idx`. */
  function Pick<T>(xs: seq<T>, idx: seq<nat>): (r: seq<T>)
    requires InBounds(xs, idx)
    ensures |r| == |idx|
    ensures forall k :: 0 <= k < |idx| ==> r[k] == xs[idx[k]]
  {
    seq(|idx|, k requires 0 <= k < |idx| => xs[idx[k]])
  }

  /** Picking one more position appends that element. */
  lemma PickSnoc<T>(xs: seq<T>, idx: seq<nat>, i: nat)
    requires InBounds(xs, idx) && i < |xs|
    ensures InBounds(xs, idx + [i])
    ensures Pick(xs, idx + [i]) == Pick(xs, idx) + [xs[i]]
  {
  }

  /** The positions of `xs` whose element passes `p`, in increasing order:
      what a list comprehension `[x for x in xs if p(x)]` keeps. */
  function Where<T>(xs: seq<T>, p: T -> bool): (idx: seq<nat>)
    ensures Increasing(idx) && InBounds(xs, idx)
    ensures forall k :: 0 <= k < |idx| ==> p(xs[idx[k]])
    ensures forall i :: 0 <= i < |xs| && p(xs[i]) ==> i in idx
    decreases |xs|
  {
    if xs == [] then []
    else
      var n := |xs| - 1;
      var prev := Where(xs[..n], p);
      assert forall k :: 0 <= k < |prev| ==> xs[..n][prev[k]] == xs[prev[k]];
      assert forall i :: 0 <= i < n ==> xs[..n][i] == xs[i];
      prev + (if p(xs[n]) then [n] else [])
  }

  /** Filtering one more element at the end. */
  lemma PickWhereSnoc<T>(xs: seq<T>, p: T -> bool)
    requires xs != []
    ensures Pick(xs, Where(xs, p))
              == Pick(xs[..|xs| - 1], Where(xs[..|xs| - 1], p)) + (if p(xs[|xs| - 1]) then [xs[|xs| - 1]] else [])
  {
    var n := |xs| - 1;
    var idx := Where(xs[..n], p);
    assert Where(xs, p) == idx + (if p(xs[n]) then [n] else []);
    assert Pick(xs, idx) == Pick(xs[..n], idx);
    if p(xs[n]) {
      PickSnoc(xs, idx, n);
    } else {
      assert Where(xs, p) == idx;
    }
  }

  /** `[x for x in xs if p(x)]`. */
  function Filter<T>(xs: seq<T>, p: T -> bool): seq<T>
    decreases |xs|
  {
    if xs == [] then [] else Filter(xs[..|xs| - 1], p) + (if p(xs[|xs| - 1]) then [xs[|xs| - 1]] else [])
  }

  /** The comprehension keeps exactly the elements at the passing positions,
      in order. */
  lemma {:induction false} FilterIsPick<T>(xs: seq<T>, p: T -> bool)
    ensures Filter(xs, p) == Pick(xs, Where(xs, p))
    decreases |xs|
  {
    if xs != [] {
      FilterIsPick(xs[..|xs| - 1], p);
      PickWhereSnoc(xs, p);
    }
  }

  /** The comprehension is empty exactly when no element passes. */
  lemma {:induction false} FilterEmpty<T>(xs: seq<T>, p: T -> bool)
    ensures Filter(xs, p) == [] <==> forall i :: 0 <= i < |xs| ==> !p(xs[i])
    decreases |xs|
  {
    if xs != [] {
      var n := |xs| - 1;
      FilterEmpty(xs[..n], p);
      assert forall i :: 0 <= i < n ==> xs[..n][i] == xs[i];
    }
  }

  /** Filtering one more element at the front. */
  lemma {:induction false} FilterCons<T>(xs: seq<T>, p: T -> bool)
    requires xs != []
    ensures Filter(xs, p) == (if p(xs[0]) then [xs[0]] else []) + Filter(xs[1..], p)
    decreases |xs|
  {
    var n := |xs| - 1;
    if n == 0 {
      assert xs[..0] == [] && xs[1..] == [];
    } else {
      var ys := xs[..n];
      var zs := xs[1..];
      assert ys[0] == xs[0] && ys[1..] == zs[..|zs| - 1] && zs[|zs| - 1] == xs[n];
      FilterCons(ys, p);
    }
  }

  /** The positions i < n whose metadata input `data[i][0]` satisfies `p`, in
      increasing order: the rows a loop over `range(n)` with the test
      `p(data[i][0])` keeps. */
  function IndicesWhere(data: seq<Meta>, n: nat, p: seq<int> -> bool): (idx: seq<nat>)
    requires n <= |data|
    ensures Increasing(idx)
    ensures forall k :: 0 <= k < |idx| ==> idx[k] < n && p(data[idx[k]].input)
    ensures forall i :: 0 <= i < n && p(data[i].input) ==> i in idx
    decreases n
  {
    if n == 0 then []
    else IndicesWhere(data, n - 1, p) + (if p(data[n - 1].input) then [n - 1] else [])
  }

  /** A selection on the records' inputs, as a test on whole records. */
  function OnInput(p: seq<int> -> bool): Meta -> bool
  {
    (d: Meta) => p(d.input)
  }

  /** The positions selected among the first n records are those `Where`
      finds in the first n records with the same test on their inputs. */
  lemma {:induction false} IndicesWhereIsWhere(data: seq<Meta>, n: nat, p: seq<int> -> bool)
    requires n <= |data|
    ensures IndicesWhere(data, n, p) == Where(data[..n], OnInput(p))
    decreases n
  {
    if n > 0 {
      var xs := data[..n];
      IndicesWhereIsWhere(data, n - 1, p);
      assert xs[..n - 1] == data[..n - 1];
      assert OnInput(p)(xs[n - 1]) == p(data[n - 1].input);
    }
  }

  /** The negation of a selection function. */
  function Not(p: seq<int> -> bool): seq<int> -> bool
  {
    x => !p(x)
  }

  lemma IndicesWhereCount(data: seq<Meta>, n: nat, p: seq<int> -> bool)
    requires 0 < n <= |data|
    ensures |IndicesWhere(data, n, p)| == |IndicesWhere(data, n - 1, p)| + (if p(data[n - 1].input) then 1 else 0)
  {
  }

  /** Two selections that disagree on every record pick n positions between them. */
  lemma {:induction false} ComplementSizes(data: seq<Meta>, n: nat, p: seq<int> -> bool, q: seq<int> -> bool)
    requires n <= |data|
    requires forall i :: 0 <= i < |data| ==> p(data[i].input) != q(data[i].input)
    ensures |IndicesWhere(data, n, p)| + |IndicesWhere(data, n, q)| == n
    decreases n
  {
    if n > 0 {
      var x := data[n - 1].input;
      assert p(x) != q(x);
      var a, b := |IndicesWhere(data, n - 1, p)|, |IndicesWhere(data, n - 1, q)|;
      assert a + b == n - 1 by {
        ComplementSizes(data, n - 1, p, q);
      }
      assert |IndicesWhere(data, n, p)| == a + (if p(x) then 1 else 0) by {
        IndicesWhereCount(data, n, p);
      }
      assert |IndicesWhere(data, n, q)| == b + (if q(x) then 1 else 0) by {
        IndicesWhereCount(data, n, q);
      }
    }
  }

  /** A selection and its negation split the first n positions between them. */
  lemma {:induction false} IndicesWhereSplit(data: seq<Meta>, n: nat, p: seq<int> -> bool)
    requires n <= |data|
    ensures |IndicesWhere(data, n, p)| + |IndicesWhere(data, n, Not(p))| == n
    ensures forall i :: 0 <= i < n ==> (i in IndicesWhere(data, n, p)) != (i in IndicesWhere(data, n, Not(p)))
    decreases n
  {
    if n > 0 {
      IndicesWhereSplit(data, n - 1, p);
      var x := data[n - 1].input;
      assert Not(p)(x) == !p(x);
      var on := IndicesWhere(data, n - 1, p);
      var off := IndicesWhere(data, n - 1, Not(p));
      assert IndicesWhere(data, n, p) == on + (if p(x) then [n - 1] else []);
      assert IndicesWhere(data, n, Not(p)) == off + (if p(x) then [] else [n - 1]);
    }
  }
}
