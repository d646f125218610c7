/** Hamming weight and Hamming distance of bit lists, with the source's two
    error answers (a length mismatch, an element above 1). */
module Hamming {
  import opened Wrappers
  import opened Rows

  /** The answers the source prints and returns as `None`. */
  datatype BitError = LengthMismatch | NotABitString

  ghost predicate IsBits(xs: seq<int>)
  {
    forall k :: 0 <= k < |xs| ==> xs[k] == 0 || xs[k] == 1
  }

  /** The source's guard: it only rejects elements above 1. */
  predicate HasElementAboveOne(xs: seq<int>)
  {
    exists k :: 0 <= k < |xs| && xs[k] > 1
  }

  lemma {:induction false} SumOfBitsCountsOnes(xs: seq<int>)
    requires IsBits(xs)
    ensures SumInts(xs) == multiset(xs)[1]
    decreases |xs|
  {
    if xs != [] {
      SumOfBitsCountsOnes(xs[1..]);
      assert xs == [xs[0]] + xs[1..];
      assert multiset(xs) == multiset{xs[0]} + multiset(xs[1..]);
    }
  }

  /** `HW(input)`: the number of ones in a bit list. */
  function HW(xs: seq<int>): (r: Result<int, BitError>)
    ensures r.Failure? <==> HasElementAboveOne(xs)
    ensures r.Failure? ==> r.error == NotABitString
    ensures IsBits(xs) ==> r == Success(multiset(xs)[1]) && 0 <= r.value <= |xs|
  {
    if HasElementAboveOne(xs) then Failure(NotABitString)
    else
      assert IsBits(xs) ==> SumInts(xs) == multiset(xs)[1] by {
        if IsBits(xs) {
          SumOfBitsCountsOnes(xs);
        }
      }
      Success(SumInts(xs))
  }

  /** Number of positions where the two lists differ. */
  function Mismatches(a: seq<int>, b: seq<int>): nat
    requires |a| == |b|
    decreases |a|
  {
    if a == [] then 0 else (if a[0] != b[0] then 1 else 0) + Mismatches(a[1..], b[1..])
  }

  /** `(input1[i] + input2[i]) % 2` for every i (Python's `%` agrees with
      Dafny's for the divisor 2: the remainder is 0 or 1). */
  function Parities(a: seq<int>, b: seq<int>): (r: seq<int>)
    requires |a| == |b|
    ensures |r| == |a|
  {
    seq(|a|, i requires 0 <= i < |a| => (a[i] + b[i]) % 2)
  }

  lemma {:induction false} ParitiesOfBitsCountMismatches(a: seq<int>, b: seq<int>)
    requires |a| == |b| && IsBits(a) && IsBits(b)
    ensures SumInts(Parities(a, b)) == Mismatches(a, b)
    decreases |a|
  {
    if a != [] {
      ParitiesOfBitsCountMismatches(a[1..], b[1..]);
      assert Parities(a, b)[1..] == Parities(a[1..], b[1..]);
    }
  }

  /** `HD(input1, input2)`: the number of positions where two bit lists differ. */
  function HD(a: seq<int>, b: seq<int>): (r: Result<int, BitError>)
    ensures r == Failure(LengthMismatch) <==> |a| != |b|
    ensures r == Failure(NotABitString) <==> |a| == |b| && (HasElementAboveOne(a) || HasElementAboveOne(b))
    ensures |a| == |b| && IsBits(a) && IsBits(b) ==> r == Success(Mismatches(a, b))
  {
    if |a| != |b| then Failure(LengthMismatch)
    else if exists i :: 0 <= i < |a| && (a[i] > 1 || b[i] > 1) then Failure(NotABitString)
    else
      assert IsBits(a) && IsBits(b) ==> SumInts(Parities(a, b)) == Mismatches(a, b) by {
        if IsBits(a) && IsBits(b) {
          ParitiesOfBitsCountMismatches(a, b);
        }
      }
      Success(SumInts(Parities(a, b)))
  }

  lemma HDSymmetric(a: seq<int>, b: seq<int>)
    ensures HD(a, b) == HD(b, a)
  {
    if |a| == |b| {
      assert Parities(a, b) == Parities(b, a);
    }
  }

  lemma {:induction false} SumOfZeros(xs: seq<int>)
    requires forall k :: 0 <= k < |xs| ==> xs[k] == 0
    ensures SumInts(xs) == 0
    decreases |xs|
  {
    if xs != [] {
      SumOfZeros(xs[1..]);
    }
  }

  /** A list is at distance 0 from itself (negative elements included). */
  lemma HDSelfIsZero(x: seq<int>)
    requires !HasElementAboveOne(x)
    ensures HD(x, x) == Success(0)
  {
    SumOfZeros(Parities(x, x));
  }

  /** The distance to the all-zeros list is the weight. */
  lemma HDToZerosIsHW(x: seq<int>)
    requires IsBits(x)
    ensures HD(x, seq(|x|, _ => 0)) == HW(x)
  {
    var z := seq(|x|, _ => 0);
    assert Parities(x, z) == x;
    SumOfBitsCountsOnes(x);
  }

  /** The guard lets negative elements through, and there the weight and the
      distance to zeros part ways: `HW([-1])` is -1, `HD([-1], [0])` is 1. */
  lemma NegativeElementsPassTheGuard()
    ensures HW([-1]) == Success(-1)
    ensures HD([-1], [0]) == Success(1)
  {
    assert SumInts([-1]) == -1 + SumInts([]);
    assert Parities([-1], [0]) == [1];
    assert SumInts([1]) == 1 + SumInts([]);
  }
}
