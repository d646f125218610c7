/** The pure input encoders of the acquisition script: `bitfield`, the
    most-significant-first bits of an integer, and `arrange_input`, the 8-bit
    least-significant-first vector a Tiny Tapeout project takes. */
module Acquisition {
  import opened Wrappers
  import opened PyText

  /** `[1 if digit=='1' else 0 for digit in s]`. */
  function DigitBits(s: string): (r: seq<int>)
    ensures |r| == |s|
    ensures forall k :: 0 <= k < |r| ==> r[k] == (if s[k] == '1' then 1 else 0)
  {
    seq(|s|, k requires 0 <= k < |s| => if s[k] == '1' then 1 else 0)
  }

  lemma DigitBitsAppend(a: string, b: string)
    ensures DigitBits(a + b) == DigitBits(a) + DigitBits(b)
  {
  }

  /** `bitfield(n)`: the digits of `bin(n)[2:]` as 0/1 integers. */
  function Bitfield(n: int): (r: seq<int>)
    ensures |r| >= 1
    ensures forall k :: 0 <= k < |r| ==> r[k] == 0 || r[k] == 1
    ensures n == 0 ==> r == [0]
    ensures n > 0 ==> r[0] == 1
  {
    DigitBits(BinBody(n))
  }

  /** Value of a most-significant-first bit list. */
  function ValueMsb(bits: seq<int>): int
    decreases |bits|
  {
    if bits == [] then 0 else 2 * ValueMsb(bits[..|bits| - 1]) + bits[|bits| - 1]
  }

  /** Value of a least-significant-first bit list. */
  function ValueLsb(bits: seq<int>): int
    decreases |bits|
  {
    if bits == [] then 0 else bits[0] + 2 * ValueLsb(bits[1..])
  }

  function Pow2(k: nat): nat
  {
    if k == 0 then 1 else 2 * Pow2(k - 1)
  }

  /** Python's `n.bit_length()`. */
  function BitLength(n: nat): nat
  {
    if n == 0 then 0 else 1 + BitLength(n / 2)
  }

  lemma BitfieldUnfold(n: nat)
    requires n >= 2
    ensures Bitfield(n) == Bitfield(n / 2) + [n % 2]
  {
    var s := BinDigits(n / 2);
    var d := if n % 2 == 0 then "0" else "1";
    assert BinBody(n) == s + d;
    assert BinBody(n / 2) == s;
    DigitBitsAppend(s, d);
    assert DigitBits(d) == [n % 2];
  }

  /** Reading `bitfield(n)` most significant bit first gives back n. */
  lemma {:induction false} BitfieldRoundTrip(n: nat)
    ensures ValueMsb(Bitfield(n)) == n
    decreases n
  {
    if n >= 2 {
      BitfieldUnfold(n);
      BitfieldRoundTrip(n / 2);
      var b := Bitfield(n);
      assert b[..|b| - 1] == Bitfield(n / 2);
    } else {
      assert Bitfield(n) == [n];
      assert [n][..0] == [];
    }
  }

  /** A positive number has exactly `bit_length` bits in `bitfield`. */
  lemma {:induction false} BitfieldLength(n: nat)
    ensures |Bitfield(n)| == if n == 0 then 1 else BitLength(n)
    decreases n
  {
    if n >= 2 {
      BitfieldUnfold(n);
      BitfieldLength(n / 2);
    } else {
      assert |Bitfield(n)| == |BinDigits(n)| == 1;
    }
  }

  /** For a negative number the stray 'b' of `bin(n)[2:]` becomes a leading 0. */
  lemma BitfieldOfNegative(n: int)
    requires n < 0
    ensures Bitfield(n) == [0] + Bitfield(-n)
  {
    assert DigitBits(['b'] + BinDigits(-n)) == DigitBits(['b']) + DigitBits(BinDigits(-n));
  }

  /** `bit_length` is the number of binary places n needs. */
  lemma {:induction false} BitLengthFits(n: nat, k: nat)
    ensures BitLength(n) <= k <==> n < Pow2(k)
    decreases n
  {
    PowPositive(k);
    if n > 0 && k > 0 {
      BitLengthFits(n / 2, k - 1);
    } else if n > 0 {
      assert BitLength(n) >= 1 && Pow2(k) == 1;
    }
  }

  /** `bitfield(n)` has at most k >= 1 bits exactly when n < 2^k. */
  lemma BitfieldFits(n: nat, k: nat)
    requires k >= 1
    ensures |Bitfield(n)| <= k <==> n < Pow2(k)
  {
    BitfieldLength(n);
    BitLengthFits(n, k);
    if n == 0 {
      assert Pow2(k) >= 1 by { PowPositive(k); }
    }
  }

  lemma {:induction false} PowPositive(k: nat)
    ensures Pow2(k) >= 1
  {
    if k > 0 {
      PowPositive(k - 1);
    }
  }

  function Reverse(s: seq<int>): (r: seq<int>)
    ensures |r| == |s|
    ensures forall k :: 0 <= k < |s| ==> r[k] == s[|s| - 1 - k]
  {
    seq(|s|, k requires 0 <= k < |s| => s[|s| - 1 - k])
  }

  /** The number of zeros `arrange_input` puts before the input bits of each
      project: 1 for chi with DOM (0), 4 for chi with two shares (1), none for
      chi with three shares (2). */
  function Prefix(p: int): nat
    requires 0 <= p <= 2
  {
    if p == 0 then 1 else if p == 1 then 4 else 0
  }

  /** Width of the Tiny Tapeout input vector. */
  const InputWidth := 8

  /** `v` followed by zeros up to 8 entries (`for j in range(8-len(v))`). */
  function PadToWidth(v: seq<int>): (r: seq<int>)
    ensures |r| == if |v| < InputWidth then InputWidth else |v|
    ensures r[..|v|] == v
    ensures forall k :: 0 <= k < |v| ==> r[k] == v[k]
    ensures forall k :: |v| <= k < |r| ==> r[k] == 0
  {
    v + seq(if |v| < InputWidth then InputWidth - |v| else 0, _ => 0)
  }

  /** The project's zero prefix followed by the bits least significant first. */
  function PrefixedBits(i: int, p: int): (v: seq<int>)
    requires 0 <= p <= 2
    ensures |v| == Prefix(p) + |Bitfield(i)|
    ensures forall k :: 0 <= k < Prefix(p) ==> v[k] == 0
    ensures v[Prefix(p)..] == Reverse(Bitfield(i))
    ensures forall k :: Prefix(p) <= k < |v| ==> v[k] == Bitfield(i)[|v| - 1 - k]
  {
    var lsb := Reverse(Bitfield(i));
    if p == 0 then [0] + lsb else if p == 1 then [0, 0, 0, 0] + lsb else lsb
  }

  /** `arrange_input(i, p)`: the bits of i least significant first, after the
      project's zero prefix, right-padded with zeros to 8 entries; `None` for a
      project other than 0, 1, 2. */
  function ArrangeInput(i: int, p: int): (r: Option<seq<int>>)
    ensures r.None? <==> p < 0 || p > 2
    ensures r.Some? ==> |r.value| == Width(Prefix(p) + |Bitfield(i)|)
    ensures r.Some? ==> forall k :: 0 <= k < Prefix(p) ==> r.value[k] == 0
    ensures r.Some? ==> forall k :: Prefix(p) <= k < Prefix(p) + |Bitfield(i)| ==>
              r.value[k] == Bitfield(i)[Prefix(p) + |Bitfield(i)| - 1 - k]
    ensures r.Some? ==> forall k :: Prefix(p) + |Bitfield(i)| <= k < |r.value| ==> r.value[k] == 0
  {
    if p < 0 || p > 2 then None
    else
      var v := PrefixedBits(i, p);
      Some(PadToWidth(v))
  }

  /** The length of an input vector of m entries once padded. */
  function Width(m: nat): nat
  {
    if m < InputWidth then InputWidth else m
  }

  lemma {:induction false} ValueLsbOfReverse(bits: seq<int>)
    ensures ValueLsb(Reverse(bits)) == ValueMsb(bits)
    decreases |bits|
  {
    if bits != [] {
      var init := bits[..|bits| - 1];
      ValueLsbOfReverse(init);
      assert Reverse(bits)[1..] == Reverse(init);
    }
  }

  lemma {:induction false} ValueLsbIgnoresTrailingZeros(bits: seq<int>, z: nat)
    ensures ValueLsb(bits + seq(z, _ => 0)) == ValueLsb(bits)
    decreases |bits|, z
  {
    if bits != [] {
      ValueLsbIgnoresTrailingZeros(bits[1..], z);
      assert (bits + seq(z, _ => 0))[1..] == bits[1..] + seq(z, _ => 0);
    } else if z > 0 {
      ValueLsbIgnoresTrailingZeros([], z - 1);
      assert bits + seq(z, _ => 0) == seq(z, _ => 0);
      assert [] + seq(z - 1, _ => 0) == seq(z - 1, _ => 0);
      assert seq(z, _ => 0)[1..] == seq(z - 1, _ => 0);
    }
  }

  /** Reading the vector after the prefix least significant bit first gives
      back the input. */
  lemma ArrangeInputRoundTrip(i: nat, p: int)
    requires 0 <= p <= 2
    ensures ArrangeInput(i, p).Some?
    ensures ValueLsb(ArrangeInput(i, p).value[Prefix(p)..]) == i
  {
    var bits := Bitfield(i);
    var v := ArrangeInput(i, p).value;
    var m := Prefix(p) + |bits|;
    assert v == PadToWidth(PrefixedBits(i, p));
    assert v[Prefix(p)..] == Reverse(bits) + seq(|v| - m, _ => 0);
    ValueLsbIgnoresTrailingZeros(Reverse(bits), |v| - m);
    ValueLsbOfReverse(bits);
    BitfieldRoundTrip(i);
  }

  /** The vector is exactly 8 wide when the input fits beside the prefix: for
      the ranges the script draws from (i < 128 for project 0, i < 16 for
      project 1, i < 256 for project 2). */
  lemma ArrangeInputIsEightWide(i: nat, p: int)
    requires 0 <= p <= 2
    requires i < Pow2(InputWidth - Prefix(p))
    ensures |ArrangeInput(i, p).value| == InputWidth
  {
    BitfieldFits(i, InputWidth - Prefix(p));
  }

  lemma ScriptRangesAreEightWide(i: nat)
    ensures i < 128 ==> |ArrangeInput(i, 0).value| == 8
    ensures i < 16 ==> |ArrangeInput(i, 1).value| == 8
    ensures i < 256 ==> |ArrangeInput(i, 2).value| == 8
  {
    assert Pow2(4) == 16 && Pow2(7) == 128 && Pow2(8) == 256;
    if i < 128 { ArrangeInputIsEightWide(i, 0); }
    if i < 16 { ArrangeInputIsEightWide(i, 1); }
    if i < 256 { ArrangeInputIsEightWide(i, 2); }
  }

  /** The all-zeros input `arrange_input(0, p)` is eight zeros for every project. */
  lemma ZeroInputIsAllZeros(p: int)
    requires 0 <= p <= 2
    ensures ArrangeInput(0, p) == Some(seq(8, _ => 0))
  {
    var v := ArrangeInput(0, p).value;
    assert |v| == 8;
    assert forall k :: 0 <= k < 8 ==> v[k] == 0;
    assert v == seq(8, _ => 0);
  }
}
