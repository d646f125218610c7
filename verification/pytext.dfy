/** The few Python string built-ins the core relies on: negative-start slicing,
    `bin`, `str` on integers and `str.rjust`. */
module PyText {

  /** Python's `s[i:]`: a negative start counts from the end and is clamped at 0,
      a start past the end gives the empty sequence. */
  function SliceFrom<T>(s: seq<T>, i: int): (r: seq<T>)
    ensures |r| == (if i >= 0 then (if i <= |s| then |s| - i else 0)
                    else (if -i <= |s| then -i else |s|))
    ensures r == s[|s| - |r|..]
  {
    if i >= 0 then (if i <= |s| then s[i..] else [])
    else if i + |s| >= 0 then s[|s| + i..]
    else s
  }

  /** Binary digits of a natural number, most significant first, without
      leading zeros ("0" for zero). */
  function BinDigits(n: nat): (r: string)
    ensures |r| >= 1
    ensures forall k :: 0 <= k < |r| ==> r[k] == '0' || r[k] == '1'
    ensures n > 0 ==> r[0] == '1'
    ensures n == 0 ==> r == "0"
    decreases n
  {
    if n < 2 then (if n == 0 then "0" else "1")
    else BinDigits(n / 2) + (if n % 2 == 0 then "0" else "1")
  }

  /** Python's `bin(n)`: "0b…" for n >= 0, "-0b…" for n < 0. */
  function Bin(n: int): string
  {
    if n >= 0 then "0b" + BinDigits(n) else "-0b" + BinDigits(-n)
  }

  /** `bin(n)[2:]`, which drops the "0b" of a non-negative number but only the
      "-0" of a negative one, leaving a stray 'b' in front of the digits. */
  function BinBody(n: int): (r: string)
    ensures n >= 0 ==> r == BinDigits(n)
    ensures n < 0 ==> r == ['b'] + BinDigits(-n)
  {
    SliceFrom(Bin(n), 2)
  }

  /** Decimal digits of a natural number, most significant first. */
  function DecDigits(n: nat): (r: string)
    ensures |r| >= 1
    ensures forall k :: 0 <= k < |r| ==> '0' <= r[k] <= '9'
    decreases n
  {
    if n < 10 then [(48 + n) as char]
    else DecDigits(n / 10) + [(48 + n % 10) as char]
  }

  /** Python's `str(n)` on an integer. */
  function Str(n: int): (r: string)
    ensures forall k :: 0 <= k < |r| ==> r[k] == '-' || '0' <= r[k] <= '9'
    ensures 0 <= n < 10 ==> r == [(48 + n) as char]
  {
    if n >= 0 then DecDigits(n) else "-" + DecDigits(-n)
  }

  /** Python's `s.rjust(width, fill)`: left-pads with `fill`, never truncates. */
  function Rjust(s: string, width: int, fill: char): (r: string)
    ensures |r| == if |s| >= width then |s| else width
    ensures r[|r| - |s|..] == s
    ensures forall k :: 0 <= k < |r| - |s| ==> r[k] == fill
  {
    if |s| >= width then s else seq(width - |s|, _ => fill) + s
  }
}
