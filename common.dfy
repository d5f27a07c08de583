/** Values shared by every part of the model: the .NET exceptions the core can
    throw, an error-carrying result, nullable strings, 32-bit integer
    arithmetic as C# performs it, and decimal text for integers. */
module Common {

  /** A C# reference that may be null (used for strings that the source tests against null). */
  datatype Option<T> = None | Some(value: T)

  type NullableString = Option<string>

  /** The exceptions the modelled code can raise. */
  datatype Exception =
    | ArgumentNull
    | ArgumentOutOfRange
    | Argument
    | InvalidOperation
    | InvalidCast
    | Overflow
    | OutOfMemory

  /** Either the value a call returns or the exception it throws. */
  datatype Result<T> = Ok(value: T) | Throw(error: Exception)

  const Int32Min: int := -0x8000_0000
  const Int32Max: int := 0x7FFF_FFFF
  const TwoTo32: int := 0x1_0000_0000

  predicate IsInt32(x: int) {
    Int32Min <= x <= Int32Max
  }

  /** The value C# keeps for `x` in an unchecked `int` expression (two's-complement wrap-around). */
  function Wrap32(x: int): (r: int)
    ensures IsInt32(r)
    ensures IsInt32(x) ==> r == x
    ensures (r - x) % TwoTo32 == 0
  {
    (x - Int32Min) % TwoTo32 + Int32Min
  }

  /** A value just below `int.MinValue` wraps to the top of the range. */
  lemma WrapBelowMinimum(x: int)
    requires Int32Min - TwoTo32 <= x < Int32Min
    ensures Wrap32(x) == x + TwoTo32
  {
  }

  /** The most characters a .NET string can hold; allocating a longer one throws
      OutOfMemoryException. */
  const MaxStringLength: int := 0x3FFF_FFDF

  /** The most elements a .NET array can hold (`Array.MaxLength`); a larger allocation throws
      OutOfMemoryException. */
  const MaxArrayLength: int := 0x7FFF_FFC7

  /** C# integer division: the quotient is truncated toward zero. */
  function CDiv(a: int, b: int): (q: int)
    requires b != 0
    ensures a >= 0 && b > 0 ==> q == a / b
    ensures a < 0 && b > 0 ==> q == -((-a) / b)
  {
    if a >= 0 && b > 0 then a / b
    else if a < 0 && b > 0 then -((-a) / b)
    else if a >= 0 then -(a / (-b))
    else (-a) / (-b)
  }

  /** C# remainder: it takes the sign of the dividend. */
  function CMod(a: int, b: int): (r: int)
    requires b != 0
    ensures a == CDiv(a, b) * b + r
    ensures a >= 0 && b > 0 ==> r == a % b
  {
    a - CDiv(a, b) * b
  }

  // ---------------------------------------------------------------------
  // Decimal text (int.ToString() with the invariant culture, int.Parse)
  // ---------------------------------------------------------------------

  predicate IsAsciiDigit(c: char) {
    '0' <= c <= '9'
  }

  function DigitChar(d: nat): (c: char)
    requires d < 10
    ensures IsAsciiDigit(c)
    ensures c as int - '0' as int == d
  {
    ('0' as int + d) as char
  }

  function DigitValue(c: char): (d: nat)
    requires IsAsciiDigit(c)
    ensures d < 10 && DigitChar(d) == c
  {
    (c as int - '0' as int) as nat
  }

  /** Decimal digits of `n`, most significant first, without leading zeros. */
  function NatToString(n: nat): (s: string)
    ensures |s| > 0
    ensures forall i :: 0 <= i < |s| ==> IsAsciiDigit(s[i])
    ensures |s| > 1 ==> s[0] != '0'
    decreases n
  {
    if n < 10 then [DigitChar(n)] else NatToString(n / 10) + [DigitChar(n % 10)]
  }

  /** `int.ToString()`: a leading minus sign for negative values. */
  function IntToString(n: int): (s: string)
    ensures |s| > 0
    ensures (s[0] == '-') <==> n < 0
  {
    if n < 0 then "-" + NatToString(-n) else NatToString(n)
  }

  /** The value of a run of ASCII digits (leading zeros allowed, as `int.Parse` allows them). */
  function ParseDigits(s: string): nat
    requires forall i :: 0 <= i < |s| ==> IsAsciiDigit(s[i])
    decreases |s|
  {
    if |s| == 0 then 0 else 10 * ParseDigits(s[..|s| - 1]) + DigitValue(s[|s| - 1])
  }

  /** Reading back the decimal text of a number gives the number. */
  lemma {:induction false} ParseNatToString(n: nat)
    ensures ParseDigits(NatToString(n)) == n
    decreases n
  {
    var s := NatToString(n);
    if n >= 10 {
      ParseNatToString(n / 10);
      assert s[..|s| - 1] == NatToString(n / 10);
      assert DigitValue(s[|s| - 1]) == n % 10;
    }
  }
}
