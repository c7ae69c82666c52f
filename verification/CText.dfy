/** C strings, C integer conversions and runs of one character, as the rest of the model uses them. */
module CText {

  /** What the text of a NUL-terminated buffer can be: characters of one byte, none of them NUL. */
  type CString = s: string | forall c <- s :: 0 < c as int < 256

  /** Reading `s[i]` in C: the terminator stands just past the text. */
  function CharAt(s: string, i: nat): char
  {
    if i < |s| then s[i] else '\0'
  }

  /** The value of `x` after conversion to an unsigned type of `modulus` values. */
  function ToUnsigned(x: int, modulus: nat): nat
    requires modulus > 0
  {
    x % modulus
  }

  /** The value of `x` after conversion to a two's complement type of `modulus` values. */
  function ToSigned(x: int, modulus: nat): (r: int)
    requires modulus > 0
    ensures -(modulus as int) <= 2 * r < modulus
  {
    var u := x % modulus;
    if u < modulus - u then u else u - modulus
  }

  lemma SmallRemainder(x: int, m: nat)
    requires m > 0 && -(m as int) <= x < m
    ensures x % m == if x < 0 then x + m else x
  {
  }

  /** A conversion to a signed type changes nothing within its range. */
  lemma ToSignedInRange(x: int, modulus: nat)
    requires modulus > 0 && -(modulus as int) <= 2 * x < modulus
    ensures ToSigned(x, modulus) == x
  {
    SmallRemainder(x, modulus);
  }

  const UINT8 := 0x100
  const UINT16 := 0x1_0000
  const UINT32 := 0x1_0000_0000
  const UINT64 := 0x1_0000_0000_0000_0000

  function Abs(x: int): nat
  {
    if x < 0 then -x else x
  }

  function Max(x: int, y: int): int
  {
    if x > y then x else y
  }

  /** `n` copies of `c`; none when `n` is not positive. */
  function Fill(c: char, n: int): (r: string)
    ensures |r| == Max(0, n)
  {
    if n <= 0 then "" else seq(n, _ => c)
  }

  predicate IsDigit(c: char)
  {
    '0' <= c <= '9'
  }

  predicate AllDigits(s: string)
  {
    forall k :: 0 <= k < |s| ==> IsDigit(s[k])
  }
}
