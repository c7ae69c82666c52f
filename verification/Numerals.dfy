/** Positional notation over a digit alphabet: the texts the conversion routines must produce. */
module Numerals {
  import opened CText

  const OCTAL := "01234567"
  const DECIMAL := "0123456789"
  const HEX_LOWER := "0123456789abcdef"
  const HEX_UPPER := "0123456789ABCDEF"

  predicate Alphabet(a: string)
  {
    |a| >= 2 && forall i, j :: 0 <= i < j < |a| ==> a[i] != a[j]
  }

  lemma Alphabets()
    ensures Alphabet(OCTAL) && Alphabet(DECIMAL) && Alphabet(HEX_LOWER) && Alphabet(HEX_UPPER)
    ensures '\0' !in HEX_LOWER && '\0' !in HEX_UPPER
  {
  }

  function DecimalDigit(d: nat): (c: char)
    requires d < 10
    ensures c == DECIMAL[d] && IsDigit(c)
  {
    '0' + d as char
  }

  lemma QuotientShrinks(n: nat, b: nat)
    requires 2 <= b <= n
    ensures 0 < n / b < n
  {
  }

  lemma DivisionIdentity(n: nat, b: nat)
    requires b > 0
    ensures n / b * b + n % b == n
  {
  }

  /** The digits of `n` in the base `|a|`, most significant first, without leading zeros. */
  function Numeral(n: nat, a: string): (r: string)
    requires |a| >= 2
    ensures r != ""
  {
    if n < |a| then [a[n]] else QuotientShrinks(n, |a|); Numeral(n / |a|, a) + [a[n % |a|]]
  }

  /** The number of digits of `n` in base `b`. */
  function DigitCount(n: nat, b: nat): (r: nat)
    requires b >= 2
    ensures r >= 1
  {
    if n < b then 1 else QuotientShrinks(n, b); 1 + DigitCount(n / b, b)
  }

  /** The position of `c` in `a`, or `|a|`. */
  function Position(a: string, c: char): (r: nat)
    ensures r <= |a|
    ensures r < |a| ==> a[r] == c
    ensures r < |a| <==> c in a
  {
    if a == "" || a[0] == c then 0 else 1 + Position(a[1..], c)
  }

  lemma {:induction false} PositionOfDigit(a: string, d: nat)
    requires d < |a| && forall i, j :: 0 <= i < j < |a| ==> a[i] != a[j]
    ensures Position(a, a[d]) == d
  {
    if d > 0 {
      PositionOfDigit(a[1..], d - 1);
    }
  }

  /** The number a digit string stands for. */
  function Value(s: string, a: string): nat
  {
    if s == "" then 0 else Value(s[..|s| - 1], a) * |a| + Position(a, s[|s| - 1])
  }

  lemma {:induction false} NumeralLength(n: nat, a: string)
    requires |a| >= 2
    ensures |Numeral(n, a)| == DigitCount(n, |a|)
  {
    if n >= |a| {
      QuotientShrinks(n, |a|);
      NumeralLength(n / |a|, a);
    }
  }

  lemma ValueAppend(t: string, c: char, a: string)
    ensures Value(t + [c], a) == Value(t, a) * |a| + Position(a, c)
  {
    assert (t + [c])[..|t|] == t;
  }

  /** Reading a numeral back gives the number. */
  lemma {:induction false} ValueOfNumeral(n: nat, a: string)
    requires Alphabet(a)
    ensures Value(Numeral(n, a), a) == n
  {
    PositionOfDigit(a, n % |a|);
    if n >= |a| {
      var q := n / |a|;
      QuotientShrinks(n, |a|);
      ValueOfNumeral(q, a);
      ValueAppend(Numeral(q, a), a[n % |a|], a);
      DivisionIdentity(n, |a|);
    } else {
      assert [a[n]] == "" + [a[n]];
      ValueAppend("", a[n], a);
      SmallRemainder(n, |a|);
    }
  }

  /** A numeral starts with the zero digit only when the number is zero. */
  lemma {:induction false} NumeralHead(n: nat, a: string)
    requires Alphabet(a)
    ensures Numeral(n, a)[0] == a[0] <==> n == 0
    ensures n == 0 ==> Numeral(n, a) == [a[0]]
  {
    if n >= |a| {
      QuotientShrinks(n, |a|);
      NumeralHead(n / |a|, a);
    }
  }

  lemma {:induction false} NumeralDigits(n: nat, a: string)
    requires |a| >= 2
    ensures forall c <- Numeral(n, a) :: c in a
  {
    if n >= |a| {
      QuotientShrinks(n, |a|);
      NumeralDigits(n / |a|, a);
    }
  }

  lemma {:induction false} DecimalNumeral(n: nat)
    ensures AllDigits(Numeral(n, DECIMAL))
  {
    var c := DecimalDigit(n % 10);
    if n >= 10 {
      DecimalNumeral(n / 10);
    }
  }

  lemma ProductMonotone(x: nat, y: nat, z: nat)
    requires x <= y
    ensures x * z <= y * z && z * x <= z * y
  {
  }

  lemma QuotientBound(n: nat, b: nat, q: nat)
    requires b > 0 && q * b <= n
    ensures q <= n / b
  {
    DivisionIdentity(n, b);
    if q > n / b {
      ProductMonotone(n / b + 1, q, b);
    }
  }

  lemma QuotientMonotone(m: nat, n: nat, b: nat)
    requires m <= n && b >= 2
    ensures m / b <= n / b
  {
    DivisionIdentity(m, b);
    QuotientBound(n, b, m / b);
  }

  lemma QuotientAntitone(n: nat, b: nat, c: nat)
    requires 2 <= c <= b
    ensures n / b <= n / c
  {
    DivisionIdentity(n, b);
    ProductMonotone(c, b, n / b);
    QuotientBound(n, c, n / b);
  }

  lemma {:induction false} DigitCountMonotone(m: nat, n: nat, b: nat)
    requires m <= n && b >= 2
    ensures DigitCount(m, b) <= DigitCount(n, b)
    decreases n
  {
    if m >= b {
      QuotientShrinks(n, b);
      QuotientMonotone(m, n, b);
      DigitCountMonotone(m / b, n / b, b);
    }
  }

  lemma {:induction false} DigitCountAntitone(n: nat, b: nat, c: nat)
    requires 2 <= c <= b
    ensures DigitCount(n, b) <= DigitCount(n, c)
  {
    if n >= b {
      QuotientShrinks(n, b);
      QuotientShrinks(n, c);
      QuotientAntitone(n, b, c);
      DigitCountMonotone(n / b, n / c, c);
      DigitCountAntitone(n / b, b, c);
    }
  }

  /** A buffer sized by the decimal digit count holds the digits of every number in exactly the bases from ten up. */
  lemma DecimalSizeSuffices(b: nat)
    requires b >= 2
    ensures (forall n: nat :: DigitCount(n, b) <= DigitCount(n, 10)) <==> b >= 10
  {
    if b >= 10 {
      forall n: nat ensures DigitCount(n, b) <= DigitCount(n, 10) { DigitCountAntitone(n, b, 10); }
    } else {
      assert b / b == 1;
      assert DigitCount(b, b) == 2 && DigitCount(b, 10) == 1;
    }
  }

  /** The signed decimal text of `n`. */
  function SignedNumeral(n: int): string
  {
    if n < 0 then "-" + Numeral(-n, DECIMAL) else Numeral(n, DECIMAL)
  }
}
