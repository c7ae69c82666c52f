/** Numbers to text and back: the itoa family, base conversion and `ft_atoi`, over their buffers. */
module Conversions {
  import opened CText
  import opened Numerals
  import opened Reading
  import opened Sequences

  /** `buffer` holds `text` and its terminator, and nothing else. */
  ghost predicate Holds(buffer: array<char>, text: string)
    reads buffer
  {
    buffer[..] == text + "\0"
  }

  method NbDgInBase(n: nat, base: nat) returns (i: nat)
    requires base >= 2
    ensures i == DigitCount(n, base)
  {
    i := 1;
    var m: nat := n;
    while m > base - 1
      invariant i + DigitCount(m, base) == 1 + DigitCount(n, base)
    {
      QuotientShrinks(m, base);
      i := i + 1;
      m := m / base;
    }
  }

  /** One step of every fill loop: the cells from `len` on already hold the rest of the numeral. */
  lemma NumeralStep(n: nat, m: nat, suffix: string, a: string)
    requires |a| >= 2 && m >= |a|
    requires Numeral(n, a) == Numeral(m, a) + suffix
    ensures Numeral(n, a) == Numeral(m / |a|, a) + ([a[m % |a|]] + suffix)
  {
    var q, d := m / |a|, a[m % |a|];
    QuotientShrinks(m, |a|);
    assert Numeral(m, a) == Numeral(q, a) + [d];
    assert Numeral(q, a) + [d] + suffix == Numeral(q, a) + ([d] + suffix);
  }

  lemma PutFront(all: string, was: string, len: nat, c: char, suffix: string, tail: string)
    requires len < |was| && all == was[..len + 1] + suffix + tail
    ensures all[len := c] == was[..len] + ([c] + suffix) + tail
  {
  }

  /** Writes the decimal digits of `n` into the last cells of `number` before its terminator. */
  method FillDecimal(number: array<char>, n: nat)
    requires 0 < n
    requires DigitCount(n, 10) < number.Length
    modifies number
    ensures var k := number.Length - 1 - DigitCount(n, 10);
            number[..] == old(number[..])[..k] + Numeral(n, DECIMAL) + old(number[..])[number.Length - 1..]
  {
    NumeralLength(n, DECIMAL);
    var len := number.Length - 1;
    var m := n;
    ghost var suffix := "";
    while m != 0
      invariant 0 <= len < number.Length
      invariant |suffix| == number.Length - 1 - len
      invariant number[..] == old(number[..])[..len] + suffix + old(number[..])[number.Length - 1..]
      invariant if m == 0 then suffix == Numeral(n, DECIMAL) else Numeral(n, DECIMAL) == Numeral(m, DECIMAL) + suffix
    {
      ghost var before := number[..];
      len := len - 1;
      number[len] := DecimalDigit(m % 10);
      if m >= 10 {
        NumeralStep(n, m, suffix, DECIMAL);
      }
      suffix := [DECIMAL[m % 10]] + suffix;
      assert number[..] == before[len := DECIMAL[m % 10]];
      PutFront(before, old(number[..]), len, DECIMAL[m % 10], suffix[1..], old(number[..])[number.Length - 1..]);
      m := m / 10;
    }
  }

  /** `ft_itoa_unmax`: the decimal text of an unsigned number. */
  method ItoaUnmax(n: nat) returns (number: array<char>)
    requires n < UINT64
    ensures fresh(number) && Holds(number, Numeral(n, DECIMAL))
  {
    var len := NbDgInBase(n, 10);
    number := new char[len + 1];
    number[len] := '\0';
    NumeralLength(n, DECIMAL);
    if n == 0 {
      number[0] := '0';
      assert number[..] == ['0', '\0'];
    } else {
      FillDecimal(number, n);
      assert number[..] == "" + Numeral(n, DECIMAL) + "\0";
    }
  }

  /** The unsigned negation `(unsigned)u * -1`. */
  function Negated(u: nat, modulus: nat): nat
    requires modulus > 0
  {
    var x: int := u;
    ToUnsigned(-x, modulus)
  }

  /** Negating the unsigned image gives the magnitude, the most negative value included. */
  lemma NegationIsMagnitude(n: int, modulus: nat)
    requires modulus > 0 && -(modulus as int) <= 2 * n < modulus
    ensures (if n < 0 then Negated(ToUnsigned(n, modulus), modulus) else ToUnsigned(n, modulus)) == Abs(n)
  {
    if n < 0 {
      SmallRemainder(n, modulus);
      SmallRemainder(-(n + modulus), modulus);
    } else {
      SmallRemainder(n, modulus);
    }
  }

  /** The digit count with one cell more for the sign, found on the unsigned magnitude. */
  method NbDg(n: int, modulus: nat) returns (i: nat)
    requires modulus > 0 && -(modulus as int) <= 2 * n < modulus
    ensures i == |SignedNumeral(n)|
  {
    NumeralLength(Abs(n), DECIMAL);
    NegationIsMagnitude(n, modulus);
    i := if n < 0 then 2 else 1;
    var nb: nat := if n < 0 then Negated(ToUnsigned(n, modulus), modulus) else ToUnsigned(n, modulus);
    ghost var i0 := i;
    while nb > 9
      invariant i + DigitCount(nb, 10) == i0 + DigitCount(Abs(n), 10)
    {
      i := i + 1;
      nb := nb / 10;
    }
  }

  /** `ft_itoa`, `ft_itoa_max`, `ft_itoa_short` and `ft_itoa_signchar`, which differ in the width of `n` alone. */
  method Itoa(n: int, modulus: nat) returns (number: array<char>)
    requires modulus > 0 && -(modulus as int) <= 2 * n < modulus
    ensures fresh(number) && Holds(number, SignedNumeral(n))
  {
    var len := NbDg(n, modulus);
    NumeralLength(Abs(n), DECIMAL);
    number := new char[len + 1];
    number[len] := '\0';
    if n == 0 {
      number[0] := '0';
      assert number[..] == ['0', '\0'];
    } else {
      NegationIsMagnitude(n, modulus);
      var cp := ToUnsigned(n, modulus);
      if n < 0 {
        number[0] := '-';
        cp := Negated(cp, modulus);
      }
      FillDecimal(number, cp);
    }
  }

  method PositionInBase(base: string, search: char) returns (i: nat)
    requires search in base
    ensures i == Position(base, search)
  {
    i := 0;
    while search != base[i]
      invariant i < |base| && search in base[i..]
      invariant Position(base, search) == i + Position(base[i..], search)
      decreases |base| - i
    {
      assert base[i..][1..] == base[i + 1..];
      i := i + 1;
    }
  }

  /** First half of `reverse_delect_first_zeros`: turns the text in `tab` round, in place. */
  method ReverseText(tab: array<char>, ghost text: string)
    requires '\0' !in text
    requires |text| < tab.Length && tab[..|text| + 1] == text + "\0"
    modifies tab
    ensures tab[..|text| + 1] == Backwards(text) + "\0"
  {
    ghost var n := |text|;
    assert forall k :: 0 <= k <= n ==> tab[k] == tab[..n + 1][k];
    var j := 0;
    while tab[j] != '\0'
      invariant j <= n
      decreases n - j
    {
      j := j + 1;
    }
    var i := 0;
    while i < j - 1
      invariant 0 <= i <= j <= n && i + j == n
      invariant forall k :: 0 <= k < i || j <= k < n ==> tab[k] == text[n - 1 - k]
      invariant forall k :: i <= k < j ==> tab[k] == text[k]
      invariant tab[n] == '\0'
    {
      tab[i], tab[j - 1] := tab[j - 1], tab[i];
      i := i + 1;
      j := j - 1;
    }
  }

  /** Second half: how far the pointer moves over leading zero digits. A digit other than zero must be there. */
  method SkipZeros(tab: array<char>, ghost text: string, to: string) returns (start: nat)
    requires Alphabet(to)
    requires |text| < tab.Length && tab[..|text|] == text
    requires (forall c <- text :: c in to) && exists c <- text :: c != to[0]
    ensures start < |text| && text[start] != to[0]
    ensures forall k :: 0 <= k < start ==> text[k] == to[0]
  {
    start := 0;
    ghost var last :| 0 <= last < |text| && text[last] != to[0];
    assert forall k :: 0 <= k < |text| ==> tab[k] == tab[..|text|][k];
    var p := PositionInBase(to, tab[start]);
    while p == 0
      invariant start <= last && p == Position(to, tab[start])
      invariant forall k :: 0 <= k < start ==> text[k] == to[0]
      decreases last - start
    {
      start := start + 1;
      p := PositionInBase(to, tab[start]);
    }
  }

  /** The number at which the digit-collecting loop arrives. */
  method ReadBase(nbr: string, from: string) returns (v: nat)
    requires |from| >= 2 && forall c <- nbr :: c in from
    ensures v == Value(nbr, from)
  {
    v := 0;
    var k := 0;
    while k < |nbr|
      invariant k <= |nbr| && v == Value(nbr[..k], from)
    {
      var d := PositionInBase(from, nbr[k]);
      assert nbr[..k + 1] == nbr[..k] + [nbr[k]];
      ValueAppend(nbr[..k], nbr[k], from);
      v := v * |from| + d;
      k := k + 1;
    }
    assert nbr[..k] == nbr;
  }

  lemma RemainderBound(m: nat, b: nat)
    requires b > 0
    ensures 0 <= m % b < b
  {
  }

  function Quotient(m: nat, b: nat): (q: nat)
    requires b >= 2
    ensures q == 0 <==> m < b
    ensures m > 0 ==> q < m
  {
    if m >= b then QuotientShrinks(m, b); m / b else 0
  }

  /** Taking one more digit off `m` keeps "digits of m, then the text turned round" equal to the digits of `n`. */
  lemma ConvertStep(n: nat, m: nat, text: string, to: string)
    requires Alphabet(to) && m > 0
    requires Numeral(n, to) == Numeral(m, to) + Backwards(text)
    ensures 0 <= m % |to| < |to|
    ensures var t := text + [to[m % |to|]];
            if m < |to| then Backwards(t) == Numeral(n, to)
            else Numeral(n, to) == Numeral(Quotient(m, |to|), to) + Backwards(t)
  {
    RemainderBound(m, |to|);
    BackwardsAppend(text, to[m % |to|]);
    if m >= |to| {
      NumeralStep(n, m, Backwards(text), to);
    } else {
      SmallRemainder(m, |to|);
    }
  }

  /** The digit loop of `ft_convert_base`: least significant digit first, then the terminator. */
  method CollectDigits(n: nat, to: string, result: array<char>) returns (i: nat, ghost text: string)
    requires Alphabet(to) && n > 0 && DigitCount(n, |to|) < result.Length
    modifies result
    ensures Backwards(text) == Numeral(n, to)
    ensures i == |text| < result.Length && result[..i + 1] == text + "\0"
  {
    NumeralLength(n, to);
    var m: nat := n;
    i := 0;
    text := "";
    while m > 0
      invariant |text| == i < result.Length && result[..i] == text
      invariant if m == 0 then Backwards(text) == Numeral(n, to) else Numeral(n, to) == Numeral(m, to) + Backwards(text)
    {
      ConvertStep(n, m, text, to);
      result[i] := to[m % |to|];
      text := text + [to[m % |to|]];
      i := i + 1;
      m := Quotient(m, |to|);
    }
    result[i] := '\0';
  }

  lemma CollectedDigits(n: nat, to: string, text: string)
    requires Alphabet(to) && '\0' !in to && n > 0 && Backwards(text) == Numeral(n, to)
    ensures '\0' !in text && Backwards(text)[0] != to[0]
    ensures (forall c <- Backwards(text) :: c in to) && exists c <- Backwards(text) :: c != to[0]
  {
    NumeralHead(n, to);
    NumeralDigits(n, to);
    assert forall k :: 0 <= k < |text| ==> text[k] == Backwards(text)[|text| - 1 - k];
    assert Backwards(text)[0] in Backwards(text);
  }

  /** The digits, the turn and the skip of `ft_convert_base`, for a number other than zero. */
  method ConvertNonZero(n: nat, to: string, result: array<char>) returns (start: nat)
    requires Alphabet(to) && '\0' !in to && n > 0 && DigitCount(n, |to|) < result.Length
    modifies result
    ensures start == 0
    ensures var t := Numeral(n, to); |t| < result.Length && result[..|t| + 1] == t + "\0"
  {
    ghost var text;
    var i;
    i, text := CollectDigits(n, to, result);
    CollectedDigits(n, to, text);
    ReverseText(result, text);
    assert result[..i] == result[..i + 1][..i];
    start := SkipZeros(result, Backwards(text), to);
  }

  /** `ft_convert_base`. The buffer is sized by the decimal digit count, so the digits in the target base must be no
      more than those: in every base from ten up they are. */
  method ConvertBase(nbr: string, from: string, to: string) returns (result: array<char>, start: nat)
    requires |from| >= 2 && forall c <- nbr :: c in from
    requires Value(nbr, from) < UINT64
    requires Alphabet(to) && '\0' !in to && DigitCount(Value(nbr, from), |to|) <= DigitCount(Value(nbr, from), 10)
    ensures fresh(result) && start == 0 && result.Length == DigitCount(Value(nbr, from), 10) + 1
    ensures var t := Numeral(Value(nbr, from), to);
            |t| < result.Length && result[..|t| + 1] == t + "\0"
  {
    var n := ReadBase(nbr, from);
    var size := NbDgInBase(n, 10);
    result := new char[size + 1];
    start := 0;
    if n == 0 {
      result[0] := to[0];
      result[1] := '\0';
      return;
    }
    start := ConvertNonZero(n, to, result);
  }

  lemma BackwardsAppend(s: string, c: char)
    ensures Backwards(s + [c]) == [c] + Backwards(s)
  {
  }

  /** `itoa_hex`: the base-16 text of an unsigned number, in lower or upper case. */
  method ItoaHex(nb: nat, upper: bool) returns (result: array<char>, start: nat)
    requires nb < UINT64
    ensures fresh(result) && start == 0
    ensures var t := Numeral(nb, if upper then HEX_UPPER else HEX_LOWER);
            |t| < result.Length && result[..|t| + 1] == t + "\0" && Writes(t, 16, upper, nb)
  {
    HexWrites(nb, upper, Numeral(nb, if upper then HEX_UPPER else HEX_LOWER));
    var ori := ItoaUnmax(nb);
    NumeralDigits(nb, DECIMAL);
    ValueOfNumeral(nb, DECIMAL);
    Alphabets();
    var nbr := ori[..ori.Length - 1];
    assert nbr == Numeral(nb, DECIMAL);
    DigitCountAntitone(nb, 16, 10);
    result, start := ConvertBase(nbr, DECIMAL, if upper then HEX_UPPER else HEX_LOWER);
  }
}
