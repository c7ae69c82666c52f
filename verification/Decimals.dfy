/** `ft_atoi` and `nb_digit`, and what they read from a numeral. */
module Decimals {
  import opened CText
  import opened Numerals

  predicate IsBlank(c: char)
  {
    c == '\t' || c == '\U{0B}' || c == '\U{0C}' || c == '\n' || c == '\r' || c == ' '
  }

  function DigitValue(c: char): int
  {
    c as int - '0' as int
  }

  function SkipBlanks(s: string): string
  {
    if s != "" && IsBlank(s[0]) then SkipBlanks(s[1..]) else s
  }

  /** The accumulation in a signed 64-bit `long`, which stops when the value turns negative. */
  function Accumulate(r: int, s: string): int
    decreases s
  {
    if s != "" && IsDigit(s[0]) && r >= 0 then
      Accumulate(ToSigned(r * 10 + DigitValue(s[0]), UINT64), s[1..])
    else
      r
  }

  predicate HasSign(s: string)
  {
    s != "" && (s[0] == '-' || s[0] == '+')
  }

  function Atoi(s: string): int
  {
    var t := SkipBlanks(s);
    var v := Accumulate(0, if HasSign(t) then t[1..] else t);
    var negative := HasSign(t) && t[0] == '-';
    if v < 0 then (if negative then 0 else -1) else ToSigned(if negative then -v else v, UINT32)
  }

  /** The last loop of `ft_atoi`, from `at` on. */
  method AccumulateFrom(nptr: string, at: nat) returns (result: int)
    requires at <= |nptr|
    ensures result == Accumulate(0, nptr[at..])
  {
    result := 0;
    var p := at;
    while p < |nptr| && IsDigit(nptr[p]) && result >= 0
      invariant p <= |nptr| && Accumulate(result, nptr[p..]) == Accumulate(0, nptr[at..])
    {
      assert nptr[p..][1..] == nptr[p + 1..];
      result := ToSigned(result * 10 + DigitValue(nptr[p]), UINT64);
      p := p + 1;
    }
  }

  method FtAtoi(nptr: string) returns (r: int)
    ensures r == Atoi(nptr)
  {
    var negOrPos, result := 1, 0;
    var p := 0;
    while p < |nptr| && IsBlank(nptr[p])
      invariant p <= |nptr| && SkipBlanks(nptr[p..]) == SkipBlanks(nptr)
    {
      assert nptr[p..][1..] == nptr[p + 1..];
      p := p + 1;
    }
    ghost var t := nptr[p..];
    if p < |nptr| && (nptr[p] == '-' || nptr[p] == '+') {
      if nptr[p] == '-' {
        negOrPos := -1;
      }
      p := p + 1;
    }
    assert nptr[p..] == if HasSign(t) then t[1..] else t;
    result := AccumulateFrom(nptr, p);
    if result < 0 && negOrPos == 1 {
      return -1;
    }
    if result < 0 && negOrPos == -1 {
      return 0;
    }
    return ToSigned(result * negOrPos, UINT32);
  }

  /** The length of the run of digits at the front of `s`. */
  function DigitRun(s: string): (n: nat)
    ensures n <= |s|
  {
    if s != "" && IsDigit(s[0]) then 1 + DigitRun(s[1..]) else 0
  }

  method NbDigit(s: string) returns (i: nat)
    ensures i == DigitRun(s)
  {
    i := 0;
    while i < |s| && IsDigit(s[i])
      invariant i <= |s| && i + DigitRun(s[i..]) == DigitRun(s)
    {
      assert s[i..][1..] == s[i + 1..];
      i := i + 1;
    }
  }

  /** `rest` does not continue a run of digits. */
  predicate EndsNumber(rest: string)
  {
    rest == "" || !IsDigit(rest[0])
  }

  lemma {:induction false} DigitRunOf(digits: string, rest: string)
    requires AllDigits(digits) && EndsNumber(rest)
    ensures DigitRun(digits + rest) == |digits|
  {
    if digits == "" {
      assert digits + rest == rest;
    } else {
      assert (digits + rest)[1..] == digits[1..] + rest;
      DigitRunOf(digits[1..], rest);
    }
  }

  lemma DecimalPosition(c: char)
    requires IsDigit(c)
    ensures Position(DECIMAL, c) == DigitValue(c)
  {
    var d := DigitValue(c);
    assert DecimalDigit(d) == c;
    Alphabets();
    PositionOfDigit(DECIMAL, d);
  }

  /** The value of a digit string read from the left, starting from `r`. */
  function ReadOn(r: nat, s: string): (v: nat)
    requires AllDigits(s)
    ensures v >= r
    decreases s
  {
    if s == "" then r else ReadOn(r * 10 + DigitValue(s[0]), s[1..])
  }

  lemma {:induction false} ReadOnAppend(r: nat, s: string, c: char)
    requires AllDigits(s) && IsDigit(c)
    ensures AllDigits(s + [c]) && ReadOn(r, s + [c]) == ReadOn(r, s) * 10 + DigitValue(c)
    decreases s
  {
    if s != "" {
      assert (s + [c])[1..] == s[1..] + [c];
      ReadOnAppend(r * 10 + DigitValue(s[0]), s[1..], c);
    }
  }

  lemma {:induction false} ReadOnIsValue(s: string)
    requires AllDigits(s)
    ensures ReadOn(0, s) == Value(s, DECIMAL)
  {
    if s != "" {
      var t, c := s[..|s| - 1], s[|s| - 1];
      assert s == t + [c];
      ReadOnIsValue(t);
      ReadOnAppend(0, t, c);
      DecimalPosition(c);
    }
  }

  lemma {:induction false} AccumulateDigits(r: nat, digits: string, rest: string)
    requires AllDigits(digits) && EndsNumber(rest)
    requires ReadOn(r, digits) < UINT64 / 2
    ensures Accumulate(r, digits + rest) == ReadOn(r, digits)
    decreases digits
  {
    if digits == "" {
      assert digits + rest == rest;
    } else {
      var s := digits + rest;
      var next := r * 10 + DigitValue(digits[0]);
      assert s[0] == digits[0] && s[1..] == digits[1..] + rest;
      assert ToSigned(next, UINT64) == next;
      AccumulateDigits(next, digits[1..], rest);
    }
  }

  /** An unsigned number in decimal, followed by anything that is not part of it, is read exactly. */
  lemma AtoiOfDigits(digits: string, rest: string)
    requires AllDigits(digits) && EndsNumber(rest) && Value(digits, DECIMAL) < UINT32 / 2
    requires digits == "" && rest != "" ==> !IsBlank(rest[0]) && !HasSign(rest)
    ensures Atoi(digits + rest) == Value(digits, DECIMAL)
  {
    ReadOnIsValue(digits);
    AccumulateDigits(0, digits, rest);
    AtoiOfText(digits + rest, Value(digits, DECIMAL));
  }

  lemma AtoiOfText(t: string, v: nat)
    requires (t != "" ==> !IsBlank(t[0]) && !HasSign(t)) && Accumulate(0, t) == v < UINT32 / 2
    ensures Atoi(t) == v
  {
    ToSignedInRange(v, UINT32);
    NoLead(t);
  }

  lemma NoLead(t: string)
    requires t != "" ==> !IsBlank(t[0]) && !HasSign(t)
    ensures var v := Accumulate(0, t); Atoi(t) == if v < 0 then -1 else ToSigned(v, UINT32)
  {
  }

  /** Numbers printed by the itoa family read back as themselves, over the whole range of `int`. */
  lemma AtoiOfSignedNumeral(n: int)
    requires -(UINT32 as int) <= 2 * n < UINT32
    ensures Atoi(SignedNumeral(n)) == n
  {
    var digits := Numeral(Abs(n), DECIMAL);
    DecimalNumeral(Abs(n));
    Alphabets();
    ValueOfNumeral(Abs(n), DECIMAL);
    assert digits + "" == digits;
    if n < 0 {
      AtoiOfNegative(digits, n);
    } else {
      AtoiOfDigits(digits, "");
    }
  }

  lemma AtoiOfNegative(digits: string, n: int)
    requires AllDigits(digits) && Value(digits, DECIMAL) == -n && -(UINT32 as int) <= 2 * n
    ensures Atoi("-" + digits) == n
  {
    ReadOnIsValue(digits);
    assert digits + "" == digits;
    AccumulateDigits(0, digits, "");
    AtoiOfMinus(digits, n);
  }

  lemma AtoiOfMinus(digits: string, n: int)
    requires Accumulate(0, digits) == -n && n <= 0 && -(UINT32 as int) <= 2 * n
    ensures Atoi("-" + digits) == n
  {
    MinusFirst(digits);
    ToSignedInRange(n, UINT32);
  }

  /** White space, an optional sign and digits, followed by anything that is not part of the number, read as the number. */
  lemma AtoiReads(blanks: string, sign: string, digits: string, rest: string, n: int)
    requires forall c <- blanks :: c in {'\t', '\U{0B}', '\U{0C}', '\n', '\r', ' '}
    requires sign in {"", "+", "-"} && AllDigits(digits) && digits != "" && EndsNumber(rest)
    requires n == Value(digits, DECIMAL) < UINT32 / 2
    ensures Atoi(blanks + (sign + (digits + rest))) == if sign == "-" then -n else n
  {
    var t := sign + (digits + rest);
    ReadOnIsValue(digits);
    AccumulateDigits(0, digits, rest);
    BlanksSkipped(blanks, t);
    if sign == "" {
      assert t == digits + rest;
    } else {
      assert t[0] == sign[0] && t[1..] == digits + rest;
    }
    SignedText(t, sign, digits + rest, n);
    AfterBlanks(blanks + t, t);
  }

  lemma {:induction false} BlanksSkipped(blanks: string, t: string)
    requires (forall c <- blanks :: IsBlank(c)) && t != "" && !IsBlank(t[0])
    ensures SkipBlanks(blanks + t) == t
  {
    if blanks == "" {
      assert blanks + t == t;
    } else {
      assert blanks[0] in blanks && (blanks + t)[1..] == blanks[1..] + t;
      BlanksSkipped(blanks[1..], t);
    }
  }

  lemma AfterBlanks(s: string, t: string)
    requires SkipBlanks(s) == t == SkipBlanks(t)
    ensures Atoi(s) == Atoi(t)
  {
  }

  lemma SignedText(t: string, sign: string, tail: string, v: int)
    requires 0 <= v == Accumulate(0, tail) < UINT32 / 2 && tail != "" && IsDigit(tail[0])
    requires (sign == "" && t == tail) || ((sign == "+" || sign == "-") && t != "" && t[0] == sign[0] && t[1..] == tail)
    ensures Atoi(t) == if sign == "-" then -v else v
  {
    ToSignedInRange(v, UINT32);
    ToSignedInRange(-v, UINT32);
  }

  lemma MinusFirst(digits: string)
    ensures var v := Accumulate(0, digits); Atoi("-" + digits) == if v < 0 then 0 else ToSigned(-v, UINT32)
  {
    var t := "-" + digits;
    assert t[0] == '-' && t[1..] == digits;
    assert SkipBlanks(t) == t;
  }
}
