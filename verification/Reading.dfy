/** Reading printed numbers back, character by character, without the alphabets that print them. */
module Reading {
  import opened CText
  import opened Numerals

  /** What a character is worth as a digit: '0' to '9', and the letters a to f in either case; nothing otherwise. */
  function CharWorth(c: char): nat
  {
    if '0' <= c <= '9' then c as int - '0' as int
    else if 'a' <= c <= 'f' then c as int - 'a' as int + 10
    else if 'A' <= c <= 'F' then c as int - 'A' as int + 10
    else 0
  }

  /** The number a text shows in the base `base` when everything but its digits counts as zero. */
  function Worth(t: string, base: nat): nat
  {
    if t == "" then 0 else Worth(t[..|t| - 1], base) * base + CharWorth(t[|t| - 1])
  }

  predicate LowerHexDigit(c: char)
  {
    '0' <= c <= '9' || 'a' <= c <= 'f'
  }

  predicate UpperHexDigit(c: char)
  {
    '0' <= c <= '9' || 'A' <= c <= 'F'
  }

  predicate IsDigitOf(c: char, base: nat, upper: bool)
  {
    CharWorth(c) < base && if upper then UpperHexDigit(c) else LowerHexDigit(c)
  }

  /** `t` consists of digits of the base, letters in the one case, and they make the number `n`. */
  predicate ReadsAs(t: string, base: nat, upper: bool, n: nat)
  {
    (forall c <- t :: IsDigitOf(c, base, upper)) && Worth(t, base) == n
  }

  predicate Shows(t: string, base: nat, upper: bool, n: nat)
  {
    t != "" && ReadsAs(t, base, upper, n)
  }

  /** `t` is how `n` is written: no leading zero, but for "0" itself. */
  predicate Writes(t: string, base: nat, upper: bool, n: nat)
  {
    Shows(t, base, upper, n) && (t[0] == '0' ==> t == "0")
  }

  lemma WorthAppend(t: string, c: char, base: nat)
    ensures Worth(t + [c], base) == Worth(t, base) * base + CharWorth(c)
  {
    assert (t + [c])[..|t|] == t;
  }

  /** An alphabet whose characters are worth their places. */
  predicate Plain(a: string, upper: bool)
  {
    Alphabet(a) && a[0] == '0' && forall d :: 0 <= d < |a| ==> CharWorth(a[d]) == d && IsDigitOf(a[d], |a|, upper)
  }

  lemma PlainDecimals()
    ensures Plain(DECIMAL, false) && Plain(DECIMAL, true) && |DECIMAL| == 10
    ensures Plain(OCTAL, false) && Plain(OCTAL, true) && |OCTAL| == 8
  {
    Alphabets();
  }

  lemma PlainHex()
    ensures Plain(HEX_LOWER, false) && |HEX_LOWER| == 16
    ensures Plain(HEX_UPPER, true) && |HEX_UPPER| == 16
  {
    Alphabets();
  }

  /** A numeral in such an alphabet reads as its number. */
  lemma {:induction false} NumeralShows(n: nat, a: string, upper: bool)
    requires Plain(a, upper)
    ensures Shows(Numeral(n, a), |a|, upper, n)
  {
    if n >= |a| {
      var q := n / |a|;
      QuotientShrinks(n, |a|);
      NumeralShows(q, a, upper);
      WorthAppend(Numeral(q, a), a[n % |a|], |a|);
      DivisionIdentity(n, |a|);
    } else {
      WorthAppend("", a[n], |a|);
      assert [a[n]] == "" + [a[n]];
    }
  }

  lemma NumeralWrites(n: nat, a: string, upper: bool)
    requires Plain(a, upper)
    ensures Writes(Numeral(n, a), |a|, upper, n)
  {
    NumeralShows(n, a, upper);
    NumeralHead(n, a);
  }

  /** The texts of the conversions, in the bases eight, ten and sixteen. */
  lemma NumeralsWrite(n: nat)
    ensures Writes(Numeral(n, OCTAL), 8, false, n) && Writes(Numeral(n, DECIMAL), 10, false, n)
    ensures Writes(Numeral(n, HEX_LOWER), 16, false, n) && Writes(Numeral(n, HEX_UPPER), 16, true, n)
  {
    PlainDecimals();
    PlainHex();
    NumeralWrites(n, OCTAL, false);
    NumeralWrites(n, DECIMAL, false);
    NumeralWrites(n, HEX_LOWER, false);
    NumeralWrites(n, HEX_UPPER, true);
  }

  /** The decimal texts of the itoa family: a '-' for a negative number, then its magnitude. */
  lemma SignedNumeralWrites(n: int)
    ensures var t := SignedNumeral(n);
            if n < 0 then t != "" && t[0] == '-' && Writes(t[1..], 10, false, -n) else Writes(t, 10, false, n)
  {
    if n < 0 {
      NegativeWrites(-n, Numeral(-n, DECIMAL), SignedNumeral(n));
    } else {
      DecimalWrites(n, Numeral(n, DECIMAL));
    }
  }

  lemma DecimalWrites(n: nat, t: string)
    requires t == Numeral(n, DECIMAL)
    ensures Writes(t, 10, false, n)
  {
    PlainDecimals();
    NumeralWrites(n, DECIMAL, false);
  }

  lemma NegativeWrites(n: nat, digits: string, t: string)
    requires digits == Numeral(n, DECIMAL) && t == "-" + digits
    ensures t != "" && t[0] == '-' && Writes(t[1..], 10, false, n)
  {
    DecimalWrites(n, digits);
    assert t[1..] == digits;
  }

  lemma HexWrites(n: nat, upper: bool, t: string)
    requires t == Numeral(n, if upper then HEX_UPPER else HEX_LOWER)
    ensures Writes(t, 16, upper, n)
  {
    PlainHex();
    NumeralWrites(n, if upper then HEX_UPPER else HEX_LOWER, upper);
  }

  /** What a digit string in a directive or in front of `ft_atoi` stands for. */
  lemma {:induction false} DecimalValueReads(t: string)
    requires AllDigits(t)
    ensures Value(t, DECIMAL) == Worth(t, 10)
  {
    if t != "" {
      var d: nat := t[|t| - 1] as int - '0' as int;
      assert DecimalDigit(d) == t[|t| - 1];
      Alphabets();
      PositionOfDigit(DECIMAL, d);
      DecimalValueReads(t[..|t| - 1]);
    }
  }

  /* ---- texts with blanks and other characters around a number ---- */

  /** `t` without the blanks behind it. */
  function Trimmed(t: string): string
  {
    if t != "" && t[|t| - 1] == ' ' then Trimmed(t[..|t| - 1]) else t
  }

  predicate Worthless(t: string)
  {
    forall c <- t :: CharWorth(c) == 0
  }

  lemma {:induction false} WorthlessIsZero(t: string, base: nat)
    requires Worthless(t)
    ensures Worth(t, base) == 0
  {
    if t != "" {
      assert t[|t| - 1] in t;
      WorthlessIsZero(t[..|t| - 1], base);
    }
  }

  lemma {:induction false} TrimmedWorthless(t: string, base: nat)
    requires Worthless(t)
    ensures Worth(Trimmed(t), base) == 0
  {
    if t != "" && t[|t| - 1] == ' ' {
      TrimmedWorthless(t[..|t| - 1], base);
    } else {
      WorthlessIsZero(t, base);
    }
  }

  lemma {:induction false} WorthBehind(z: string, t: string, base: nat)
    requires Worthless(z)
    ensures Worth(z + t, base) == Worth(t, base)
  {
    if t == "" {
      assert z + t == z;
      WorthlessIsZero(z, base);
    } else {
      assert (z + t)[..|z + t| - 1] == z + t[..|t| - 1];
      WorthBehind(z, t[..|t| - 1], base);
    }
  }

  lemma {:induction false} TrimmedBlanks(t: string, after: string)
    requires t != "" && t[|t| - 1] != ' ' && forall c <- after :: c == ' '
    ensures Trimmed(t + after) == t
  {
    if after == "" {
      assert t + after == t;
    } else {
      var s := t + after;
      assert after[|after| - 1] in after;
      var fewer := after[..|after| - 1];
      assert forall c <- fewer :: c in after;
      assert s[..|s| - 1] == t + fewer;
      TrimmedBlanks(t, fewer);
    }
  }

  /** A number between worthless characters and blanks reads as itself. */
  lemma WorthBetween(z: string, t: string, after: string, base: nat, upper: bool, n: nat, text: string)
    requires Worthless(z) && Shows(t, base, upper, n) && (forall c <- after :: c == ' ') && text == z + t + after
    ensures Worth(Trimmed(text), base) == n
  {
    assert t[|t| - 1] in t;
    TrimmedBlanks(z + t, after);
    WorthBehind(z, t, base);
  }
}
