/** What a reader of an integer field can tell from its characters: its pieces, its number and its sign. */
module FieldReading {
  import opened CText
  import opened Numerals
  import opened IsoFormat
  import opened Reading

  predicate IsRun(t: string, c: char)
  {
    forall x <- t :: x == c
  }

  /** How a field is padded: blanks in front or behind, zeros in between, and not more than the width asks for. */
  ghost predicate Padded(flags: set<char>, width: int, zero: bool, before: string, lead: string, fill: string, body: string,
                         after: string)
  {
    && IsRun(before, ' ') && IsRun(fill, '0') && IsRun(after, ' ')
    && (if '-' in flags then before == fill == ""
        else after == "" && if zero && '0' in flags then before == "" else fill == "")
    && |before| + |fill| + |after| == if width > |lead| + |body| then width - |lead| - |body| else 0
  }

  lemma LayoutPieces(flags: set<char>, width: int, zero: bool, lead: string, body: string, text: string)
    returns (before: string, fill: string, after: string)
    requires text == Layout(flags, width, zero, lead, body)
    ensures Padded(flags, width, zero, before, lead, fill, body, after)
    ensures text == before + lead + fill + body + after
  {
    var gap := width - |lead| - |body|;
    before, fill, after := "", "", "";
    if '-' in flags {
      after := Fill(' ', gap);
    } else if zero && '0' in flags {
      fill := Fill('0', gap);
    } else {
      before := Fill(' ', gap);
    }
  }

  /** The digits of a field: none for zero under precision zero, and otherwise `n` written out behind `zeros`. */
  ghost predicate Written(digits: string, zeros: string, base: nat, upper: bool, precision: int, n: nat)
  {
    && (if n == 0 && precision == 0 then digits == "" else Writes(digits, base, upper, n))
    && IsRun(zeros, '0') && |zeros| == if precision > |digits| then precision - |digits| else 0
  }

  lemma DigitsPieces(n: nat, a: string, upper: bool, precision: int, t: string) returns (zeros: string, digits: string)
    requires Plain(a, upper) && t == Digits(n, a, precision)
    ensures Written(digits, zeros, |a|, upper, precision, n) && t == zeros + digits
  {
    zeros, digits := "", "";
    if !(n == 0 && precision == 0) {
      NumeralWrites(n, a, upper);
      digits := Numeral(n, a);
      zeros := Fill('0', precision - |digits|);
    }
  }

  /* ---- signed fields ---- */

  /** The characters of the standard signed field: blanks, the sign, padding zeros, the zeros of the precision, the
      digits, blanks. '-' pads behind, '0' pads with zeros where no precision is given, and blanks go in front otherwise. */
  lemma SignedFieldPieces(flags: set<char>, width: int, precision: int, n: int)
    returns (before: string, sign: string, fill: string, zeros: string, digits: string, after: string)
    ensures IsoSigned(flags, width, precision, n) == before + sign + fill + (zeros + digits) + after
    ensures sign == if n < 0 then "-" else if '+' in flags then "+" else if ' ' in flags then " " else ""
    ensures Written(digits, zeros, 10, false, precision, if n < 0 then -n else n)
    ensures Padded(flags, width, precision < 0, before, sign, fill, zeros + digits, after)
  {
    var m: nat := Abs(n);
    sign := Sign(flags, n < 0);
    PlainDecimals();
    zeros, digits := DigitsPieces(m, DECIMAL, false, precision, Digits(m, DECIMAL, precision));
    before, fill, after := LayoutPieces(flags, width, precision < 0, sign, zeros + digits, IsoSigned(flags, width, precision, n));
  }

  predicate IsSign(c: char)
  {
    c == '-' || c == '+'
  }

  /** What the characters of a signed field tell: its magnitude, and by a '-' its sign; nothing but blanks precedes a sign. */
  ghost predicate TellsSigned(text: string, flags: set<char>, n: int)
  {
    && Worth(Trimmed(text), 10) == (if n < 0 then -n else n)
    && ('-' in text <==> n < 0) && ('+' in text ==> n >= 0 && '+' in flags)
    && forall i, k :: 0 <= i < k < |text| && IsSign(text[k]) ==> text[i] == ' '
  }

  lemma SignStands(before: string, sign: string, rest: string, text: string)
    requires text == before + sign + rest && IsRun(before, ' ') && |sign| <= 1 && forall c <- rest :: !IsSign(c)
    ensures forall i, k :: 0 <= i < k < |text| && IsSign(text[k]) ==> text[i] == ' '
    ensures forall c :: IsSign(c) ==> (c in text <==> c in sign)
  {
    var m := |before| + |sign|;
    assert forall k :: m <= k < |text| ==> text[k] == rest[k - m] && rest[k - m] in rest;
    forall i, k | 0 <= i < k < |text| && IsSign(text[k])
      ensures text[i] == ' '
    {
      assert text[i] == before[i] && before[i] in before;
    }
    forall c | IsSign(c)
      ensures c in text <==> c in sign
    {
      assert c !in before && c !in rest;
    }
  }

  lemma DigitsAreNoSigns(fill: string, zeros: string, digits: string, after: string, base: nat, upper: bool)
    requires IsRun(fill, '0') && IsRun(zeros, '0') && IsRun(after, ' ') && forall c <- digits :: IsDigitOf(c, base, upper)
    ensures forall c <- fill + (zeros + digits) + after :: !IsSign(c)
  {
  }

  /** The pieces around a number, read together. */
  lemma PiecesRead(before: string, lead: string, fill: string, zeros: string, digits: string, after: string, text: string,
                   base: nat, upper: bool, n: nat)
    requires text == before + lead + fill + (zeros + digits) + after
    requires IsRun(before, ' ') && Worthless(lead) && IsRun(fill, '0') && IsRun(zeros, '0') && IsRun(after, ' ')
    requires (digits == "" && n == 0) || Shows(digits, base, upper, n)
    ensures Worth(Trimmed(text), base) == n
  {
    var z := before + lead + fill + zeros;
    assert Worthless(z);
    if digits == "" {
      assert Worthless(text);
      TrimmedWorthless(text, base);
    } else {
      assert text == z + digits + after;
      WorthBetween(z, digits, after, base, upper, n, text);
    }
  }

  /** A standard signed field tells its number and its sign, under any flags, width and precision. */
  lemma SignedFieldReadsBack(flags: set<char>, width: int, precision: int, n: int)
    ensures TellsSigned(IsoSigned(flags, width, precision, n), flags, n)
    ensures '+' in IsoSigned(flags, width, precision, n) <==> n >= 0 && '+' in flags
  {
    var text := IsoSigned(flags, width, precision, n);
    var before, sign, fill, zeros, digits, after := SignedFieldPieces(flags, width, precision, n);
    PiecesRead(before, sign, fill, zeros, digits, after, text, 10, false, if n < 0 then -n else n);
    SignRead(before, sign, fill, zeros, digits, after, text);
  }

  lemma SignRead(before: string, sign: string, fill: string, zeros: string, digits: string, after: string, text: string)
    requires text == before + sign + fill + (zeros + digits) + after && |sign| <= 1 && forall c <- digits :: IsDigitOf(c, 10, false)
    requires IsRun(before, ' ') && IsRun(fill, '0') && IsRun(zeros, '0') && IsRun(after, ' ')
    ensures forall i, k :: 0 <= i < k < |text| && IsSign(text[k]) ==> text[i] == ' '
    ensures forall c :: IsSign(c) ==> (c in text <==> c in sign)
  {
    var rest := fill + (zeros + digits) + after;
    DigitsAreNoSigns(fill, zeros, digits, after, 10, false);
    assert text == before + sign + rest;
    SignStands(before, sign, rest, text);
  }

  /** So does the field that `set_print_d` writes, its slips included. */
  lemma PrintedSignedReadsBack(flags: set<char>, width: nat, precision: int, n: int)
    ensures TellsSigned(SignedField(flags, width, precision, n), flags, n)
  {
    SignedFieldReadsBack(flags, width, precision, n);
    if n == 0 && precision == 0 && Sign(flags, false) != "" {
      var text, sign := SignedField(flags, width, precision, n), if '+' in flags then "+" else " ";
      if width == 0 {
        assert text == "";
      } else {
        assert text == "" + sign + Fill(' ', width - 1);
        SignStands("", sign, Fill(' ', width - 1), text);
        TrimmedWorthless(text, 10);
      }
    }
  }

  /* ---- unsigned fields ---- */

  function Base(radix: Radix): nat
  {
    if radix.O? then 8 else if radix.U? then 10 else 16
  }

  lemma RadixPlain(radix: Radix)
    ensures Plain(radix.Alphabet(), radix.BigX?) && |radix.Alphabet()| == Base(radix)
  {
    PlainDecimals();
    PlainHex();
  }

  /** The zeros and digits of an octal field under '#': a zero leads, and no zero more than that and the precision need. */
  ghost predicate WrittenOctal(digits: string, zeros: string, precision: int, n: nat)
  {
    && (if n == 0 && precision == 0 then digits == "" else Writes(digits, 8, false, n))
    && IsRun(zeros, '0')
    && |zeros| == if precision > |digits| then precision - |digits| else if digits == "0" then 0 else 1
  }

  lemma FirstOfZeros(zeros: string, digits: string)
    requires IsRun(zeros, '0')
    ensures zeros != "" ==> (zeros + digits)[0] == '0'
  {
    assert zeros != "" ==> zeros[0] in zeros;
  }

  lemma OctalPieces(n: nat, precision: int, t: string, body: string) returns (zeros: string, digits: string)
    requires t == Digits(n, OCTAL, precision) && body == if t != "" && t[0] == '0' then t else "0" + t
    ensures WrittenOctal(digits, zeros, precision, n) && body == zeros + digits
  {
    PlainDecimals();
    zeros, digits := DigitsPieces(n, OCTAL, false, precision, t);
    FirstOfZeros(zeros, digits);
    if t == "" || t[0] != '0' {
      zeros := "0";
    } else if zeros == "" {
      assert digits == "0";
    }
  }

  /** The characters of the standard unsigned field. '#' puts "0x" or "0X" in front of a hexadecimal number other than
      zero, and makes a zero lead an octal one. */
  lemma UnsignedFieldPieces(flags: set<char>, width: int, precision: int, n: nat, radix: Radix)
    returns (before: string, lead: string, fill: string, zeros: string, digits: string, after: string)
    ensures IsoUnsigned(flags, width, precision, n, radix) == before + lead + fill + (zeros + digits) + after
    ensures lead == if '#' in flags && n != 0 && radix.X? then "0x" else if '#' in flags && n != 0 && radix.BigX? then "0X" else ""
    ensures if '#' in flags && radix.O? then WrittenOctal(digits, zeros, precision, n)
            else Written(digits, zeros, if radix.O? then 8 else if radix.U? then 10 else 16, radix.BigX?, precision, n)
    ensures Padded(flags, width, precision < 0, before, lead, fill, zeros + digits, after)
  {
    var text, t := IsoUnsigned(flags, width, precision, n, radix), Digits(n, radix.Alphabet(), precision);
    RadixPlain(radix);
    lead := if '#' in flags && n != 0 && !radix.O? then radix.Prefix() else "";
    if '#' in flags && radix.O? {
      zeros, digits := OctalPieces(n, precision, t, if t != "" && t[0] == '0' then t else "0" + t);
    } else {
      zeros, digits := DigitsPieces(n, radix.Alphabet(), radix.BigX?, precision, t);
    }
    before, fill, after := LayoutPieces(flags, width, precision < 0, lead, zeros + digits, text);
  }

  /** A standard unsigned field tells its number, under any flags, width and precision. */
  lemma UnsignedFieldReadsBack(flags: set<char>, width: int, precision: int, n: nat, radix: Radix)
    ensures Worth(Trimmed(IsoUnsigned(flags, width, precision, n, radix)), Base(radix)) == n
  {
    var text := IsoUnsigned(flags, width, precision, n, radix);
    var before, lead, fill, zeros, digits, after := UnsignedFieldPieces(flags, width, precision, n, radix);
    PiecesRead(before, lead, fill, zeros, digits, after, text, Base(radix), radix.BigX?, n);
  }

  /** So does the field that `set_print_oxu_hash` writes, its slips included. */
  lemma PrintedUnsignedReadsBack(flags: set<char>, width: nat, precision: int, n: nat, radix: Radix)
    ensures Worth(Trimmed(UnsignedField(flags, width, precision, n, radix)), Base(radix)) == n
  {
    UnsignedFieldReadsBack(flags, width, precision, n, radix);
    var text := UnsignedField(flags, width, precision, n, radix);
    if n == 0 && (IsRun(text, '0') || IsRun(text, ' ')) {
      assert Worthless(text);
      TrimmedWorthless(text, Base(radix));
    }
  }

  /* ---- strings, characters and pointers ---- */

  /** A string field: as much of the string as the precision lets through, between blanks. */
  lemma StringFieldPieces(flags: set<char>, width: int, precision: int, s: string) returns (before: string, cut: string, after: string)
    ensures StringField(flags, width, precision, s) == before + cut + after
    ensures cut <= s && |cut| == if 0 <= precision < |s| then precision else |s|
    ensures Padded(flags, width, false, before, "", "", cut, after)
  {
    cut := if 0 <= precision < |s| then s[..precision] else s;
    var fill;
    before, fill, after := LayoutPieces(flags, width, false, "", cut, StringField(flags, width, precision, s));
    if '-' !in flags {
      assert fill == "";
    }
  }

  /** A character field, where '0' pads with zeros. */
  lemma CharFieldPieces(flags: set<char>, width: int, c: char) returns (before: string, fill: string, after: string)
    ensures CharField(flags, width, c) == before + fill + [c] + after
    ensures Padded(flags, width, true, before, "", fill, [c], after)
  {
    before, fill, after := LayoutPieces(flags, width, true, "", [c], CharField(flags, width, c));
    assert before + "" == before;
  }

  /** The null pointer is "0x0" between blanks. */
  lemma NullFieldPieces(flags: set<char>, width: int, precision: int) returns (before: string, after: string)
    ensures PointerField(flags, width, precision, 0) == before + "0x0" + after
    ensures Padded(flags, width, false, before, "", "", "0x0", after)
  {
    var fill;
    before, fill, after := LayoutPieces(flags, width, false, "", "0x0", PointerField(flags, width, precision, 0));
  }

  /** Any other pointer is "0x" and its hexadecimal digits, laid out as a number. */
  lemma PointerFieldPieces(flags: set<char>, width: int, precision: int, n: nat)
    returns (before: string, fill: string, zeros: string, digits: string, after: string)
    requires n > 0
    ensures PointerField(flags, width, precision, n) == before + "0x" + fill + (zeros + digits) + after
    ensures Written(digits, zeros, 16, false, precision, n)
    ensures Padded(flags, width, precision < 0, before, "0x", fill, zeros + digits, after)
  {
    var lead;
    before, lead, fill, zeros, digits, after := UnsignedFieldPieces(flags + {'#'}, width, precision, n, X);
  }
}
