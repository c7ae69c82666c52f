/** The field emitters of `ft_printf` over its `t_data` record. */
module FieldWriter {
  import opened CText
  import opened Numerals
  import opened IsoFormat
  import opened Directives

  function FlagSet(flags: string): set<char>
  {
    set c | c in flags
  }

  function Max3(x: int, y: int, z: int): int
  {
    Max(Max(x, y), z)
  }

  /** The record of one directive, with the bytes written to the standard output so far. */
  class Data {
    var out: string
    var ori: string
    var flags: string
    var width: int
    var precison: int
    var noPre: bool
    var len: int
    var blank: int
    var cast: Length

    constructor ()
      ensures out == ""
    {
      out, ori, flags, cast := "", "", "", NoLength;
      width, precison, noPre, len, blank := 0, -1, false, 0, 0;
    }

    /** The state in which a directive's parse leaves the record for the emitters. */
    ghost predicate Parsed()
      reads this
    {
      width >= 0 && precison >= -1 && !noPre && len == 0 && blank == 0
    }

    method PutChar(c: char)
      modifies `out
      ensures out == old(out) + [c]
    {
      out := out + [c];
    }

    method PutNChar(c: char, nbr: int)
      modifies `out
      ensures out == old(out) + Fill(c, nbr)
    {
      var n := nbr;
      while n >= 1
        invariant n <= Max(0, nbr)
        invariant nbr < 0 ==> n == nbr
        invariant nbr >= 0 ==> n >= 0
        invariant out == old(out) + Fill(c, nbr - n)
      {
        out := out + [c];
        n := n - 1;
      }
    }

    method PutStr(s: string)
      modifies `out
      ensures out == old(out) + s
    {
      var i := 0;
      while i < |s|
        invariant i <= |s| && out == old(out) + s[..i]
      {
        out := out + [s[i]];
        i := i + 1;
      }
    }

    method PutNStr(s: string, nbr: nat)
      modifies `out
      ensures out == old(out) + if nbr < |s| then s[..nbr] else s
    {
      var i := 0;
      while i < |s| && i < nbr
        invariant i <= |s| && i <= nbr && out == old(out) + s[..i]
      {
        out := out + [s[i]];
        i := i + 1;
      }
    }

    /* ---- signed fields ---- */

    /** `ori` is the digit text `t`, behind a minus sign when `negative`. */
    ghost predicate HoldsSigned(negative: bool, t: string)
      reads `ori
    {
      t != "" && IsDigit(t[0]) && ori == if negative then "-" + t else t
    }

    method SetDLen(ghost negative: bool, ghost t: string)
      requires HoldsSigned(negative, t) && precison >= |t|
      modifies `len, `blank
      ensures blank == Max(0, width - precison - |Sign(FlagSet(flags), negative)|)
      ensures len == Max(width, precison + |Sign(FlagSet(flags), negative)|)
    {
      if ori[0] != '-' {
        len := Max3(width, |ori|, precison);
        blank := len - precison;
        if ' ' in flags || '+' in flags {
          if len == precison {
            len := len + 1;
          } else {
            blank := blank - 1;
          }
        }
      } else {
        len := Max(width, precison);
        blank := len - precison;
        if len == precison {
          len := len + 1;
        } else {
          blank := blank - 1;
        }
      }
    }

    method SetD(ghost negative: bool, ghost t: string)
      requires Parsed() && HoldsSigned(negative, t)
      modifies `precison, `noPre, `len, `blank
      ensures noPre <==> old(precison) == -1
      ensures if ori[0] == '0' && old(precison) == 0 then precison == 0 && len == width
              else && precison == Max(old(precison), |t|)
                   && blank == Max(0, width - precison - |Sign(FlagSet(flags), negative)|)
                   && len == Max(width, precison + |Sign(FlagSet(flags), negative)|)
    {
      if precison == -1 {
        noPre := true;
      }
      if !(ori[0] == '0' && precison == 0) {
        if ori[0] != '-' && precison < |ori| {
          precison := |ori|;
        } else if ori[0] == '-' && precison < |ori| - 1 {
          precison := |ori| - 1;
        }
      }
      if !(ori[0] == '0' && precison == 0) {
        SetDLen(negative, t);
      } else {
        len := width;
      }
    }

    method PlusBlank(ghost negative: bool, ghost t: string)
      requires HoldsSigned(negative, t)
      modifies `out
      ensures out == old(out) + Sign(FlagSet(flags), negative)
    {
      if ori[0] != '-' {
        if '+' in flags {
          PutChar('+');
        } else if ' ' in flags {
          PutChar(' ');
        }
      } else {
        PutChar('-');
      }
    }

    /** The number without its sign. */
    method PutMagnitude(ghost negative: bool, ghost t: string)
      requires HoldsSigned(negative, t)
      modifies `out
      ensures out == old(out) + t
    {
      if ori[0] == '-' {
        PutStr(ori[1..]);
      } else {
        PutStr(ori);
      }
    }

    /** The zeros that the precision asks for, then the number without its sign. */
    method PutDigits(ghost negative: bool, ghost t: string)
      requires HoldsSigned(negative, t)
      modifies `out
      ensures out == old(out) + Fill('0', precison - |t|) + t
    {
      if ori[0] == '-' {
        PutNChar('0', precison - |ori| + 1);
      } else {
        PutNChar('0', precison - |ori|);
      }
      PutMagnitude(negative, t);
    }

    method GoRight(ghost negative: bool, ghost t: string)
      requires HoldsSigned(negative, t) && '-' !in flags
      modifies `out
      ensures out == Emission(old(out), FlagSet(flags), noPre, Sign(FlagSet(flags), negative), Fill('0', precison - |t|), t, blank)
    {
      if '0' in flags && noPre {
        PlusBlank(negative, t);
        PutNChar('0', blank);
        PutMagnitude(negative, t);
      } else {
        PutNChar(' ', blank);
        PlusBlank(negative, t);
        PutDigits(negative, t);
      }
    }

    method GoLeft(ghost negative: bool, ghost t: string)
      requires HoldsSigned(negative, t) && '-' in flags
      modifies `out
      ensures out == Emission(old(out), FlagSet(flags), noPre, Sign(FlagSet(flags), negative), Fill('0', precison - |t|), t, blank)
    {
      PlusBlank(negative, t);
      PutDigits(negative, t);
      PutNChar(' ', blank);
    }

    method ZeroNoZe()
      modifies `out
      ensures var sign := Sign(FlagSet(flags), false);
              out == old(out) + if sign == "" then Fill(' ', len) else sign + Fill(' ', len - 1)
    {
      if '+' !in flags && ' ' !in flags {
        PutNChar(' ', len);
      } else {
        if '+' in flags {
          PutChar('+');
        } else {
          PutChar(' ');
        }
        PutNChar(' ', len - 1);
      }
    }

    method PutZeroD()
      modifies `out
      ensures var sign, pad := Sign(FlagSet(flags), false), if '0' in flags && noPre then '0' else ' ';
              out == old(out) + if sign == "" then Fill(pad, len) else sign + Fill(pad, len - 1)
    {
      if '0' in flags && noPre {
        if '+' !in flags && ' ' !in flags {
          PutNChar('0', len);
        } else {
          if '+' in flags {
            PutChar('+');
          } else {
            PutChar(' ');
          }
          PutNChar('0', len - 1);
        }
      } else {
        ZeroNoZe();
      }
    }

    /** The digits of `set_print_d`, to the right or to the left of the blanks. */
    method PrintDigitsD(ghost negative: bool, ghost t: string, ghost sign: string, ghost p: int, ghost field: string)
      requires HoldsSigned(negative, t) && width >= 0 && p >= -1 && (noPre <==> p == -1)
      requires sign == Sign(FlagSet(flags), negative)
      requires precison == Max(p, |t|) && blank == Max(0, width - precison - |sign|) && len == Max(width, precison + |sign|)
      requires field == Layout(FlagSet(flags), width, p < 0, sign, Fill('0', p - |t|) + t)
      modifies `out
      ensures out == old(out) + field && |field| == len
    {
      FieldShape(field, out, FlagSet(flags), width, p, sign, t);
      if '-' !in flags {
        GoRight(negative, t);
      } else {
        GoLeft(negative, t);
      }
    }

    /** `set_print_d`: the field is the one section 7.21.6.1 asks for, up to `SignedFieldConforms`, and `len` counts it. */
    method SetPrintD(ghost n: int)
      requires Parsed() && ori == SignedNumeral(n)
      modifies `out, `precison, `noPre, `len, `blank
      ensures out == old(out) + SignedField(FlagSet(flags), width, old(precison), n)
      ensures len == |SignedField(FlagSet(flags), width, old(precison), n)|
    {
      SignedHead(n);
      ghost var t := Numeral(Abs(n), DECIMAL);
      SetD(n < 0, t);
      if len != 0 && !(ori[0] == '0' && precison == 0) {
        SignedLayout(FlagSet(flags), width, old(precison), n, t);
        PrintDigitsD(n < 0, t, Sign(FlagSet(flags), n < 0), old(precison), SignedField(FlagSet(flags), width, old(precison), n));
      } else {
        SignedNothing(FlagSet(flags), width);
        if len != 0 && ori[0] == '0' {
          PutZeroD();
        }
      }
    }

    /* ---- unsigned fields ---- */

    ghost predicate HoldsUnsigned(n: nat, radix: Radix)
      reads `ori
    {
      ori == Numeral(n, radix.Alphabet())
    }

    lemma UnsignedHead(n: nat, radix: Radix)
      requires HoldsUnsigned(n, radix)
      ensures ori != "" && (ori[0] == '0' <==> n == 0)
      ensures n == 0 ==> ori == "0"
    {
      Alphabets();
      NumeralHead(n, radix.Alphabet());
    }

    /** The test `pre_fix[0] == '0' && !*(pre_fix + 1)`. */
    predicate IsOctalPrefix(prefix: string)
    {
      CharAt(prefix, 0) == '0' && CharAt(prefix, 1) == '\0'
    }

    lemma OctalPrefix(radix: Radix)
      ensures IsOctalPrefix(radix.Prefix()) <==> radix.O?
    {
    }

    /** The part of the prefix that is printed: an octal zero is not, once the precision supplies one. */
    function Lead(prefix: string): string
      reads `flags, `precison, `ori
    {
      if '#' in flags && !(IsOctalPrefix(prefix) && precison > |ori|) then prefix else ""
    }

    method ForSetOux(prefix: string)
      requires '#' in flags && precison >= |ori|
      modifies `len, `blank
      ensures len == Max(width, precison + |Lead(prefix)|)
      ensures blank == Max(0, width - precison - |Lead(prefix)|)
    {
      if |ori| >= precison {
        len := Max3(width, |ori| + |prefix|, precison);
      } else if !IsOctalPrefix(prefix) {
        len := Max3(width, |ori|, precison + |prefix|);
      } else {
        len := Max3(width, |ori|, precison);
        blank := len - precison;
      }
      if !(IsOctalPrefix(prefix) && precison > |ori|) {
        blank := len - precison - |prefix|;
      }
    }

    method SetOxu(prefix: string, ghost n: nat, ghost radix: Radix)
      requires Parsed() && HoldsUnsigned(n, radix) && prefix == radix.Prefix()
      modifies `precison, `noPre, `len, `blank
      ensures noPre <==> old(precison) == -1
      ensures n != 0 ==> && precison == Max(old(precison), |ori|)
                         && len == Max(width, precison + |Lead(prefix)|)
                         && blank == Max(0, width - precison - |Lead(prefix)|)
      ensures n == 0 ==> && precison == Max(old(precison), if old(precison) == 0 then 0 else 1)
                         && len == if precison == 0 && width == 0 then 0 else Max(1, Max(width, precison))
    {
      UnsignedHead(n, radix);
      if precison == -1 {
        noPre := true;
      }
      if !(ori[0] == '0' && precison == 0) && precison < |ori| {
        precison := |ori|;
      }
      if ori[0] != '0' && '#' in flags {
        ForSetOux(prefix);
      } else if !(width == 0 && precison <= 0 && ori[0] == '0') {
        len := Max3(width, |ori|, precison);
        blank := len - precison;
      }
    }

    method ForPrintOux(prefix: string)
      requires '-' in flags
      modifies `out
      ensures out == Emission(old(out), FlagSet(flags), noPre, Lead(prefix), Fill('0', precison - |ori|), ori, blank)
    {
      if '#' in flags && !(IsOctalPrefix(prefix) && precison > |ori|) {
        PutStr(prefix);
      }
      PutNChar('0', precison - |ori|);
      PutStr(ori);
      PutNChar(' ', blank);
    }

    method ForRightOux(prefix: string)
      modifies `out
      ensures out == old(out) + Fill(' ', blank) + Lead(prefix) + Fill('0', precison - |ori|) + ori
    {
      PutNChar(' ', blank);
      if '#' in flags {
        if !(IsOctalPrefix(prefix) && precison > |ori|) {
          PutStr(prefix);
        }
        PutNChar('0', precison - |ori|);
      } else {
        PutNChar('0', precison - |ori|);
      }
      PutStr(ori);
    }

    method GoRightOux(prefix: string)
      requires '-' !in flags && (noPre ==> precison == |ori|)
      requires blank == len - |Lead(prefix)| - precison
      modifies `out
      ensures out == Emission(old(out), FlagSet(flags), noPre, Lead(prefix), Fill('0', precison - |ori|), ori, blank)
    {
      if '0' in flags && noPre {
        if '#' in flags {
          if !(IsOctalPrefix(prefix) && precison > |ori|) {
            PutStr(prefix);
          }
          PutNChar('0', len - |prefix| - |ori|);
        } else {
          PutNChar('0', len - |ori|);
        }
        PutStr(ori);
      } else {
        ForRightOux(prefix);
      }
    }

    method PutNoPre()
      modifies `out
      ensures out == Padded(old(out), FlagSet(flags), Fill('0', precison), len - precison)
    {
      if '-' !in flags {
        PutNChar(' ', len - precison);
        PutNChar('0', precison);
      } else {
        PutNChar('0', precison);
        PutNChar(' ', len - precison);
      }
    }

    method PutZeroOux()
      modifies `out
      ensures out == if noPre && '0' in flags then old(out) + Fill('0', len)
                     else var p := if noPre then 1 else precison; Padded(old(out), FlagSet(flags), Fill('0', p), len - p)
    {
      if noPre {
        if '0' in flags {
          PutNChar('0', len);
        } else {
          if '-' !in flags {
            PutNChar(' ', len - 1);
            PutChar('0');
          } else {
            PutChar('0');
            PutNChar(' ', len - 1);
          }
          assert Fill('0', 1) == "0";
        }
      } else {
        PutNoPre();
      }
    }

    /** The digits of `set_print_oxu_hash` for a number other than zero. */
    method PrintDigitsOux(prefix: string, ghost p: int, ghost field: string)
      requires width >= 0 && p >= -1 && (noPre <==> p == -1) && precison == Max(p, |ori|)
      requires len == Max(width, precison + |Lead(prefix)|) && blank == Max(0, width - precison - |Lead(prefix)|)
      requires field == Layout(FlagSet(flags), width, p < 0, Lead(prefix), Fill('0', p - |ori|) + ori)
      modifies `out
      ensures out == old(out) + field && |field| == len
    {
      FieldShape(field, out, FlagSet(flags), width, p, Lead(prefix), ori);
      if '-' !in flags {
        GoRightOux(prefix);
      } else {
        ForPrintOux(prefix);
      }
    }

    /** The branch of `set_print_oxu_hash` for a number other than zero; `p` is the precision that was asked for. */
    method PrintNonZero(prefix: string, ghost p: int, ghost n: nat, ghost radix: Radix)
      requires width >= 0 && p >= -1 && n != 0 && HoldsUnsigned(n, radix) && prefix == radix.Prefix()
      requires (noPre <==> p == -1) && precison == Max(p, |ori|)
      requires len == Max(width, precison + |Lead(prefix)|) && blank == Max(0, width - precison - |Lead(prefix)|)
      modifies `out
      ensures out == old(out) + UnsignedField(FlagSet(flags), width, p, n, radix)
      ensures |UnsignedField(FlagSet(flags), width, p, n, radix)| == len
    {
      OctalPrefix(radix);
      NonZeroField(FlagSet(flags), width, p, n, radix, ori, Lead(prefix));
      PrintDigitsOux(prefix, p, UnsignedField(FlagSet(flags), width, p, n, radix));
    }

    /** `set_print_oxu_hash`: the standard field up to `UnsignedFieldConforms`, and `len` counts it. */
    method SetPrintOxuHash(prefix: string, ghost n: nat, ghost radix: Radix)
      requires Parsed() && HoldsUnsigned(n, radix) && prefix == radix.Prefix()
      modifies `out, `precison, `noPre, `len, `blank
      ensures out == old(out) + UnsignedField(FlagSet(flags), width, old(precison), n, radix)
      ensures len == |UnsignedField(FlagSet(flags), width, old(precison), n, radix)|
    {
      UnsignedHead(n, radix);
      SetOxu(prefix, n, radix);
      if !(len == 0 && ori[0] == '0') {
        if ori[0] == '0' {
          PrintZero(old(precison), radix);
        } else {
          PrintNonZero(prefix, old(precison), n, radix);
        }
      } else {
        EmptyField(FlagSet(flags), radix);
        if precison == 0 && '#' in flags && CharAt(prefix, 0) == '0' && |prefix| == 1 {
          PutChar('0');
          len := 1;
        }
      }
    }

    /** The field of zero, where anything is printed. */
    method PrintZero(ghost p: int, ghost radix: Radix)
      requires width >= 0 && p >= -1 && (width > 0 || p != 0) && (noPre <==> p == -1)
      requires precison == (if p < 0 then 1 else p) && len == Max(1, Max(width, precison))
      modifies `out
      ensures out == old(out) + UnsignedField(FlagSet(flags), width, p, 0, radix)
      ensures len == |UnsignedField(FlagSet(flags), width, p, 0, radix)|
    {
      ZeroField(FlagSet(flags), width, p, radix);
      LayoutPadded(out, FlagSet(flags), width, false, Fill('0', precison));
      PutZeroOux();
    }
  }

  lemma FillAdd(c: char, m: int, n: int)
    ensures Fill(c, m) + Fill(c, n) == Fill(c, Max(0, m) + Max(0, n))
  {
  }

  /** A text between or before blanks. */
  function Padded(pre: string, flags: set<char>, body: string, blank: int): string
  {
    if '-' in flags then pre + body + Fill(' ', blank) else pre + Fill(' ', blank) + body
  }

  lemma LayoutPadded(pre: string, flags: set<char>, width: int, zeroApplies: bool, body: string)
    requires !(zeroApplies && '0' in flags && '-' !in flags)
    ensures pre + Layout(flags, width, zeroApplies, "", body) == Padded(pre, flags, body, Max(width, |body|) - |body|)
    ensures |Layout(flags, width, zeroApplies, "", body)| == Max(width, |body|)
  {
    var gap := width - |body|;
    assert Fill(' ', gap) == Fill(' ', Max(width, |body|) - |body|);
    if '-' in flags {
      assert pre + ("" + body + Fill(' ', gap)) == pre + body + Fill(' ', gap);
    } else {
      assert pre + (Fill(' ', gap) + "" + body) == pre + Fill(' ', gap) + body;
    }
  }

  /** The pieces of a field after the text `pre`, in the order in which the emitters write them. */
  function Emission(pre: string, flags: set<char>, zeroApplies: bool, lead: string, zeros: string, t: string, blank: int): string
  {
    if '-' in flags then pre + lead + zeros + t + Fill(' ', blank)
    else if zeroApplies && '0' in flags then pre + lead + Fill('0', blank) + t
    else pre + Fill(' ', blank) + lead + zeros + t
  }

  lemma LayoutEmission(pre: string, flags: set<char>, width: int, zeroApplies: bool, lead: string, zeros: string, t: string)
    requires zeroApplies ==> zeros == ""
    ensures pre + Layout(flags, width, zeroApplies, lead, zeros + t)
         == Emission(pre, flags, zeroApplies, lead, zeros, t, Max(0, width - |lead| - |zeros| - |t|))
  {
    var gap := width - |lead| - |zeros| - |t|;
    assert Fill(' ', gap) == Fill(' ', Max(0, gap)) && Fill('0', gap) == Fill('0', Max(0, gap));
    if '-' in flags {
      assert pre + (lead + (zeros + t) + Fill(' ', gap)) == pre + lead + zeros + t + Fill(' ', gap);
    } else if zeroApplies && '0' in flags {
      assert pre + (lead + Fill('0', gap) + ("" + t)) == pre + lead + Fill('0', gap) + t;
    } else {
      assert pre + (Fill(' ', gap) + lead + (zeros + t)) == pre + Fill(' ', gap) + lead + zeros + t;
    }
  }

  /** A field laid out from its pieces: what the emitters write, and how long it is. */
  lemma FieldShape(field: string, pre: string, flags: set<char>, width: int, precision: int, lead: string, t: string)
    requires width >= 0 && precision >= -1
    requires field == Layout(flags, width, precision < 0, lead, Fill('0', precision - |t|) + t)
    ensures var p := Max(precision, |t|);
            && pre + field == Emission(pre, flags, precision < 0, lead, Fill('0', p - |t|), t, Max(0, width - p - |lead|))
            && |field| == Max(width, p + |lead|)
  {
    var zeros := Fill('0', Max(precision, |t|) - |t|);
    assert zeros == Fill('0', precision - |t|);
    LayoutLength(flags, width, precision < 0, lead, zeros + t);
    LayoutEmission(pre, flags, width, precision < 0, lead, zeros, t);
    assert width - |lead| - |zeros| - |t| == width - Max(precision, |t|) - |lead|;
  }

  lemma EmptyField(flags: set<char>, radix: Radix)
    ensures UnsignedField(flags, 0, 0, 0, radix) == if '#' in flags && radix.O? then "0" else ""
  {
  }

  /** The field of zero, where any digits are printed, or any blanks. */
  lemma ZeroField(flags: set<char>, width: int, precision: int, radix: Radix)
    requires width >= 0 && precision >= -1 && (width > 0 || precision != 0)
    ensures var p := if precision < 0 then 1 else precision;
            UnsignedField(flags, width, precision, 0, radix) ==
            if precision < 0 && '0' in flags then Fill('0', Max(1, width))
            else Layout(flags, width, false, "", Fill('0', p))
  {
    var p := if precision < 0 then 1 else precision;
    var digits := Digits(0, radix.Alphabet(), precision);
    assert Numeral(0, radix.Alphabet()) == "0" == Fill('0', 1);
    FillAdd('0', p - 1, 1);
    assert digits == Fill('0', p);
    if precision < 0 && '0' in flags {
      FillAdd('0', width - 1, 1);
      assert Layout(flags, width, true, "", digits) == if '-' in flags then digits + Fill(' ', width - 1) else Fill('0', Max(1, width));
    } else if precision == 0 && '#' in flags && radix.O? {
      assert Layout(flags, width, false, "", "") == Fill(' ', width);
    }
  }

  /** The field of a number other than zero, with the digits split as the emitters print them. */
  lemma NonZeroField(flags: set<char>, width: int, precision: int, n: nat, radix: Radix, t: string, lead: string)
    requires width >= 0 && precision >= -1 && n > 0 && t == Numeral(n, radix.Alphabet())
    requires lead == if '#' in flags && !(radix.O? && precision > |t|) then radix.Prefix() else ""
    ensures UnsignedField(flags, width, precision, n, radix)
         == Layout(flags, width, precision < 0, lead, Fill('0', precision - |t|) + t)
  {
    var zeros := Fill('0', precision - |t|);
    Alphabets();
    NumeralHead(n, radix.Alphabet());
    assert Digits(n, radix.Alphabet(), precision) == zeros + t;
    if '#' in flags && radix.O? {
      if precision > |t| {
        assert (zeros + t)[0] == '0';
      } else {
        assert zeros + t == t;
        OctalLayout(flags, width, precision < 0, t);
      }
    }
  }

  lemma SignedLayout(flags: set<char>, width: int, precision: int, n: int, t: string)
    requires !(n == 0 && precision == 0) && t == Numeral(Abs(n), DECIMAL)
    ensures SignedField(flags, width, precision, n)
         == Layout(flags, width, precision < 0, Sign(flags, n < 0), Fill('0', precision - |t|) + t)
  {
    assert Digits(Abs(n), DECIMAL, precision) == Fill('0', precision - |t|) + t;
    assert SignedField(flags, width, precision, n) == IsoSigned(flags, width, precision, n);
  }

  /** Zero under precision zero. */
  lemma SignedNothing(flags: set<char>, width: nat)
    ensures SignedField(flags, width, 0, 0) == if Sign(flags, false) == "" then Fill(' ', width)
                                               else if width == 0 then "" else Sign(flags, false) + Fill(' ', width - 1)
  {
    if Sign(flags, false) == "" {
      assert Layout(flags, width, false, "", "") == Fill(' ', width);
    }
  }

  /** The facts about a signed numeral that the emitters test for. */
  lemma SignedHead(n: int)
    ensures var t := Numeral(Abs(n), DECIMAL);
            t != "" && IsDigit(t[0]) && (t[0] == '0' <==> n == 0) && SignedNumeral(n) == if n < 0 then "-" + t else t
  {
    Alphabets();
    NumeralHead(Abs(n), DECIMAL);
    DecimalNumeral(Abs(n));
  }

  /** Raising the octal precision by one digit and printing a "0" prefix come to the same. */
  lemma OctalLayout(flags: set<char>, width: int, zeroApplies: bool, t: string)
    ensures Layout(flags, width, zeroApplies, "", "0" + t) == Layout(flags, width, zeroApplies, "0", t)
  {
    var gap := width - |t| - 1;
    if '-' in flags {
      assert "" + ("0" + t) + Fill(' ', gap) == "0" + t + Fill(' ', gap);
    } else if zeroApplies && '0' in flags {
      assert "" + Fill('0', gap) + ("0" + t) == "0" + Fill('0', gap) + t;
    } else {
      assert Fill(' ', gap) + "" + ("0" + t) == Fill(' ', gap) + "0" + t;
    }
  }
}
