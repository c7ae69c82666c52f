/** The text of one converted field as section 7.21.6.1 of ISO/IEC 9899:2011 lays it out, and the text that the
    field emitters of `ft_printf` write, with the exact conditions under which the two agree. */
module IsoFormat {
  import opened CText
  import opened Numerals

  /** Pads `lead + body` to `width`: '-' beats '0', and '0' pads between the two parts where it applies. */
  function Layout(flags: set<char>, width: int, zeroApplies: bool, lead: string, body: string): string
  {
    var gap := width - |lead| - |body|;
    if '-' in flags then lead + body + Fill(' ', gap)
    else if zeroApplies && '0' in flags then lead + Fill('0', gap) + body
    else Fill(' ', gap) + lead + body
  }

  lemma LayoutLength(flags: set<char>, width: int, zeroApplies: bool, lead: string, body: string)
    ensures |Layout(flags, width, zeroApplies, lead, body)| == Max(width, |lead| + |body|)
  {
  }

  /** The digits of a number under a precision, `-1` when omitted; none for zero under precision zero. */
  function Digits(n: nat, alphabet: string, precision: int): string
    requires |alphabet| >= 2
  {
    var t := Numeral(n, alphabet);
    if n == 0 && precision == 0 then "" else Fill('0', precision - |t|) + t
  }

  function Sign(flags: set<char>, negative: bool): string
  {
    if negative then "-" else if '+' in flags then "+" else if ' ' in flags then " " else ""
  }

  function IsoSigned(flags: set<char>, width: int, precision: int, n: int): string
  {
    Layout(flags, width, precision < 0, Sign(flags, n < 0), Digits(Abs(n), DECIMAL, precision))
  }

  /** What goes before the digits, by conversion: nothing for u, "0" for o, "0x" for x and p, "0X" for X. */
  datatype Radix = U | O | X | BigX
  {
    function Alphabet(): (a: string)
      ensures |a| >= 8 && a[0] == '0'
    {
      match this
      case U => DECIMAL
      case O => OCTAL
      case X => HEX_LOWER
      case BigX => HEX_UPPER
    }

    function Prefix(): string
    {
      match this
      case U => ""
      case O => "0"
      case X => "0x"
      case BigX => "0X"
    }
  }

  /** '#' gives a non-zero hexadecimal number its prefix, and raises an octal precision until a zero leads. */
  function IsoUnsigned(flags: set<char>, width: int, precision: int, n: nat, radix: Radix): string
  {
    var digits := Digits(n, radix.Alphabet(), precision);
    if '#' in flags && radix.O? then
      Layout(flags, width, precision < 0, "", if digits != "" && digits[0] == '0' then digits else "0" + digits)
    else
      Layout(flags, width, precision < 0, if '#' in flags && n != 0 then radix.Prefix() else "", digits)
  }

  /** The signed field as `set_print_d` writes it. */
  function SignedField(flags: set<char>, width: int, precision: int, n: int): string
  {
    var sign := Sign(flags, n < 0);
    if n == 0 && precision == 0 && sign != "" then
      if width == 0 then "" else sign + Fill(' ', width - 1)
    else
      IsoSigned(flags, width, precision, n)
  }

  /** The unsigned field as `set_print_oxu_hash` writes it. */
  function UnsignedField(flags: set<char>, width: int, precision: int, n: nat, radix: Radix): string
  {
    if n == 0 && precision < 0 && '0' in flags && '-' in flags then
      Fill('0', Max(1, width))
    else if n == 0 && precision == 0 && '#' in flags && radix.O? && width > 0 then
      Fill(' ', width)
    else
      IsoUnsigned(flags, width, precision, n, radix)
  }

  lemma FirstDiffers(s: string, t: string)
    requires s != "" && t != "" && s[0] != t[0]
    ensures s != t
  {
  }

  /** A signed field is the standard one for every input but this: zero under precision zero with a sign, where
      the sign is dropped at width zero and '+' is not pushed to the right of a wider field. */
  lemma SignedFieldConforms(flags: set<char>, width: nat, precision: int, n: int)
    requires precision >= -1
    ensures SignedField(flags, width, precision, n) == IsoSigned(flags, width, precision, n)
       <==> !(n == 0 && precision == 0 && (if width == 0 then '+' in flags || ' ' in flags
                                           else width > 1 && '+' in flags && '-' !in flags))
  {
    var sign := Sign(flags, n < 0);
    if n == 0 && precision == 0 && sign != "" {
      var iso := IsoSigned(flags, width, precision, n);
      assert iso == if '-' in flags then sign + "" + Fill(' ', width - 1) else Fill(' ', width - 1) + sign + "";
      if width == 0 {
      } else if '-' in flags || width == 1 {
        assert iso == sign + Fill(' ', width - 1);
      } else if '+' in flags {
        FirstDiffers(sign + Fill(' ', width - 1), iso);
      } else {
        assert sign == " ";
        assert iso == sign + Fill(' ', width - 1);
      }
    }
  }

  /** An unsigned field is the standard one for every input but two families: zero without precision under both
      '-' and '0' in a field wider than one, and octal zero under '#' with precision zero and any width. */
  lemma UnsignedFieldConforms(flags: set<char>, width: nat, precision: int, n: nat, radix: Radix)
    requires precision >= -1
    ensures UnsignedField(flags, width, precision, n, radix) == IsoUnsigned(flags, width, precision, n, radix)
       <==> !(n == 0 && (|| (precision < 0 && '0' in flags && '-' in flags && width > 1)
                         || (precision == 0 && '#' in flags && radix.O? && width > 0)))
  {
    var iso := IsoUnsigned(flags, width, precision, n, radix);
    if n == 0 && precision < 0 && '0' in flags && '-' in flags {
      assert Digits(n, radix.Alphabet(), precision) == "0";
      assert iso == "0" + Fill(' ', width - 1);
      if width > 1 {
        assert iso[1] == ' ' && Fill('0', width)[1] == '0';
      } else {
        assert iso == "0" == Fill('0', 1);
      }
    } else if n == 0 && precision == 0 && '#' in flags && radix.O? && width > 0 {
      assert iso == if '-' in flags then "0" + Fill(' ', width - 1) else Fill(' ', width - 1) + "0";
      assert '0' in iso by {
        assert iso[if '-' in flags then 0 else width - 1] == '0';
      }
      assert '0' !in Fill(' ', width);
    }
  }

  /** A string field: the precision cuts the text, and '0' does not apply. */
  function StringField(flags: set<char>, width: int, precision: int, s: string): string
  {
    Layout(flags, width, false, "", if 0 <= precision < |s| then s[..precision] else s)
  }

  /** A one-character field, as for c and %, where '0' pads with zeros. */
  function CharField(flags: set<char>, width: int, c: char): string
  {
    Layout(flags, width, true, "", [c])
  }

  /** A pointer field: always with its prefix, and "0x0" for the null pointer. */
  function PointerField(flags: set<char>, width: int, precision: int, n: nat): string
  {
    if n == 0 then Layout(flags, width, false, "", "0x0")
    else UnsignedField(flags + {'#'}, width, precision, n, X)
  }
}
