/** How far whole directives and whole formats meet section 7.21.6.1 of ISO/IEC 9899:2011, arguments included. */
module Conformance {
  import opened CText
  import opened Numerals
  import opened IsoFormat
  import opened Directives
  import opened FieldReading
  import opened FieldWriter
  import opened Printf

  /* ---- what the standard asks of a directive ---- */

  predicate IsInteger(c: char)
  {
    c == 'd' || c == 'i' || c == 'u' || c == 'o' || c == 'x' || c == 'X'
  }

  /** The `int` argument that a '*' asks for. */
  function IsoStar(args: seq<Arg>): int
  {
    if TakesWord(args) then IsoSignedArg(NoLength, args[0].bits) else 0
  }

  function AfterStar(star: bool, args: seq<Arg>): seq<Arg>
  {
    if star && TakesWord(args) then args[1..] else args
  }

  /** A '*' width below zero. */
  predicate NegativeStar(d: Directive, args: seq<Arg>)
  {
    d.width.WidthStar? && IsoStar(args) < 0
  }

  /** The field width; a negative argument is a '-' flag and its magnitude. */
  function IsoWidth(w: Width, args: seq<Arg>): nat
  {
    match w
    case NoWidth => 0
    case WidthDigits(t) => Value(t, DECIMAL)
    case WidthStar => if IsoStar(args) < 0 then -IsoStar(args) else IsoStar(args)
  }

  /** The precision, -1 for none; a negative argument is taken as if the precision were omitted. */
  function IsoPrecision(p: Precision, args: seq<Arg>): int
  {
    match p
    case NoPrecision => -1
    case PrecisionDigits(t) => Value(t, DECIMAL)
    case PrecisionStar => if IsoStar(args) < 0 then -1 else IsoStar(args)
  }

  lemma RequestConforms(d: Directive, args: seq<Arg>)
    ensures var args1 := AfterStar(d.width.WidthStar?, args);
            && WidthOf(d.width, args) == (IsoWidth(d.width, args), args1)
            && PrecisionOf(d.precision, args1) == (IsoPrecision(d.precision, args1), AfterStar(d.precision.PrecisionStar?, args1))
  {
  }

  /** A negative field width argument is a '-' flag followed by a positive field width. */
  function IsoFlags(d: Directive, args: seq<Arg>): set<char>
  {
    (set c | c in d.flags) + if NegativeStar(d, args) then {'-'} else {}
  }

  /** The signed number whose two's complement representation in the type the length modifier names is the low end of
      `bits`: `signed char` for hh, `short` for h, `int` without a modifier, 64 bits for all the others. */
  function IsoSignedArg(length: Length, bits: nat): int
  {
    match length
    case HH => (var b := bits % 0x100; if b < 0x80 then b else b - 0x100)
    case H => (var b := bits % 0x1_0000; if b < 0x8000 then b else b - 0x1_0000)
    case NoLength => (var b := bits % 0x1_0000_0000; if b < 0x8000_0000 then b else b - 0x1_0000_0000)
    case _ => (var b := bits % 0x1_0000_0000_0000_0000;
               if b < 0x8000_0000_0000_0000 then b else b - 0x1_0000_0000_0000_0000)
  }

  lemma SignedArgConforms(length: Length, bits: nat)
    ensures SignedArg(length, bits) == IsoSignedArg(length, bits)
  {
  }

  /** hh and h convert the promoted argument to `unsigned char` and `unsigned short` before printing. */
  function IsoUnsignedArg(length: Length, bits: nat): nat
  {
    match length
    case NoLength => bits % 0x1_0000_0000
    case HH => bits % 0x100
    case H => bits % 0x1_0000
    case _ => bits % 0x1_0000_0000_0000_0000
  }

  function RadixOf(c: char): Radix
  {
    if c == 'o' then O else if c == 'x' then X else if c == 'X' then BigX else U
  }

  function IsoFieldText(flags: set<char>, width: int, precision: int, length: Length, conv: char, args: seq<Arg>): string
  {
    if conv == 'd' || conv == 'i' then IsoSigned(flags, width, precision, IsoSignedArg(length, BitsOf(args)))
    else if IsInteger(conv) then IsoUnsigned(flags, width, precision, IsoUnsignedArg(length, BitsOf(args)), RadixOf(conv))
    else if conv == 's' then StringField(flags, width, precision, StringOf(args))
    else if conv == 'c' then CharField(flags, width, (BitsOf(args) % 0x100) as char)
    else if conv == 'p' then PointerField(flags, width, precision, BitsOf(args) % 0x1_0000_0000_0000_0000)
    else CharField(flags, width, '%')
  }

  /** The text of a directive. What '0' does to c, and any flag to %, is undefined in the standard, and p is left to the
      implementation: these are as the library has them. */
  function IsoText(d: Directive, args: seq<Arg>): string
  {
    var args1 := AfterStar(d.width.WidthStar?, args);
    var args2 := AfterStar(d.precision.PrecisionStar?, args1);
    IsoFieldText(IsoFlags(d, args), IsoWidth(d.width, args), IsoPrecision(d.precision, args1), d.length, d.conv, args2)
  }

  /* ---- a field pushed to the other side ---- */

  lemma BodyEnds(n: nat, alphabet: string, precision: int)
    requires |alphabet| >= 2 && ' ' !in alphabet && !(n == 0 && precision == 0)
    ensures var t := Digits(n, alphabet, precision); t != "" && t[|t| - 1] != ' '
  {
    var t := Numeral(n, alphabet);
    NumeralDigits(n, alphabet);
    assert t[|t| - 1] in t;
  }

  /** '-' shows exactly when the field is wider than what is in it, as long as that does not end in a blank. */
  lemma LeftShows(flags: set<char>, width: int, zero: bool, lead: string, body: string)
    requires '-' !in flags && body != "" && body[|body| - 1] != ' '
    ensures Layout(flags, width, zero, lead, body) == Layout(flags + {'-'}, width, zero, lead, body)
       <==> width <= |Layout(flags, 0, zero, lead, body)|
  {
    var gap := width - |lead| - |body|;
    var right, left := Layout(flags, width, zero, lead, body), Layout(flags + {'-'}, width, zero, lead, body);
    if gap > 0 {
      assert left[|left| - 1] == ' ' && right[|right| - 1] == body[|body| - 1];
    } else {
      assert right == lead + body == left;
    }
  }

  /* ---- exactly when a field conforms ---- */

  /** The slips of a signed field. `left` is '-' asked for by a negative '*' alone. */
  predicate SignedSlip(flags: set<char>, left: bool, width: nat, precision: int, n: int)
  {
    if n == 0 && precision == 0 then
      !left && if width == 0 then '+' in flags || ' ' in flags else width > 1 && '+' in flags && '-' !in flags
    else
      left && '-' !in flags && width > |IsoSigned(flags, 0, precision, n)|
  }

  lemma SignedConforms(flags: set<char>, left: bool, width: nat, precision: int, n: int)
    requires precision >= -1 && (left ==> width > 0)
    ensures SignedField(flags, width, precision, n) == IsoSigned(flags + if left then {'-'} else {}, width, precision, n)
       <==> !SignedSlip(flags, left, width, precision, n)
  {
    SignedFieldConforms(flags, width, precision, n);
    if !left || '-' in flags {
      assert flags + (if left then {'-'} else {}) == flags;
    } else if n == 0 && precision == 0 {
      EmptySignedLeft(flags, width);
    } else {
      SignedLeft(flags, width, precision, n);
    }
  }

  lemma SignedLeft(flags: set<char>, width: nat, precision: int, n: int)
    requires '-' !in flags && !(n == 0 && precision == 0)
    ensures IsoSigned(flags, width, precision, n) == IsoSigned(flags + {'-'}, width, precision, n)
       <==> width <= |IsoSigned(flags, 0, precision, n)|
  {
    var m: nat := Abs(n);
    var sign, digits := Sign(flags, n < 0), Digits(m, DECIMAL, precision);
    BodyEnds(m, DECIMAL, precision);
    LeftShows(flags, width, precision < 0, sign, digits);
    SignedParts(flags, width, precision, n, sign, digits);
    SignedParts(flags, 0, precision, n, sign, digits);
    SignedParts(flags + {'-'}, width, precision, n, sign, digits);
  }

  lemma SignedParts(flags: set<char>, width: int, precision: int, n: int, sign: string, digits: string)
    requires sign == Sign(flags, n < 0) && digits == Digits(Abs(n), DECIMAL, precision)
    ensures IsoSigned(flags, width, precision, n) == Layout(flags, width, precision < 0, sign, digits)
  {
  }

  lemma EmptySignedLeft(flags: set<char>, width: nat)
    requires width > 0 && '-' !in flags
    ensures SignedField(flags, width, 0, 0) == IsoSigned(flags + {'-'}, width, 0, 0)
  {
    var sign := Sign(flags, false);
    assert Sign(flags + {'-'}, false) == sign;
    if sign == "" {
      assert Fill(' ', width) + "" + "" == "" + "" + Fill(' ', width);
    } else {
      assert sign + "" + Fill(' ', width - 1) == sign + Fill(' ', width - 1);
    }
  }

  /** The slips of an unsigned field that shows the right number. */
  predicate UnsignedSlip(flags: set<char>, left: bool, width: nat, precision: int, n: nat, radix: Radix)
  {
    if n == 0 && precision == 0 then
      '#' in flags && radix.O? && width > 0
    else if left && '-' !in flags then
      width > |IsoUnsigned(flags, 0, precision, n, radix)|
    else
      n == 0 && precision < 0 && '0' in flags && '-' in flags && width > 1
  }

  /** `n` is the argument as the library narrows it, `m` as the standard does. */
  lemma UnsignedConforms(flags: set<char>, left: bool, width: nat, precision: int, n: nat, m: nat, radix: Radix)
    requires precision >= -1 && (left ==> width > 0) && m <= n
    ensures UnsignedField(flags, width, precision, n, radix)
            == IsoUnsigned(flags + if left then {'-'} else {}, width, precision, m, radix)
       <==> n == m && !UnsignedSlip(flags, left, width, precision, n, radix)
  {
    UnsignedFieldConforms(flags, width, precision, n, radix);
    var asked := flags + if left then {'-'} else {};
    if n != m {
      UnsignedFieldReadsBack(flags, width, precision, n, radix);
      UnsignedFieldReadsBack(asked, width, precision, m, radix);
    } else if !left || '-' in flags {
      assert asked == flags;
    } else if n == 0 && precision == 0 {
      EmptyUnsignedLeft(flags, width, radix);
    } else {
      UnsignedLeft(flags, width, precision, n, radix);
    }
  }

  lemma EmptyUnsignedLeft(flags: set<char>, width: nat, radix: Radix)
    requires width > 0 && '-' !in flags
    ensures UnsignedField(flags, width, 0, 0, radix) == IsoUnsigned(flags + {'-'}, width, 0, 0, radix)
       <==> !('#' in flags && radix.O?)
  {
    if '#' in flags && radix.O? {
      FirstDiffers(Fill(' ', width), "0" + Fill(' ', width - 1));
      assert "" + "0" + Fill(' ', width - 1) == "0" + Fill(' ', width - 1);
    } else {
      assert Fill(' ', width) + "" + "" == "" + "" + Fill(' ', width);
    }
  }

  lemma NoBlankDigits(radix: Radix)
    ensures ' ' !in radix.Alphabet()
  {
  }

  lemma UnsignedLeft(flags: set<char>, width: nat, precision: int, n: nat, radix: Radix)
    requires '-' !in flags && !(n == 0 && precision == 0)
    ensures IsoUnsigned(flags, width, precision, n, radix) == IsoUnsigned(flags + {'-'}, width, precision, n, radix)
       <==> width <= |IsoUnsigned(flags, 0, precision, n, radix)|
  {
    NoBlankDigits(radix);
    var digits := Digits(n, radix.Alphabet(), precision);
    BodyEnds(n, radix.Alphabet(), precision);
    if '#' in flags && radix.O? {
      LeftShows(flags, width, precision < 0, "", if digits[0] == '0' then digits else "0" + digits);
    } else {
      LeftShows(flags, width, precision < 0, if '#' in flags && n != 0 then radix.Prefix() else "", digits);
    }
  }

  /* ---- directives and formats ---- */

  /** The inputs on which an integer directive does not print what the standard asks for. */
  predicate Slips(d: Directive, args: seq<Arg>)
  {
    var (width, args1) := WidthOf(d.width, args);
    var (precision, args2) := PrecisionOf(d.precision, args1);
    var flags, left, bits := FlagSet(d.flags), NegativeStar(d, args), BitsOf(args2);
    if d.conv == 'd' || d.conv == 'i' then SignedSlip(flags, left, Abs(width), precision, SignedArg(d.length, bits))
    else
      || UnsignedArg(d.length, bits) != IsoUnsignedArg(d.length, bits)
      || UnsignedSlip(flags, left, Abs(width), precision, UnsignedArg(d.length, bits), RadixOf(d.conv))
  }

  lemma NarrowerIsLess(length: Length, bits: nat)
    ensures IsoUnsignedArg(length, bits) <= UnsignedArg(length, bits)
  {
    var word, turns := bits % UINT32, bits / UINT32;
    assert bits == word + UINT32 * turns;
    SameByte(word, 0x100_0000 * turns);
    SameShort(word, 0x1_0000 * turns);
    assert word % UINT8 <= word && word % UINT16 <= word;
  }

  lemma RequestBounds(d: Directive, args: seq<Arg>)
    ensures var (width, args1) := WidthOf(d.width, args);
            width >= 0 && PrecisionOf(d.precision, args1).0 >= -1 && (NegativeStar(d, args) ==> width > 0)
  {
  }

  /** An integer directive prints the standard text for every input but its slips. */
  lemma DirectiveConforms(d: Directive, args: seq<Arg>)
    requires IsInteger(d.conv)
    ensures DirectiveText(d, args) == IsoText(d, args) <==> !Slips(d, args)
  {
    var (width, args1) := WidthOf(d.width, args);
    var (precision, args2) := PrecisionOf(d.precision, args1);
    var flags, left, bits := FlagSet(d.flags), NegativeStar(d, args), BitsOf(args2);
    RequestConforms(d, args);
    RequestBounds(d, args);
    if d.conv == 'd' || d.conv == 'i' {
      SignedArgConforms(d.length, bits);
      SignedConforms(flags, left, width, precision, SignedArg(d.length, bits));
    } else {
      NarrowerIsLess(d.length, bits);
      UnsignedConforms(flags, left, width, precision, UnsignedArg(d.length, bits), IsoUnsignedArg(d.length, bits), RadixOf(d.conv));
    }
  }

  /** The arguments a directive leaves: one for each star and one for itself, but none for % itself. */
  function IsoRest(d: Directive, args: seq<Arg>): seq<Arg>
  {
    var left := AfterStar(d.precision.PrecisionStar?, AfterStar(d.width.WidthStar?, args));
    if d.conv == '%' || left == [] then left else left[1..]
  }

  function IsoItemRest(item: Item, args: seq<Arg>): seq<Arg>
  {
    if item.Conversion? then IsoRest(item.d, args) else args
  }

  lemma RestConforms(item: Item, args: seq<Arg>)
    ensures ItemRest(item, args) == IsoItemRest(item, args)
  {
    if item.Conversion? {
      RequestConforms(item.d, args);
    }
  }

  /** The output the standard asks of a whole format. */
  function IsoExpected(items: seq<Item>, args: seq<Arg>): string
  {
    if items == [] then ""
    else
      (match items[0]
       case Literal(c) => [c]
       case Conversion(d) => IsoText(d, args))
      + IsoExpected(items[1..], IsoItemRest(items[0], args))
  }

  /** No integer directive slips, and no other one has a negative '*' width. */
  predicate NoSlip(items: seq<Item>, args: seq<Arg>)
  {
    items != [] ==>
      && (items[0].Conversion? ==> if IsInteger(items[0].d.conv) then !Slips(items[0].d, args) else !NegativeStar(items[0].d, args))
      && NoSlip(items[1..], IsoItemRest(items[0], args))
  }

  /** A format of directives that do not slip prints what the standard asks for. */
  lemma {:induction false} FormatConforms(items: seq<Item>, args: seq<Arg>)
    requires NoSlip(items, args)
    ensures Expected(items, args) == IsoExpected(items, args)
  {
    if items != [] {
      RestConforms(items[0], args);
      FormatConforms(items[1..], IsoItemRest(items[0], args));
      match items[0]
      case Literal(_) =>
      case Conversion(d) => ItemConforms(d, args);
    }
  }

  lemma ItemConforms(d: Directive, args: seq<Arg>)
    requires if IsInteger(d.conv) then !Slips(d, args) else !NegativeStar(d, args)
    ensures DirectiveText(d, args) == IsoText(d, args)
  {
    if IsInteger(d.conv) {
      DirectiveConforms(d, args);
    } else {
      RequestConforms(d, args);
      assert IsoFlags(d, args) == FlagSet(d.flags);
    }
  }
}
