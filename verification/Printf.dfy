/** `ft_printf`: the parse of each directive, the conversions, and the driver that strings them together. */
module Printf {
  import opened CText
  import opened Numerals
  import opened Decimals
  import opened Conversions
  import opened IsoFormat
  import opened Directives
  import opened FieldWriter

  /* ---- what a format string means ---- */

  datatype Item = Literal(c: char) | Conversion(d: Directive)

  function RenderItem(item: Item): string
  {
    match item
    case Literal(c) => [c]
    case Conversion(d) => Render(d)
  }

  /** The format string that consists of `items`. */
  function RenderAll(items: seq<Item>): string
  {
    if items == [] then "" else RenderItem(items[0]) + RenderAll(items[1..])
  }

  /** A literal is any character but '%'; wide characters and strings are not part of this model. */
  predicate ValidItem(item: Item)
  {
    match item
    case Literal(c) => c != '%' && c != '\0'
    case Conversion(d) => Valid(d) && !(d.length.L? && (d.conv == 's' || d.conv == 'c'))
  }

  /** The argument of a signed conversion, narrowed as its length modifier says. */
  function SignedArg(length: Length, bits: nat): int
  {
    match length
    case NoLength => ToSigned(bits, UINT32)
    case HH => ToSigned(bits, UINT8)
    case H => ToSigned(bits, UINT16)
    case _ => ToSigned(bits, UINT64)
  }

  /** The argument of an unsigned conversion; hh and h do not narrow it below `unsigned int`. */
  function UnsignedArg(length: Length, bits: nat): nat
  {
    match length
    case NoLength | HH | H => bits % UINT32
    case _ => bits % UINT64
  }

  function BitsOf(args: seq<Arg>): nat
  {
    if TakesWord(args) then args[0].bits else 0
  }

  function StringOf(args: seq<Arg>): CString
  {
    if args != [] && args[0].Text? then args[0].s else "(null)"
  }

  /** The arguments a directive reads, stars first. */
  function AfterStars(d: Directive, args: seq<Arg>): seq<Arg>
  {
    PrecisionOf(d.precision, WidthOf(d.width, args).1).1
  }

  function Rest(d: Directive, args: seq<Arg>): seq<Arg>
  {
    var left := AfterStars(d, args);
    if d.conv == '%' || left == [] then left else left[1..]
  }

  /** Enough arguments of the right kinds, and no '*' width that `int` cannot negate. */
  predicate Typed(d: Directive, args: seq<Arg>)
  {
    var args1 := WidthOf(d.width, args).1;
    var left := AfterStars(d, args);
    && (d.width.WidthStar? ==> TakesWord(args) && 2 * TakeInt(args).0 > -(UINT32 as int))
    && (d.precision.PrecisionStar? ==> TakesWord(args1))
    && (d.conv == 's' ==> left != [] && !left[0].Word?)
    && (d.conv != 's' && d.conv != '%' ==> TakesWord(left))
  }

  /** The text of one field. */
  function FieldText(flags: set<char>, width: int, precision: int, length: Length, conv: char, args: seq<Arg>): string
  {
    match conv
    case 'd' | 'i' => SignedField(flags, width, precision, SignedArg(length, BitsOf(args)))
    case 'u' => UnsignedField(flags, width, precision, UnsignedArg(length, BitsOf(args)), U)
    case 'o' => UnsignedField(flags, width, precision, UnsignedArg(length, BitsOf(args)), O)
    case 'x' => UnsignedField(flags, width, precision, UnsignedArg(length, BitsOf(args)), X)
    case 'X' => UnsignedField(flags, width, precision, UnsignedArg(length, BitsOf(args)), BigX)
    case 'c' => CharField(flags, width, (BitsOf(args) % UINT8) as char)
    case 's' => StringField(flags, width, precision, StringOf(args))
    case 'p' => PointerField(flags, width, precision, BitsOf(args) % UINT64)
    case _ => CharField(flags, width, '%')
  }

  function DirectiveText(d: Directive, args: seq<Arg>): string
  {
    var (width, args1) := WidthOf(d.width, args);
    var (precision, args2) := PrecisionOf(d.precision, args1);
    FieldText(FlagSet(d.flags), width, precision, d.length, d.conv, args2)
  }

  function ItemText(item: Item, args: seq<Arg>): string
  {
    match item
    case Literal(c) => [c]
    case Conversion(d) => DirectiveText(d, args)
  }

  function ItemRest(item: Item, args: seq<Arg>): seq<Arg>
  {
    match item
    case Literal(_) => args
    case Conversion(d) => Rest(d, args)
  }

  /** The output that a whole format calls for. */
  function Expected(items: seq<Item>, args: seq<Arg>): string
  {
    if items == [] then "" else ItemText(items[0], args) + Expected(items[1..], ItemRest(items[0], args))
  }

  predicate WellTyped(items: seq<Item>, args: seq<Arg>)
  {
    items != [] ==>
      && ValidItem(items[0])
      && (items[0].Conversion? ==> Typed(items[0].d, args))
      && WellTyped(items[1..], ItemRest(items[0], args))
  }

  /* ---- reading a directive ---- */

  class VaList {
    var rest: seq<Arg>

    constructor (args: seq<Arg>)
      ensures rest == args
    {
      rest := args;
    }

    method Int() returns (x: int)
      modifies this
      ensures (x, rest) == TakeInt(old(rest))
    {
      x := 0;
      if rest != [] && rest[0].Word? {
        x := ToSigned(rest[0].bits, UINT32);
        rest := rest[1..];
      }
    }

    /** `va_arg` with a type as wide as a register. */
    method Next() returns (bits: nat)
      requires TakesWord(rest)
      modifies this
      ensures bits == BitsOf(old(rest)) && rest == old(rest)[1..]
    {
      bits := rest[0].bits;
      rest := rest[1..];
    }

    method Pointer() returns (s: Arg)
      requires rest != []
      modifies this
      ensures s == old(rest)[0] && rest == old(rest)[1..]
    {
      s := rest[0];
      rest := rest[1..];
    }
  }

  ghost function ParseOf(data: Data, va: VaList): Parse
    reads data, va
  {
    Parse(data.flags, data.width, data.precison, va.rest)
  }

  method Init(data: Data)
    modifies data
    ensures data.Parsed() && data.flags == "" && data.width == 0 && data.precison == -1 && data.out == old(data.out)
  {
    data.ori := "";
    data.flags := "";
    data.width := 0;
    data.precison := -1;
    data.len := 0;
    data.noPre := false;
    data.blank := 0;
    data.cast := NoLength;
  }

  method FtStrnchr(s: string, c: char, size: nat) returns (found: bool)
    requires c != '\0' && '\0' !in s
    ensures found <==> c in s[..if size < |s| then size + 1 else |s|]
  {
    var k, n := 0, size;
    while k < |s| && c != s[k] && n > 0
      invariant k <= |s| && 0 <= n && k + n == size
      invariant c !in s[..k]
    {
      k := k + 1;
      n := n - 1;
    }
    found := k < |s| && c == s[k];
    var e := if size < |s| then size + 1 else |s|;
    if found {
      assert s[..e][k] == c;
    } else {
      assert s[..e] == if k < |s| then s[..k] + [s[k]] else s[..k];
    }
  }

  method FtStrnchrDouble(s: string, c: char, size: nat) returns (even: bool)
    requires c != '\0' && '\0' !in s && size <= |s|
    ensures even <==> FirstRun(s[..size], c) % 2 == 0
  {
    var i, k, n := 0, 0, size;
    ghost var w := s[..size];
    while k < |s| && c != s[k] && n > 0
      invariant 0 <= n && k + n == size && FirstRun(w[k..], c) == FirstRun(w, c)
    {
      assert w[k..][1..] == w[k + 1..];
      k := k + 1;
      n := n - 1;
    }
    while k < |s| && c == s[k] && n > 0
      invariant 0 <= n && k + n == size && (i == 0 ==> k == size || s[k] == c)
      invariant i + (if i == 0 then FirstRun(w[k..], c) else RunHere(w[k..], c)) == FirstRun(w, c)
    {
      assert w[k..][1..] == w[k + 1..];
      i := i + 1;
      k := k + 1;
      n := n - 1;
    }
    even := i % 2 == 0;
  }

  method SetCast(data: Data, format: string, size: nat)
    requires size < |format| && '\0' !in format
    modifies data`cast
    ensures data.cast == CastOf(format, size)
  {
    var h := FtStrnchr(format, 'h', size);
    var l := FtStrnchr(format, 'l', size);
    var j := FtStrnchr(format, 'j', size);
    var z := FtStrnchr(format, 'z', size);
    if h {
      var even := FtStrnchrDouble(format, 'h', size);
      data.cast := if even then HH else H;
    } else if l {
      var even := FtStrnchrDouble(format, 'l', size);
      data.cast := if even then LL else L;
    } else if j {
      data.cast := J;
    } else if z {
      data.cast := Z;
    } else {
      data.cast := NoLength;
    }
  }

  /** The branch of `set_flags` for everything but '0', a width and a star. */
  method SetZeroFlag(data: Data, i: nat, f: string) returns (i': nat)
    requires i < |f|
    modifies data`flags, data`precison
    ensures f[i] == '.' ==> && i' == i + DigitRun(f[i + 1..]) + 2 && data.flags == old(data.flags)
                            && data.precison == Atoi(f[i + 1..])
    ensures f[i] != '.' ==> && i' == i + 1 && data.precison == old(data.precison)
                            && data.flags == if f[i] != '0' && IsFlag(f[i]) then AddFlag(old(data.flags), f[i]) else old(data.flags)
  {
    i' := i;
    if f[i] == '.' {
      data.precison := FtAtoi(f[i + 1..]);
      var n := NbDigit(f[i + 1..]);
      i' := i + n + 1;
    } else if f[i] == '#' || f[i] == '-' || f[i] == '+' || f[i] == ' ' {
      if f[i] !in data.flags {
        data.flags := data.flags + [f[i]];
      }
    }
    i' := i' + 1;
  }

  /** The branch of `set_flags` for '*' and ".*". */
  method FlagsStar(data: Data, va: VaList, i: nat, f: string) returns (i': nat)
    requires i < |f|
    modifies data`width, data`precison, va
    ensures var (x, rest) := TakeInt(old(va.rest));
            && va.rest == rest
            && (if f[i] == '*' then i' == i + 1 && data.width == Abs(x) && data.precison == old(data.precison)
                else i' == i + 2 && data.precison == (if x < 0 then -1 else x) && data.width == old(data.width))
  {
    var x := va.Int();
    if f[i] == '*' {
      data.width := x;
      i' := i + 1;
      if data.width < 0 {
        data.width := data.width * -1;
      }
    } else {
      data.precison := x;
      i' := i + 2;
      if data.precison < 0 {
        data.precison := -1;
      }
    }
  }

  method SetFlags(data: Data, va: VaList, f: string, size: nat)
    requires size < |f| && '\0' !in f
    modifies data, va
    ensures ParseOf(data, va) == ParseFrom(f, size, 1, Parse("", 0, -1, old(va.rest)))
    ensures data.out == old(data.out) && !data.noPre && data.len == 0 && data.blank == 0
  {
    var i, j := 1, 0;
    Init(data);
    while i < size && j < 10
      invariant j == |data.flags|
      invariant ParseFrom(f, size, i, ParseOf(data, va)) == ParseFrom(f, size, 1, Parse("", 0, -1, old(va.rest)))
      invariant data.out == old(data.out) && !data.noPre && data.len == 0 && data.blank == 0
      decreases size - i
    {
      ghost var p := ParseOf(data, va);
      ghost var i0 := i;
      var point := FtStrnchr(f, '.', i);
      if f[i] == '0' {
        if '0' !in data.flags {
          data.flags := data.flags + ['0'];
        }
        i := i + 1;
      } else if !point && '0' < f[i] <= '9' {
        data.width := FtAtoi(f[i..]);
        var n := NbDigit(f[i..]);
        i := i + n;
      } else if f[i] == '*' || (f[i] == '.' && CharAt(f, i + 1) == '*') {
        i := FlagsStar(data, va, i, f);
      } else {
        i := SetZeroFlag(data, i, f);
      }
      j := |data.flags|;
      assert (i, ParseOf(data, va)) == Step(f, i0, p);
    }
  }

  /* ---- the conversions ---- */

  /** What the record and the arguments hold once a directive is read. */
  ghost predicate ReadAs(data: Data, d: Directive, args: seq<Arg>)
    reads data
  {
    && data.Parsed() && FlagSet(data.flags) == FlagSet(d.flags) && |data.flags| <= 5
    && data.width == WidthOf(d.width, args).0
    && data.precison == PrecisionOf(d.precision, WidthOf(d.width, args).1).0
    && data.cast == d.length
  }

  /** The opening of every conversion: `set_flags`, then `set_cast`. */
  method ReadDirective(data: Data, va: VaList, f: string, size: nat, ghost d: Directive, ghost after: string)
    requires Valid(d) && f == Render(d) + after && size == |Render(d)| - 1 && '\0' !in f
    modifies data, va
    ensures ReadAs(data, d, old(va.rest)) && va.rest == AfterStars(d, old(va.rest)) && data.out == old(data.out)
    ensures DirectiveText(d, old(va.rest)) == FieldText(FlagSet(data.flags), data.width, data.precison, d.length, d.conv, va.rest)
  {
    ParseRoundTrip(d, f, after, va.rest);
    CastRoundTrip(d, f, after);
    SetFlags(data, va, f, size);
    SetCast(data, f, size);
  }

  lemma Narrow(x: int)
    ensures ToSigned(ToSigned(x, UINT32), UINT8) == ToSigned(x, UINT8)
    ensures ToSigned(ToSigned(x, UINT32), UINT16) == ToSigned(x, UINT16)
  {
    var turns := if x % UINT32 < UINT32 - x % UINT32 then -(x / UINT32) else -(x / UINT32) - 1;
    assert ToSigned(x, UINT32) == x + UINT32 * turns;
    SameByte(x, 0x100_0000 * turns);
    SameShort(x, 0x1_0000 * turns);
  }

  lemma SameByte(x: int, turns: int)
    ensures (x + 0x100 * turns) % 0x100 == x % 0x100
  {
  }

  lemma SameShort(x: int, turns: int)
    ensures (x + 0x1_0000 * turns) % 0x1_0000 == x % 0x1_0000
  {
  }

  /** `cast_nu_d`: takes the argument and puts its text in `ori`. */
  method CastNuD(data: Data, va: VaList) returns (ghost n: int)
    requires TakesWord(va.rest)
    modifies data`ori, va
    ensures n == SignedArg(data.cast, BitsOf(old(va.rest))) && va.rest == old(va.rest)[1..]
    ensures data.ori == SignedNumeral(n)
  {
    var bits := va.Next();
    Narrow(bits);
    var number: array<char>;
    match data.cast {
      case NoLength => n := ToSigned(bits, UINT32); number := Itoa(ToSigned(bits, UINT32), UINT32);
      case HH => n := ToSigned(bits, UINT8); number := Itoa(ToSigned(ToSigned(bits, UINT32), UINT8), UINT8);
      case H => n := ToSigned(bits, UINT16); number := Itoa(ToSigned(ToSigned(bits, UINT32), UINT16), UINT16);
      case _ => n := ToSigned(bits, UINT64); number := Itoa(ToSigned(bits, UINT64), UINT64);
    }
    data.ori := number[..number.Length - 1];
  }

  method CastUnsigned(length: Length, va: VaList) returns (n: nat)
    requires TakesWord(va.rest)
    modifies va
    ensures n == UnsignedArg(length, BitsOf(old(va.rest))) < UINT64 && va.rest == old(va.rest)[1..]
  {
    var bits := va.Next();
    match length {
      case NoLength | HH | H => n := ToUnsigned(bits, UINT32);
      case _ => n := ToUnsigned(bits, UINT64);
    }
  }

  /** The arguments that the conversion `c` itself can read. */
  predicate Fits(c: char, length: Length, args: seq<Arg>)
  {
    && IsConversion(c)
    && (c == 's' ==> args != [] && !args[0].Word?)
    && (c != 's' && c != '%' ==> TakesWord(args))
    && (c == 's' || c == 'c' ==> !length.L?)
  }

  /** The contract of every conversion: it writes the field the record asks for, and `len` counts it. */
  twostate predicate Wrote(data: Data, va: VaList, c: char)
    reads data, va
  {
    var text := old(FieldText(FlagSet(data.flags), data.width, data.precison, data.cast, c, va.rest));
    && data.out == old(data.out) + text
    && data.len == |text|
    && va.rest == if c == '%' || old(va.rest) == [] then old(va.rest) else old(va.rest)[1..]
  }

  /** `con_d` past its parse; the same function serves d and i. */
  method ConD(data: Data, va: VaList)
    requires data.Parsed() && TakesWord(va.rest)
    modifies data, va
    ensures Wrote(data, va, 'd')
  {
    ghost var n := CastNuD(data, va);
    data.SetPrintD(n);
  }

  method ConU(data: Data, va: VaList)
    requires data.Parsed() && TakesWord(va.rest)
    modifies data, va
    ensures Wrote(data, va, 'u')
  {
    var n := CastUnsigned(data.cast, va);
    var number := ItoaUnmax(n);
    data.ori := number[..number.Length - 1];
    data.SetPrintOxuHash("", n, U);
  }

  /** The octal digits are taken as a plain sequence: `itoa_base` sizes its buffer for decimal digits, see `DecimalSizeSuffices`. */
  method ConO(data: Data, va: VaList)
    requires data.Parsed() && TakesWord(va.rest)
    modifies data, va
    ensures Wrote(data, va, 'o')
  {
    var n := CastUnsigned(data.cast, va);
    data.ori := Numeral(n, OCTAL);
    data.SetPrintOxuHash("0", n, O);
  }

  method ConX(data: Data, va: VaList)
    requires data.Parsed() && TakesWord(va.rest)
    modifies data, va
    ensures Wrote(data, va, 'x')
  {
    var n := CastUnsigned(data.cast, va);
    HexOri(data, n, false);
    data.SetPrintOxuHash("0x", n, X);
  }

  method ConBigX(data: Data, va: VaList)
    requires data.Parsed() && TakesWord(va.rest)
    modifies data, va
    ensures Wrote(data, va, 'X')
  {
    var n := CastUnsigned(data.cast, va);
    HexOri(data, n, true);
    data.SetPrintOxuHash("0X", n, BigX);
  }

  method HexOri(data: Data, n: nat, upper: bool)
    requires n < UINT64
    modifies data`ori
    ensures data.ori == Numeral(n, if upper then HEX_UPPER else HEX_LOWER)
  {
    var number, start := ItoaHex(n, upper);
    ghost var t := Numeral(n, if upper then HEX_UPPER else HEX_LOWER);
    HexDigitsNonNul(n, upper);
    assert forall i :: 0 <= i <= |t| ==> number[i] == number[..|t| + 1][i];
    var k, ori := start, "";
    while number[k] != '\0'
      invariant k <= |t| && ori == t[..k]
      decreases |t| - k
    {
      ori := ori + [number[k]];
      k := k + 1;
    }
    data.ori := ori;
  }

  lemma HexDigitsNonNul(n: nat, upper: bool)
    ensures '\0' !in Numeral(n, if upper then HEX_UPPER else HEX_LOWER)
  {
    Alphabets();
    NumeralDigits(n, if upper then HEX_UPPER else HEX_LOWER);
  }

  method SetPrintS(data: Data)
    requires data.Parsed()
    modifies data`out, data`precison, data`len
    ensures var field := StringField(FlagSet(data.flags), data.width, old(data.precison), data.ori);
            data.out == old(data.out) + field && data.len == |field|
  {
    ghost var cut := if 0 <= data.precison < |data.ori| then data.ori[..data.precison] else data.ori;
    if data.precison == -1 {
      data.precison := |data.ori|;
    }
    var nbr: nat := if data.precison > |data.ori| then |data.ori| else data.precison;
    data.len := Max(data.width, nbr);
    LayoutPadded(data.out, FlagSet(data.flags), data.width, false, cut);
    if '-' in data.flags {
      data.PutNStr(data.ori, nbr);
      data.PutNChar(' ', data.len - nbr);
    } else {
      data.PutNChar(' ', data.len - nbr);
      data.PutNStr(data.ori, nbr);
    }
  }

  method ConS(data: Data, va: VaList)
    requires data.Parsed() && va.rest != [] && !va.rest[0].Word?
    modifies data, va
    ensures Wrote(data, va, 's')
  {
    var s := va.Pointer();
    data.ori := if s.Text? then s.s else "(null)";
    SetPrintS(data);
  }

  lemma CharEmission(pre: string, flags: set<char>, width: nat, c: char)
    ensures var len := Max(1, width);
            && |CharField(flags, width, c)| == len
            && pre + CharField(flags, width, c) == if '-' in flags then pre + [c] + Fill(' ', len - 1)
                                                  else pre + Fill(if '0' in flags then '0' else ' ', len - 1) + [c]
  {
    var gap := width - 1;
    if '-' in flags {
      assert pre + ("" + [c] + Fill(' ', gap)) == pre + [c] + Fill(' ', gap);
    } else if '0' in flags {
      assert pre + ("" + Fill('0', gap) + [c]) == pre + Fill('0', gap) + [c];
    } else {
      assert pre + (Fill(' ', gap) + "" + [c]) == pre + Fill(' ', gap) + [c];
    }
  }

  /** `set_print_c`, and `con_per` past its parse, which lays out its '%' in the same way. */
  method SetPrintC(data: Data, c: char)
    requires data.width >= 0
    modifies data`out, data`len
    ensures data.out == old(data.out) + CharField(FlagSet(data.flags), data.width, c)
    ensures data.len == |CharField(FlagSet(data.flags), data.width, c)|
  {
    CharEmission(data.out, FlagSet(data.flags), data.width, c);
    data.len := Max(1, data.width);
    if '-' in data.flags {
      data.PutChar(c);
      data.PutNChar(' ', data.len - 1);
    } else {
      if '0' in data.flags {
        data.PutNChar('0', data.len - 1);
      } else {
        data.PutNChar(' ', data.len - 1);
      }
      data.PutChar(c);
    }
  }

  method ConC(data: Data, va: VaList)
    requires data.Parsed() && TakesWord(va.rest)
    modifies data, va
    ensures Wrote(data, va, 'c')
  {
    var bits := va.Next();
    SetPrintC(data, (bits % UINT8) as char);
  }

  method ConPer(data: Data, va: VaList)
    requires data.Parsed()
    modifies data
    ensures Wrote(data, va, '%')
  {
    data.ori := "%";
    SetPrintC(data, '%');
  }

  /** `add_hash_p`: one cell more of the flag buffer, which the parse leaves at five or fewer of its ten. */
  method AddHashP(data: Data)
    modifies data`flags
    ensures FlagSet(data.flags) == FlagSet(old(data.flags)) + {'#'} && |data.flags| == |old(data.flags)| + 1
  {
    data.flags := data.flags + ['#'];
  }

  method ConP(data: Data, va: VaList)
    requires data.Parsed() && TakesWord(va.rest)
    modifies data, va
    ensures Wrote(data, va, 'p')
  {
    var bits := va.Next();
    var n := ToUnsigned(bits, UINT64);
    HexOri(data, n, false);
    HexHead(n);
    AddHashP(data);
    if data.ori[0] != '0' {
      data.SetPrintOxuHash("0x", n, X);
    } else {
      PutNull(data);
      NullLayout(FlagSet(old(data.flags)), data.width);
    }
  }

  lemma HexHead(n: nat)
    ensures Numeral(n, HEX_LOWER)[0] == '0' <==> n == 0
  {
    Alphabets();
    NumeralHead(n, HEX_LOWER);
  }

  /** The '#' that `add_hash_p` adds does not show in the null pointer. */
  lemma NullLayout(flags: set<char>, width: int)
    ensures Layout(flags + {'#'}, width, false, "", "0x0") == Layout(flags, width, false, "", "0x0")
  {
  }

  method PutNull(data: Data)
    requires data.width >= 0
    modifies data`out, data`len
    ensures data.out == old(data.out) + Layout(FlagSet(data.flags), data.width, false, "", "0x0")
    ensures data.len == |Layout(FlagSet(data.flags), data.width, false, "", "0x0")|
  {
    data.len := Max(data.width, 3);
    LayoutPadded(data.out, FlagSet(data.flags), data.width, false, "0x0");
    if '-' in data.flags {
      data.PutStr("0x0");
      data.PutNChar(' ', data.len - 3);
    } else {
      data.PutNChar(' ', data.len - 3);
      data.PutStr("0x0");
    }
  }

  /* ---- the driver ---- */

  /** The table look-up by conversion character, past the parse that every entry starts with. */
  method Dispatch(data: Data, va: VaList, c: char)
    requires data.Parsed() && Fits(c, data.cast, va.rest)
    modifies data, va
    ensures Wrote(data, va, c)
  {
    if c == 's' {
      ConS(data, va);
    } else if c == 'o' {
      ConO(data, va);
    } else if c == 'd' || c == 'i' {
      ConD(data, va);
    } else if c == 'c' {
      ConC(data, va);
    } else if c == 'u' {
      ConU(data, va);
    } else if c == '%' {
      ConPer(data, va);
    } else if c == 'p' {
      ConP(data, va);
    } else if c == 'x' {
      ConX(data, va);
    } else {
      ConBigX(data, va);
    }
  }

  /** The call through the table: a conversion's own parse, then its field. */
  method Convert(data: Data, va: VaList, f: string, size: nat, ghost d: Directive, ghost after: string)
    requires ValidItem(Conversion(d)) && Typed(d, va.rest)
    requires f == Render(d) + after && size == |Render(d)| - 1 && '\0' !in f
    modifies data, va
    ensures data.out == old(data.out) + DirectiveText(d, old(va.rest))
    ensures data.len == |DirectiveText(d, old(va.rest))|
    ensures va.rest == Rest(d, old(va.rest))
  {
    ReadDirective(data, va, f, size, d, after);
    SplitAtLength(d, f, after);
    Dispatch(data, va, f[size]);
  }

  /** From '%' to the conversion character. */
  method ScanDirective(format: string, ghost d: Directive, ghost after: string) returns (i: nat)
    requires Valid(d) && format == Render(d) + after
    ensures i == |Render(d)| - 1
  {
    ScanRoundTrip(d, format, after);
    ghost var size := |Render(d)| - 1;
    i := 0;
    var per := false;
    while CharAt(format, i) != '\0' && !IsF(format[i]) && !per
      invariant i <= size && (per ==> i == size) && (!per && i == size ==> d.conv != '%')
      decreases size - i, !per
    {
      i := i + 1;
      if CharAt(format, i) == '%' {
        per := true;
      }
    }
  }

  /** One round of the loop of `ft_printf`; `after` is what stands behind the item. */
  method PrintItem(data: Data, va: VaList, format: string, ghost item: Item, ghost after: string) returns (next: string, n: int)
    requires format == RenderItem(item) + after && '\0' !in format
    requires ValidItem(item) && (item.Conversion? ==> Typed(item.d, va.rest))
    modifies data, va
    ensures data.out == old(data.out) + ItemText(item, old(va.rest)) && n == |ItemText(item, old(va.rest))|
    ensures va.rest == ItemRest(item, old(va.rest)) && next == after
  {
    data.len := 0;
    if format[0] == '%' {
      assert item.Conversion?;
      var i := ScanDirective(format, item.d, after);
      Convert(data, va, format, i, item.d, after);
      n := data.len;
      next := format[i + 1..];
    } else {
      assert item.Literal?;
      data.PutChar(format[0]);
      n := 1;
      next := format[1..];
    }
  }

  lemma Onward(done: string, text: string, more: string, whole: string)
    requires done + (text + more) == whole
    ensures (done + text) + more == whole
  {
  }

  /** `ft_printf`: the output is the text the format calls for, and the value returned is the number of bytes written. */
  method FtPrintf(data: Data, va: VaList, format: string, ghost items: seq<Item>) returns (nbr: int)
    requires format == RenderAll(items) && '\0' !in format && WellTyped(items, va.rest)
    modifies data, va
    ensures data.out == old(data.out) + Expected(items, old(va.rest))
    ensures nbr == |data.out| - |old(data.out)|
  {
    nbr := 0;
    var fmt := format;
    ghost var left := items;
    ghost var done := "";
    while fmt != ""
      invariant fmt == RenderAll(left) && '\0' !in fmt && WellTyped(left, va.rest)
      invariant data.out == old(data.out) + done && nbr == |done|
      invariant done + Expected(left, va.rest) == Expected(items, old(va.rest))
      decreases |fmt|
    {
      ghost var text, more := ItemText(left[0], va.rest), left[1..];
      var n;
      fmt, n := PrintItem(data, va, fmt, left[0], RenderAll(more));
      nbr := nbr + n;
      Regroup(old(data.out), done, text);
      Onward(done, text, Expected(more, va.rest), Expected(items, old(va.rest)));
      done := done + text;
      left := more;
    }
  }
}
