/** The hexadecimal dumps of nm and otool, printed through `ft_printf`. */
module HexDump {
  import opened CText
  import opened Numerals
  import opened IsoFormat
  import opened Directives
  import opened FieldWriter
  import opened Printf
  import opened Reading
  import opened SectionRows
  import opened ByteSwap

  /* ---- texts ---- */

  /** A byte in two lower-case hexadecimal digits. */
  function Hex2(b: byte): (r: string)
    ensures |r| == 2
  {
    [HEX_LOWER[(b as int) / 16], HEX_LOWER[(b as int) % 16]]
  }

  /** The bytes of an address, the last one first. */
  function HexAddress(s: seq<byte>): (r: string)
    ensures |r| == 2 * |s|
  {
    if s == [] then "" else HexAddress(s[1..]) + Hex2(s[0])
  }

  /** The bytes of a row, each followed by a blank. */
  function HexRow(s: seq<byte>): (r: string)
    ensures |r| == 3 * |s|
  {
    if s == [] then "" else HexRow(s[..|s| - 1]) + (Hex2(s[|s| - 1]) + " ")
  }

  /** The little-endian number in `s`. */
  function LittleEndian(s: seq<byte>): nat
  {
    if s == [] then 0 else s[0] as int + 256 * LittleEndian(s[1..])
  }

  /** The low `n` bytes of `v`. */
  function Bytes(v: nat, n: nat): (r: seq<byte>)
    ensures |r| == n
  {
    if n == 0 then [] else [(v % 256) as byte] + Bytes(v / 256, n - 1)
  }

  lemma {:induction false} BytesOfNumber(s: seq<byte>)
    ensures Bytes(LittleEndian(s), |s|) == s
  {
    if s != [] {
      BytesOfNumber(s[1..]);
      LowByte(s[0] as int, LittleEndian(s[1..]));
    }
  }

  lemma LowByte(low: nat, high: nat)
    requires low < 256
    ensures (low + 256 * high) % 256 == low && (low + 256 * high) / 256 == high
  {
  }

  /** Four bytes, and eight, written out. */
  lemma LittleEndianOfFour(s: seq<byte>)
    requires |s| == 4
    ensures LittleEndian(s) == s[0] as int + 0x100 * s[1] as int + 0x1_0000 * s[2] as int + 0x100_0000 * s[3] as int
  {
    LowFour(s[0], s[1], s[2], s[3], [], s);
  }

  lemma LittleEndianOfEight(s: seq<byte>)
    requires |s| == 8
    ensures LittleEndian(s) == LittleEndian(s[..4]) + 0x1_0000_0000 * LittleEndian(s[4..])
  {
    LittleEndianOfFour(s[..4]);
    LowFour(s[0], s[1], s[2], s[3], s[4..], s);
  }

  lemma LowFour(a: byte, b: byte, c: byte, d: byte, rest: seq<byte>, s: seq<byte>)
    requires s == [a, b, c, d] + rest
    ensures LittleEndian(s) == a as int + 0x100 * b as int + 0x1_0000 * c as int + 0x100_0000 * d as int
                               + 0x1_0000_0000 * LittleEndian(rest)
  {
    FirstByte(d, rest);
    FirstByte(c, [d] + rest);
    FirstByte(b, [c] + ([d] + rest));
    FirstByte(a, [b] + ([c] + ([d] + rest)));
    assert s == [a] + ([b] + ([c] + ([d] + rest)));
  }

  /* ---- reading the digits back ---- */

  lemma Hex2Digits(b: byte)
    ensures var t := Hex2(b);
            && IsDigitOf(t[0], 16, false) && IsDigitOf(t[1], 16, false)
            && CharWorth(t[0]) == b as int / 16 && CharWorth(t[1]) == b as int % 16
  {
    PlainHex();
  }

  lemma WorthOfHex2(t: string, b: byte)
    ensures Worth(t + Hex2(b), 16) == Worth(t, 16) * 256 + b as int
  {
    var d := Hex2(b);
    Hex2Digits(b);
    WorthAppend(t, d[0], 16);
    WorthAppend(t + [d[0]], d[1], 16);
    assert t + d == t + [d[0]] + [d[1]];
  }

  /** The lower-case hexadecimal digits printed for an address, read as one number, are the address. */
  lemma {:induction false} AddressReadsBack(s: seq<byte>)
    ensures ReadsAs(HexAddress(s), 16, false, LittleEndian(s))
  {
    if s != [] {
      AddressReadsBack(s[1..]);
      Hex2Digits(s[0]);
      WorthOfHex2(HexAddress(s[1..]), s[0]);
    }
  }

  /** The digits `d` printed for each byte of a row, read back, are the byte, and a blank stands behind them. */
  lemma RowReadsBack(s: seq<byte>, k: nat, row: string, i: nat, d: string)
    requires k < |s| && row == HexRow(s) && i == 3 * k && d == row[i..i + 2]
    ensures Shows(d, 16, false, s[k] as int) && row[i + 2] == ' '
  {
    DigitsInRow(s, k, row, i, d, s[k]);
    Hex2ReadsBack(s[k], d);
  }

  lemma Hex2ReadsBack(b: byte, d: string)
    requires d == Hex2(b)
    ensures Shows(d, 16, false, b as int)
  {
    WorthOfHex2("", b);
    Hex2Digits(b);
    assert "" + Hex2(b) == d;
  }

  lemma {:induction false} DigitsInRow(s: seq<byte>, k: nat, row: string, i: nat, d: string, b: byte)
    requires k < |s| && row == HexRow(s) && i == 3 * k && d == row[i..i + 2] && b == s[k]
    ensures d == Hex2(b) && row[i + 2] == ' '
  {
    var n := |s| - 1;
    var front, last := HexRow(s[..n]), Hex2(s[n]) + " ";
    if k == n {
      CutLast(front, last);
      assert last[..2] == Hex2(s[n]);
    } else {
      CutEarlier(front, last, i);
      DigitsInRow(s[..n], k, front, i, d, b);
    }
  }

  lemma CutLast(t: string, last: string)
    requires |last| == 3
    ensures (t + last)[|t|..|t| + 2] == last[..2] && (t + last)[|t| + 2] == last[2]
  {
  }

  lemma CutEarlier(t: string, last: string, m: nat)
    requires m + 3 <= |t|
    ensures (t + last)[m..m + 2] == t[m..m + 2] && (t + last)[m + 2] == t[m + 2]
  {
  }

  /* ---- printing ---- */

  /** The directive of "%.2x". */
  function TwoDigits(): Directive
  {
    Directive("", NoWidth, PrecisionDigits("2"), NoLength, 'x')
  }

  lemma TwoIsTwo()
    ensures Value("2", DECIMAL) == 2 && AllDigits("2")
  {
    assert Numeral(2, DECIMAL) == "2";
    Alphabets();
    ValueOfNumeral(2, DECIMAL);
    DecimalNumeral(2);
  }

  lemma TwoDigitsRender()
    ensures Render(TwoDigits()) == "%.2x"
  {
    var d := TwoDigits();
    assert "." + "2" == ".2";
    assert Body(d) == ".2";
    assert "%" + ".2" + ['x'] == "%.2x";
  }

  lemma TwoDigitsValid(args: seq<Arg>)
    requires TakesWord(args)
    ensures ValidItem(Conversion(TwoDigits())) && Typed(TwoDigits(), args)
  {
    TwoIsTwo();
  }

  lemma TwoDigitsField(args: seq<Arg>)
    requires TakesWord(args)
    ensures DirectiveText(TwoDigits(), args) == UnsignedField({}, 0, 2, args[0].bits % UINT32, X)
  {
    TwoIsTwo();
    assert FlagSet("") == {};
    assert WidthOf(TwoDigits().width, args) == (0, args);
    assert PrecisionOf(TwoDigits().precision, args) == (2, args);
    PlainHexField({}, 0, 2, args);
  }

  lemma PlainHexField(flags: set<char>, width: int, precision: int, args: seq<Arg>)
    requires TakesWord(args)
    ensures FieldText(flags, width, precision, NoLength, 'x', args)
         == UnsignedField(flags, width, precision, args[0].bits % UINT32, X)
  {
  }

  lemma TwoHexDigits(b: byte)
    ensures Digits(b as int, HEX_LOWER, 2) == Hex2(b)
  {
    var n: nat := b as int;
    if n < 16 {
      assert Numeral(n, HEX_LOWER) == [HEX_LOWER[n]];
      assert Fill('0', 1) == [HEX_LOWER[0]];
    } else {
      assert Numeral(n / 16, HEX_LOWER) == [HEX_LOWER[n / 16]];
      assert Numeral(n, HEX_LOWER) == Hex2(b);
      assert "" + Hex2(b) == Hex2(b);
    }
  }

  lemma BareLayout(t: string)
    ensures Layout({}, 0, false, "", t) == t
  {
    assert Fill(' ', -|t|) + "" + t == t;
  }

  /** "%.2x" prints a byte in exactly two digits, zero included. */
  lemma TwoDigitsText(b: byte, args: seq<Arg>)
    requires args == [Word(b as int)]
    ensures DirectiveText(TwoDigits(), args) == Hex2(b)
  {
    TwoDigitsField(args);
    SmallRemainder(b as int, UINT32);
    TwoDigitsShown(b, b as int);
  }

  lemma TwoDigitsShown(b: byte, n: nat)
    requires n == b as int
    ensures UnsignedField({}, 0, 2, n, X) == Hex2(b)
  {
    TwoHexDigits(b);
    BareLayout(Hex2(b));
    assert UnsignedField({}, 0, 2, n, X) == IsoUnsigned({}, 0, 2, n, X);
  }

  /** The format "%.2x", with literal text behind it. */
  function ByteFormat(tail: string): seq<Item>
  {
    [Conversion(TwoDigits())] + Literals(tail)
  }

  function Literals(t: string): (r: seq<Item>)
    ensures |r| == |t| && forall i :: 0 <= i < |t| ==> r[i] == Literal(t[i])
  {
    seq(|t|, i requires 0 <= i < |t| => Literal(t[i]))
  }

  lemma {:induction false} LiteralsMean(t: string, args: seq<Arg>)
    requires forall i :: 0 <= i < |t| ==> t[i] != '%' && t[i] != '\0'
    ensures RenderAll(Literals(t)) == t && Expected(Literals(t), args) == t && WellTyped(Literals(t), args)
  {
    if t != "" {
      LiteralsMean(t[1..], args);
      assert Literals(t)[1..] == Literals(t[1..]);
      assert t == [t[0]] + t[1..];
    }
  }

  lemma ByteFormatRenders(tail: string)
    requires forall i :: 0 <= i < |tail| ==> tail[i] != '%' && tail[i] != '\0'
    ensures RenderAll(ByteFormat(tail)) == "%.2x" + tail && '\0' !in "%.2x" + tail
  {
    assert ByteFormat(tail)[1..] == Literals(tail);
    TwoDigitsRender();
    LiteralsMean(tail, []);
  }

  lemma ByteFormatMeans(tail: string, b: byte, args: seq<Arg>)
    requires (forall i :: 0 <= i < |tail| ==> tail[i] != '%' && tail[i] != '\0') && args == [Word(b as int)]
    ensures WellTyped(ByteFormat(tail), args) && Expected(ByteFormat(tail), args) == Hex2(b) + tail
  {
    assert ByteFormat(tail)[1..] == Literals(tail);
    TwoDigitsValid(args);
    TwoDigitsText(b, args);
    LiteralsMean(tail, Rest(TwoDigits(), args));
  }

  /** `ft_printf("%.2x", test)`, with literal text behind the directive. */
  method PrintByte(data: Data, b: byte, tail: string)
    requires forall i :: 0 <= i < |tail| ==> tail[i] != '%' && tail[i] != '\0'
    modifies data
    ensures data.out == old(data.out) + (Hex2(b) + tail)
  {
    var args, format := [Word(b as int)], "%.2x" + tail;
    ByteFormatMeans(tail, b, args);
    ByteFormatRenders(tail);
    var va := new VaList(args);
    var n := FtPrintf(data, va, format, ByteFormat(tail));
  }

  /** `ft_printf` of a text without directives. */
  method PrintText(data: Data, t: string)
    requires forall i :: 0 <= i < |t| ==> t[i] != '%' && t[i] != '\0'
    modifies data
    ensures data.out == old(data.out) + t
  {
    LiteralsMean(t, []);
    var va := new VaList([]);
    var n := FtPrintf(data, va, t, Literals(t));
  }

  function StringDirective(): Directive
  {
    Directive("", NoWidth, NoPrecision, NoLength, 's')
  }

  lemma StringFormatMeans(t: CString, args: seq<Arg>)
    requires args == [Text(t)]
    ensures var items := [Conversion(StringDirective())];
            RenderAll(items) == "%s" && WellTyped(items, args) && Expected(items, args) == t
  {
    var items := [Conversion(StringDirective())];
    assert items[1..] == [] && Render(StringDirective()) == "%s" && FlagSet("") == {};
    BareLayout(t);
    assert DirectiveText(StringDirective(), args) == t;
  }

  /** `ft_printf("%s", t)`. */
  method PrintString(data: Data, t: CString)
    modifies data
    ensures data.out == old(data.out) + t
  {
    var args := [Text(t)];
    StringFormatMeans(t, args);
    var va := new VaList(args);
    var n := FtPrintf(data, va, "%s", [Conversion(StringDirective())]);
  }

  /** `hexdump_address`: the bytes of the address from the last to the first, each as "%.2x". */
  method HexdumpAddress(data: Data, mem: array<byte>, at: nat, is64: bool)
    requires at + (if is64 then 8 else 4) <= mem.Length
    modifies data
    ensures data.out == old(data.out) + HexAddress(mem[at..at + if is64 then 8 else 4])
  {
    ghost var all := mem[at..at + if is64 then 8 else 4];
    var count := if is64 then 8 else 4;
    assert all[count..] == [];
    while count > 0
      invariant 0 <= count <= |all| && data.out == old(data.out) + HexAddress(all[count..])
      invariant all == mem[at..at + |all|]
    {
      count := count - 1;
      ghost var out, high := data.out, HexAddress(all[count + 1..]);
      PrintByte(data, mem[at + count], "");
      assert all[count..][0] == mem[at + count] && all[count..][1..] == all[count + 1..];
      assert Hex2(mem[at + count]) + "" == Hex2(mem[at + count]);
      assert old(data.out) + high + Hex2(mem[at + count]) == old(data.out) + (high + Hex2(mem[at + count]));
    }
    assert all[0..] == all;
  }

  /** `hexdump_data`: the row that starts `i` bytes into a section of `size` bytes, sixteen bytes or what is left. */
  method HexdumpData(data: Data, mem: array<byte>, str: nat, i: nat, size: nat)
    requires i <= size && str + (size - i) <= mem.Length
    modifies data
    ensures data.out == old(data.out) + HexRow(mem[str..str + if size - i < 16 then size - i else 16])
  {
    ghost var row := mem[str..str + if size - i < 16 then size - i else 16];
    var j := 0;
    while j < 16
      invariant 0 <= j <= |row| && data.out == old(data.out) + HexRow(row[..j])
      invariant row == mem[str..str + |row|]
    {
      if j + i == size {
        break;
      }
      ghost var before := HexRow(row[..j]);
      PrintByte(data, mem[str + j], " ");
      assert row[..j + 1][..j] == row[..j] && row[..j + 1][j] == mem[str + j];
      assert old(data.out) + before + (Hex2(mem[str + j]) + " ") == old(data.out) + (before + (Hex2(mem[str + j]) + " "));
      j := j + 1;
    }
    assert row[..j] == row;
  }

  /* ---- a whole section ---- */

  /** One row: its label, a tab, its bytes, a newline. */
  function RowText(address: seq<byte>, row: seq<byte>): string
  {
    HexAddress(address) + "\t" + HexRow(row) + "\n"
  }

  /** The rows labelled `address`, `address + 16`, and so on, in the `width` bytes of an address. */
  function DumpText(address: nat, width: nat, rows: seq<seq<byte>>): string
    decreases |rows|
  {
    if rows == [] then "" else RowText(Bytes(address, width), rows[0]) + DumpText(address + 16, width, rows[1..])
  }

  /** Row `k` stands in a dump behind the rows in front of it, under the label address + 16k. */
  lemma {:induction false} DumpSplits(address: nat, width: nat, rows: seq<seq<byte>>, k: nat, v: nat, next: seq<seq<byte>>,
                                      text: string, front: string, row: string, back: string)
    requires k < |rows| && v == address + 16 * k && next == rows[k + 1..]
    requires text == DumpText(address, width, rows) && front == DumpText(address, width, rows[..k])
    requires row == RowText(Bytes(v, width), rows[k]) && back == DumpText(v + 16, width, next)
    ensures text == front + (row + back)
    decreases k
  {
    if k == 0 {
      OneRow(row, back);
    } else {
      var rest, first := rows[1..], RowText(Bytes(address, width), rows[0]);
      var text', front' := DumpText(address + 16, width, rest), DumpText(address + 16, width, rest[..k - 1]);
      DumpStep(address, width, rows, first, rest);
      DumpStep(address, width, rows[..k], first, rest[..k - 1]);
      DumpSplits(address + 16, width, rest, k - 1, v, next, text', front', row, back);
      Regroup(first, front', row + back);
    }
  }

  lemma DumpStep(address: nat, width: nat, rows: seq<seq<byte>>, first: string, rest: seq<seq<byte>>)
    requires rows != [] && first == RowText(Bytes(address, width), rows[0]) && rest == rows[1..]
    ensures DumpText(address, width, rows) == first + DumpText(address + 16, width, rest)
  {
  }

  lemma OneRow(row: string, rest: string)
    ensures row + rest == "" + (row + rest)
  {
  }

  /** Where row `k` stands in the dump of a section: a full row is a label, a tab, forty-eight characters and a newline. */
  function RowPlace(k: nat, width: nat): nat
  {
    k * (2 * width + 50)
  }

  lemma NextPlace(k: nat, width: nat)
    ensures RowPlace(k + 1, width) == RowPlace(k, width) + 2 * width + 50
  {
  }

  lemma {:induction false} FullRowsLength(address: nat, width: nat, rows: seq<seq<byte>>)
    requires forall i :: 0 <= i < |rows| ==> |rows[i]| == 16
    ensures |DumpText(address, width, rows)| == RowPlace(|rows|, width)
    decreases |rows|
  {
    if rows != [] {
      FullRowsLength(address + 16, width, rows[1..]);
      FullRowLength(Bytes(address, width), rows[0]);
      NextPlace(|rows| - 1, width);
    }
  }

  lemma FullRowLength(address: seq<byte>, row: seq<byte>)
    requires |row| == 16
    ensures |RowText(address, row)| == 2 * |address| + 50
  {
  }

  lemma RowInDump(rows: seq<seq<byte>>, address: nat, width: nat, k: nat, v: nat, text: string, at: nat, row: string)
    requires k < |rows| && forall i :: 0 <= i < k ==> |rows[i]| == 16
    requires v == address + 16 * k && at == RowPlace(k, width)
    requires text == DumpText(address, width, rows) && row == RowText(Bytes(v, width), rows[k])
    ensures at + |row| <= |text| && text[at..at + |row|] == row
  {
    var front, back := DumpText(address, width, rows[..k]), DumpText(v + 16, width, rows[k + 1..]);
    DumpSplits(address, width, rows, k, v, rows[k + 1..], text, front, row, back);
    FullRowsLength(address, width, rows[..k]);
    CutMiddle(text, at, front, row, back);
  }

  lemma CutMiddle(text: string, at: nat, a: string, b: string, c: string)
    requires text == a + (b + c) && at == |a|
    ensures at + |b| <= |text| && text[at..at + |b|] == b
  {
  }

  lemma CutTwice(text: string, at: nat, row: string, i: nat, j: nat, from: nat, to: nat)
    requires at + |row| <= |text| && row == text[at..at + |row|] && i <= j <= |row| && from == at + i && to == at + j
    ensures text[from..to] == row[i..j]
  {
    assert forall k :: 0 <= k < |row| ==> text[at + k] == row[k];
  }

  /** The pieces of a row that stands at `at`. */
  lemma PiecesOfRow(text: string, at: nat, row: string, head: string, bytes: string, from: nat)
    requires at + |row| <= |text| && row == text[at..at + |row|] && row == head + "\t" + bytes + "\n"
    requires from == at + |head| + 1
    ensures |row| == |head| + |bytes| + 2
    ensures text[at..at + |head|] == head && text[at + |head|] == '\t' && text[from..from + |bytes|] == bytes
  {
    var i := |head| + 1;
    CutTwice(text, at, row, 0, |head|, at, at + |head|);
    CutTwice(text, at, row, i, i + |bytes|, from, from + |bytes|);
    assert row[..|head|] == head && row[i..i + |bytes|] == bytes;
    assert text[at + |head|] == row[|head|];
  }

  lemma LabelOfRow(text: string, at: nat, row: string, bytes: string, v: nat, width: nat, b: seq<byte>, head: string)
    requires at + |row| <= |text| && row == text[at..at + |row|] && row == head + "\t" + bytes + "\n"
    requires b == Bytes(v, width) && head == HexAddress(b)
    ensures at + 2 * width < |text| && text[at + 2 * width] == '\t'
    ensures ReadsAs(text[at..at + 2 * width], 16, false, v % Power256(width))
  {
    var from := at + |head| + 1;
    PiecesOfRow(text, at, row, head, bytes, from);
    NumberReadsBack(v, width, b);
    assert text[at..at + 2 * width] == head;
  }

  /** In the dump of a section row `k`, at its place in the output, starts with a label that reads back as the address
      of its first byte, modulo the width of an address. */
  lemma LabelReadsBack(s: seq<byte>, address: nat, width: nat, k: nat, v: nat, text: string, at: nat)
    requires k < |Rows(s)| && v == address + 16 * k
    requires at == RowPlace(k, width) && text == DumpText(address, width, Rows(s))
    ensures at + 2 * width < |text| && text[at + 2 * width] == '\t'
    ensures ReadsAs(text[at..at + 2 * width], 16, false, v % Power256(width))
  {
    var b, bytes := Bytes(v, width), Rows(s)[k];
    RowsCover(s);
    RowInDump(Rows(s), address, width, k, v, text, at, RowText(b, bytes));
    LabelOfRow(text, at, RowText(b, bytes), HexRow(bytes), v, width, b, HexAddress(b));
  }

  /** A byte of a row whose bytes are shown at `at`. */
  lemma ByteShown(text: string, at: nat, bytes: seq<byte>, shown: string, j: nat, from: nat)
    requires at + |shown| <= |text| && shown == text[at..at + |shown|] && shown == HexRow(bytes) && j < |bytes| && from == at + 3 * j
    ensures from + 2 < |text| && Shows(text[from..from + 2], 16, false, bytes[j] as int) && text[from + 2] == ' '
  {
    var i := 3 * j;
    ThreeOf(text, at, shown, i, from);
    RowReadsBack(bytes, j, shown, i, text[from..from + 2]);
  }

  lemma ThreeOf(text: string, at: nat, shown: string, i: nat, from: nat)
    requires at + |shown| <= |text| && shown == text[at..at + |shown|] && i + 2 < |shown| && from == at + i
    ensures from + 2 < |text| && text[from..from + 2] == shown[i..i + 2] && text[from + 2] == shown[i + 2]
  {
    CutTwice(text, at, shown, i, i + 2, from, from + 2);
    CharacterOf(text, at, shown, i + 2, from + 2);
  }

  lemma CharacterOf(text: string, at: nat, row: string, i: nat, from: nat)
    requires at + |row| <= |text| && row == text[at..at + |row|] && i < |row| && from == at + i
    ensures text[from] == row[i]
  {
  }

  /** Byte `j` of row `k` reads back from the two digits at its place in the output. */
  lemma ByteInDump(rows: seq<seq<byte>>, address: nat, width: nat, k: nat, j: nat, text: string, at: nat)
    requires k < |rows| && j < |rows[k]| && text == DumpText(address, width, rows) && forall i :: 0 <= i < k ==> |rows[i]| == 16
    requires at == RowPlace(k, width) + 2 * width + 1 + 3 * j
    ensures at + 2 < |text| && Shows(text[at..at + 2], 16, false, rows[k][j] as int) && text[at + 2] == ' '
  {
    var v, start := address + 16 * k, RowPlace(k, width);
    var b, bytes := Bytes(v, width), rows[k];
    RowInDump(rows, address, width, k, v, text, start, RowText(b, bytes));
    PiecesOfRow(text, start, RowText(b, bytes), HexAddress(b), HexRow(bytes), at - 3 * j);
    ByteShown(text, at - 3 * j, bytes, HexRow(bytes), j, at);
  }

  /** A row ends in a newline. */
  lemma RowEnds(s: seq<byte>, address: nat, width: nat, k: nat, text: string, at: nat)
    requires k < |Rows(s)| && text == DumpText(address, width, Rows(s))
    requires at == RowPlace(k, width) + 2 * width + 1 + 3 * |Rows(s)[k]|
    ensures at < |text| && text[at] == '\n'
  {
    var v, start := address + 16 * k, RowPlace(k, width);
    var b, bytes := Bytes(v, width), Rows(s)[k];
    RowsCover(s);
    RowInDump(Rows(s), address, width, k, v, text, start, RowText(b, bytes));
    LastOfRow(text, start, RowText(b, bytes), at);
  }

  lemma LastOfRow(text: string, at: nat, row: string, last: nat)
    requires at + |row| <= |text| && row == text[at..at + |row|] && row != "" && row[|row| - 1] == '\n' && last == at + |row| - 1
    ensures text[last] == '\n'
  {
  }

  /** Every byte of a section reads back from its own place in the output. */
  lemma DumpReadsBack(s: seq<byte>, address: nat, width: nat, k: nat, j: nat, text: string, at: nat)
    requires j < 16 && 16 * k + j < |s| && text == DumpText(address, width, Rows(s))
    requires at == RowPlace(k, width) + 2 * width + 1 + 3 * j
    ensures at + 2 < |text| && Shows(text[at..at + 2], 16, false, s[16 * k + j] as int) && text[at + 2] == ' '
  {
    RowsCover(s);
    ByteOfSection(s, k, j);
    ByteInDump(Rows(s), address, width, k, j, text, at);
  }

  lemma NumberReadsBack(v: nat, width: nat, s: seq<byte>)
    requires s == Bytes(v, width)
    ensures ReadsAs(HexAddress(s), 16, false, v % Power256(width))
  {
    AddressReadsBack(s);
    NumberOfBytes(v, width);
  }

  function Power256(n: nat): (r: nat)
    ensures r > 0
  {
    if n == 0 then 1 else 256 * Power256(n - 1)
  }

  /** The words that addresses are kept in. */
  lemma WordSizes()
    ensures Power256(4) == 0x1_0000_0000 && Power256(8) == 0x1_0000_0000_0000_0000
  {
    assert Power256(2) == 0x1_0000;
    assert Power256(4) == 0x100 * (0x100 * Power256(2));
    assert Power256(6) == 0x100 * (0x100 * Power256(4));
    assert Power256(8) == 0x100 * (0x100 * Power256(6));
  }

  lemma {:induction false} NumberOfBytes(v: nat, n: nat)
    ensures LittleEndian(Bytes(v, n)) == v % Power256(n)
  {
    if n > 0 {
      NumberOfBytes(v / 256, n - 1);
      SplitRemainder(v, Power256(n - 1), Power256(n));
      FirstByte((v % 256) as byte, Bytes(v / 256, n - 1));
      ByteOf(v % 256);
      assert Bytes(v, n) == [(v % 256) as byte] + Bytes(v / 256, n - 1);
    }
  }

  lemma ByteOf(x: nat)
    requires x < 256
    ensures (x as byte) as int == x
  {
    if x < 16 {
    } else if x < 32 {
    } else if x < 64 {
    } else if x < 128 {
    }
  }

  lemma FirstByte(b: byte, rest: seq<byte>)
    ensures LittleEndian([b] + rest) == b as int + 256 * LittleEndian(rest)
  {
    assert ([b] + rest)[1..] == rest;
  }

  lemma SplitRemainder(v: nat, p: nat, m: nat)
    requires p > 0 && m == 256 * p
    ensures v % m == v % 256 + 256 * (v / 256 % p)
  {
    var q, r := v / 256 / p, v / 256 % p;
    DivisionIdentity(v / 256, p);
    assert q * p * 256 == q * m;
    RemainderOf(q, m, v % 256 + 256 * r);
    SmallRemainder(v % 256 + 256 * r, m);
  }

  lemma {:induction false} RemainderOf(q: nat, m: nat, x: nat)
    requires m > 0
    ensures (q * m + x) % m == x % m
  {
    if q > 0 {
      RemainderOf(q - 1, m, x);
      assert q * m + x == ((q - 1) * m + x) + m;
      ShiftedRemainder((q - 1) * m + x, m);
    }
  }

  lemma ShiftedRemainder(x: nat, m: nat)
    requires m > 0
    ensures (x + m) % m == x % m
  {
    DivisionIdentity(x, m);
    DivisionIdentity(x + m, m);
    QuotientBound(x + m, m, x / m + 1);
    if (x + m) / m > x / m + 1 {
      ProductMonotone(x / m + 2, (x + m) / m, m);
    }
  }

  lemma BytesModulo(v: nat, n: nat)
    ensures Bytes(v % Power256(n), n) == Bytes(v, n)
  {
    NumberOfBytes(v, n);
    BytesOfNumber(Bytes(v, n));
  }

  lemma BytesCongruent(x: nat, y: nat, n: nat)
    requires x % Power256(n) == y % Power256(n)
    ensures Bytes(x, n) == Bytes(y, n)
  {
    BytesModulo(x, n);
    BytesModulo(y, n);
  }

  lemma AddModulo(v: nat, p: nat, step: nat)
    requires p > 0
    ensures (v % p + step) % p == (v + step) % p
  {
    DivisionIdentity(v, p);
    RemainderOf(v / p, p, v % p + step);
  }

  /** Adding in the width of an address or in unbounded numbers gives the same bytes. */
  lemma BytesWrap(v: nat, n: nat, step: nat)
    ensures Bytes(LittleEndian(Bytes(v, n)) + step, n) == Bytes(v + step, n)
  {
    NumberOfBytes(v, n);
    AddModulo(v, Power256(n), step);
    BytesCongruent(v % Power256(n) + step, v + step, n);
  }

  function WidthOfAddress(is64: bool): nat
  {
    if is64 then 8 else 4
  }

  /** `s` with the bytes from `at` on replaced. */
  function Patched<T>(s: seq<T>, at: nat, t: seq<T>): (r: seq<T>)
    requires at + |t| <= |s|
    ensures |r| == |s|
  {
    s[..at] + t + s[at + |t|..]
  }

  lemma PatchedFurther<T>(s: seq<T>, now: seq<T>, at: nat, t: seq<T>, k: nat)
    requires k < |t| && at + |t| <= |s| && now == Patched(s, at, t[..k])[at + k := t[k]]
    ensures now == Patched(s, at, t[..k + 1])
  {
  }

  lemma PatchedTwice<T>(s: seq<T>, at: nat, t: seq<T>, u: seq<T>)
    requires at + |t| <= |s| && |t| == |u|
    ensures Patched(s, at, t)[at..at + |t|] == t && Patched(Patched(s, at, t), at, u) == Patched(s, at, u)
  {
  }

  lemma PatchedApart<T>(s: seq<T>, at: nat, t: seq<T>, from: nat, to: nat)
    requires at + |t| <= |s| && from <= to <= |s| && (to <= at || at + |t| <= from)
    ensures Patched(s, at, t)[from..to] == s[from..to]
  {
  }

  method WriteBytes(mem: array<byte>, at: nat, t: seq<byte>)
    requires at + |t| <= mem.Length
    modifies mem
    ensures mem[..] == Patched(old(mem[..]), at, t)
  {
    ghost var was := mem[..];
    var k := 0;
    while k < |t|
      invariant 0 <= k <= |t| && mem[..] == Patched(was, at, t[..k])
    {
      mem[at + k] := t[k];
      PatchedFurther(was, mem[..], at, t, k);
      k := k + 1;
    }
    assert t[..k] == t;
  }

  /** `*(uint64_t *)add = *(uint64_t *)add + 16`, and the same on 32 bits, where the field holds `address`. */
  method AdvanceAddress(mem: array<byte>, add: nat, is64: bool, ghost was: seq<byte>, ghost address: nat)
    requires add + WidthOfAddress(is64) <= mem.Length == |was|
    requires mem[..] == Patched(was, add, Bytes(address, WidthOfAddress(is64)))
    modifies mem
    ensures mem[..] == Patched(was, add, Bytes(address + 16, WidthOfAddress(is64)))
  {
    var w := WidthOfAddress(is64);
    ghost var now, next := mem[..], Bytes(address + 16, w);
    PatchedTwice(was, add, Bytes(address, w), next);
    assert mem[add..add + w] == now[add..add + w];
    BytesWrap(address, w, 16);
    var t := Bytes(LittleEndian(mem[add..add + w]) + 16, w);
    assert t == next;
    WriteBytes(mem, add, t);
  }

  /** The row loop of `dump_section` has printed `out` on the way to `text`: `left` is still to come, from the label
      `address` on. */
  ghost predicate Dumping(text: string, out: string, address: nat, left: seq<byte>, width: nat)
  {
    out + DumpText(address, width, Rows(left)) == text
  }

  lemma RowPrinted(text: string, out: string, address: nat, left: seq<byte>, width: nat,
                   out': string, address': nat, left': seq<byte>)
    requires Dumping(text, out, address, left, width) && left != []
    requires out' == out + RowText(Bytes(address, width), left[..RowLength(left)])
    requires address' == address + 16 && left' == left[RowLength(left)..]
    ensures Dumping(text, out', address', left', width)
    ensures 16 * |Rows(left)| == 16 + 16 * |Rows(left')|
  {
    var row, rest := RowText(Bytes(address, width), left[..RowLength(left)]), DumpText(address', width, Rows(left'));
    FirstRow(left);
    assert Rows(left)[1..] == Rows(left');
    assert DumpText(address, width, Rows(left)) == row + rest;
    Regroup(out, row, rest);
  }

  /** One row of `dump_section`. */
  method PrintRow(data: Data, mem: array<byte>, add: nat, is64: bool, str: nat, i: nat, size: nat,
                  ghost address: seq<byte>, ghost left: seq<byte>)
    requires add + WidthOfAddress(is64) <= mem.Length && i < size && str + (size - i) <= mem.Length
    requires mem[add..add + WidthOfAddress(is64)] == address && mem[str..str + (size - i)] == left
    modifies data
    ensures data.out == old(data.out) + RowText(address, left[..RowLength(left)])
  {
    ghost var out, row := data.out, left[..RowLength(left)];
    assert row == mem[str..str + RowLength(left)];
    HexdumpAddress(data, mem, add, is64);
    PrintString(data, "\t");
    HexdumpData(data, mem, str, i, size);
    PrintText(data, "\n");
    Regroup4(out, HexAddress(address), "\t", HexRow(row), "\n");
  }

  lemma Regroup4(a: string, b: string, c: string, d: string, e: string)
    ensures a + b + c + d + e == a + (b + c + d + e)
  {
  }

  /** One round of `dump_section`: the row, then the label counted up in place. */
  method DumpRow(data: Data, mem: array<byte>, add: nat, is64: bool, str: nat, i: nat, size: nat,
                 ghost was: seq<byte>, ghost address: nat, ghost left: seq<byte>)
    requires add + WidthOfAddress(is64) <= mem.Length && i < size && str + (size - i) <= mem.Length == |was|
    requires str + (size - i) <= add || add + WidthOfAddress(is64) <= str
    requires mem[..] == Patched(was, add, Bytes(address, WidthOfAddress(is64))) && left == was[str..str + (size - i)]
    modifies data, mem
    ensures mem[..] == Patched(was, add, Bytes(address + 16, WidthOfAddress(is64)))
    ensures data.out == old(data.out) + RowText(Bytes(address, WidthOfAddress(is64)), left[..RowLength(left)])
  {
    ghost var w := WidthOfAddress(is64);
    PatchedTwice(was, add, Bytes(address, w), Bytes(address, w));
    PatchedApart(was, add, Bytes(address, w), str, str + (size - i));
    assert mem[add..add + w] == mem[..][add..add + w];
    assert mem[str..str + (size - i)] == mem[..][str..str + (size - i)];
    PrintRow(data, mem, add, is64, str, i, size, Bytes(address, w), left);
    AdvanceAddress(mem, add, is64, was, address);
  }

  /** The loop of `dump_section` on the way to the output `text` and the label `end`: the field holds `address`, and
      `left` is still to be printed. */
  ghost predicate DumpedUpTo(was: seq<byte>, now: seq<byte>, out: string, add: nat, width: nat, text: string, end: nat,
                             address: nat, left: seq<byte>)
    requires add + width <= |was|
  {
    && now == Patched(was, add, Bytes(address, width))
    && address + 16 * |Rows(left)| == end
    && Dumping(text, out, address, left, width)
  }

  method DumpOn(data: Data, mem: array<byte>, add: nat, is64: bool, offset: nat, size: nat, i: nat, ghost was: seq<byte>,
                ghost text: string, ghost end: nat, ghost address: nat, ghost left: seq<byte>)
    returns (ghost address': nat, ghost left': seq<byte>)
    requires add + WidthOfAddress(is64) <= mem.Length == |was| && offset + size <= mem.Length && i < size
    requires offset + size <= add || add + WidthOfAddress(is64) <= offset
    requires left == was[offset + i..offset + size]
    requires DumpedUpTo(was, mem[..], data.out, add, WidthOfAddress(is64), text, end, address, left)
    modifies data, mem
    ensures left' == if i + 16 < size then was[offset + i + 16..offset + size] else []
    ensures DumpedUpTo(was, mem[..], data.out, add, WidthOfAddress(is64), text, end, address', left')
  {
    ghost var out := data.out;
    DumpRow(data, mem, add, is64, offset + i, i, size, was, address, left);
    address', left' := address + 16, left[RowLength(left)..];
    RowPrinted(text, out, address, left, WidthOfAddress(is64), data.out, address', left');
    StillToCome(was, offset, i, size, left);
  }

  /** The row loop of `dump_section`, which prints `section` from the label `from` on. */
  method DumpRows(data: Data, mem: array<byte>, add: nat, is64: bool, offset: nat, size: nat, ghost was: seq<byte>,
                  ghost text: string, ghost end: nat, ghost section: seq<byte>, ghost from: nat)
    requires add + WidthOfAddress(is64) <= mem.Length == |was| && offset + size <= mem.Length
    requires offset + size <= add || add + WidthOfAddress(is64) <= offset
    requires section == was[offset..offset + size]
    requires DumpedUpTo(was, mem[..], data.out, add, WidthOfAddress(is64), text, end, from, section)
    modifies data, mem
    ensures data.out == text && mem[..] == Patched(was, add, Bytes(end, WidthOfAddress(is64)))
  {
    ghost var address, left := from, section;
    var i: nat := 0;
    while i < size
      invariant left == if i < size then was[offset + i..offset + size] else []
      invariant DumpedUpTo(was, mem[..], data.out, add, WidthOfAddress(is64), text, end, address, left)
    {
      address, left := DumpOn(data, mem, add, is64, offset, size, i, was, text, end, address, left);
      i := i + 16;
    }
    DumpDone(was, mem[..], data.out, add, WidthOfAddress(is64), text, end, address);
  }

  /** `dump_section` on a section inside the file and apart from its own address field: the rows cover the section, the
      labels count up by sixteen in the width of an address, and the address field is left counted up. */
  method DumpSection(data: Data, mem: array<byte>, add: nat, is64: bool, offset: nat, size: nat)
    requires add + WidthOfAddress(is64) <= mem.Length && offset + size <= mem.Length
    requires offset + size <= add || add + WidthOfAddress(is64) <= offset
    modifies data, mem
    ensures var w := WidthOfAddress(is64);
            var address, section := LittleEndian(old(mem[add..add + w])), old(mem[offset..offset + size]);
            && data.out == old(data.out) + DumpText(address, w, Rows(section))
            && mem[..] == Patched(old(mem[..]), add, Bytes(address + 16 * |Rows(section)|, w))
  {
    ghost var w, was := WidthOfAddress(is64), mem[..];
    ghost var from, section := LittleEndian(mem[add..add + w]), mem[offset..offset + size];
    ghost var text, end := data.out + DumpText(from, w, Rows(section)), from + 16 * |Rows(section)|;
    DumpStarts(was, data.out, add, w, text, end, section, mem[add..add + w], from);
    DumpRows(data, mem, add, is64, offset, size, was, text, end, section, from);
  }

  lemma DumpStarts(was: seq<byte>, out: string, add: nat, width: nat, text: string, end: nat, section: seq<byte>,
                   field: seq<byte>, from: nat)
    requires add + width <= |was| && field == was[add..add + width] && from == LittleEndian(field)
    requires text == out + DumpText(from, width, Rows(section)) && end == from + 16 * |Rows(section)|
    ensures DumpedUpTo(was, was, out, add, width, text, end, from, section)
  {
    BytesOfNumber(field);
    PatchedBySelf(was, add, add + width);
  }

  lemma PatchedBySelf<T>(s: seq<T>, at: nat, to: nat)
    requires at <= to <= |s|
    ensures Patched(s, at, s[at..to]) == s
  {
  }

  lemma DumpDone(was: seq<byte>, now: seq<byte>, out: string, add: nat, width: nat, text: string, end: nat, address: nat)
    requires add + width <= |was| && DumpedUpTo(was, now, out, add, width, text, end, address, [])
    ensures out == text && now == Patched(was, add, Bytes(end, width))
  {
    assert out + "" == out;
  }

  lemma StillToCome(was: seq<byte>, offset: nat, i: nat, size: nat, left: seq<byte>)
    requires i < size && offset + size <= |was| && left == was[offset + i..offset + size]
    ensures left[RowLength(left)..] == if i + 16 < size then was[offset + i + 16..offset + size] else []
  {
  }
}
