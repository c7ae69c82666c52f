/** Conversion directives of a format string: how they are written, and what `set_flags` and `set_cast` read. */
module Directives {
  import opened CText
  import opened Numerals
  import opened Decimals

  datatype Length = NoLength | HH | H | L | LL | J | Z
  {
    function Text(): string
    {
      match this
      case NoLength => ""
      case HH => "hh"
      case H => "h"
      case L => "l"
      case LL => "ll"
      case J => "j"
      case Z => "z"
    }
  }

  datatype Width = NoWidth | WidthDigits(t: string) | WidthStar
  datatype Precision = NoPrecision | PrecisionDigits(t: string) | PrecisionStar
  datatype Directive = Directive(flags: string, width: Width, precision: Precision, length: Length, conv: char)

  /** An argument: a 64-bit word, or a string pointer. */
  datatype Arg = Word(bits: nat) | Text(s: CString) | NullText

  predicate IsFlag(c: char)
  {
    c == '0' || c == '#' || c == '-' || c == '+' || c == ' '
  }

  predicate IsLetter(c: char)
  {
    c == 'h' || c == 'l' || c == 'j' || c == 'z'
  }

  predicate IsConversion(c: char)
  {
    c == 'd' || c == 'i' || c == 'u' || c == 'o' || c == 'x' || c == 'X' || c == 'c' || c == 's' || c == 'p' || c == '%'
  }

  /** `is_f`: the conversion letters at which the scan for the end of a directive stops; '%' stops it as well. */
  predicate IsF(c: char)
  {
    || c == 's' || c == 'S' || c == 'p' || c == 'd' || c == 'D' || c == 'i' || c == 'o' || c == 'O' || c == 'u'
    || c == 'U' || c == 'x' || c == 'X' || c == 'c' || c == 'C' || c == 'b'
  }

  function WidthText(w: Width): string
  {
    match w
    case NoWidth => ""
    case WidthDigits(t) => t
    case WidthStar => "*"
  }

  function PrecisionText(p: Precision): string
  {
    match p
    case NoPrecision => ""
    case PrecisionDigits(t) => "." + t
    case PrecisionStar => ".*"
  }

  /** Everything between '%' and the conversion character. */
  function Body(d: Directive): string
  {
    d.flags + WidthText(d.width) + PrecisionText(d.precision) + d.length.Text()
  }

  function Render(d: Directive): string
  {
    "%" + Body(d) + [d.conv]
  }

  predicate FitsInt(t: string)
  {
    AllDigits(t) && Value(t, DECIMAL) < UINT32 / 2
  }

  predicate Valid(d: Directive)
  {
    && (forall k :: 0 <= k < |d.flags| ==> IsFlag(d.flags[k]))
    && (d.width.WidthDigits? ==> FitsInt(d.width.t) && d.width.t != "" && d.width.t[0] != '0')
    && (d.precision.PrecisionDigits? ==> FitsInt(d.precision.t))
    && IsConversion(d.conv)
  }

  /* ---- what set_flags does ---- */

  datatype Parse = Parse(flags: string, width: int, precision: int, args: seq<Arg>)

  /** `va_arg(args, int)`. Reading past the last argument is undefined in C; here it gives 0. */
  function TakeInt(args: seq<Arg>): (int, seq<Arg>)
  {
    if args != [] && args[0].Word? then (ToSigned(args[0].bits, UINT32), args[1..]) else (0, args)
  }

  function AddFlag(flags: string, c: char): string
  {
    if c in flags then flags else flags + [c]
  }

  /** One round of the loop of `set_flags`. */
  function Step(f: string, i: nat, p: Parse): (r: (nat, Parse))
    requires i < |f|
    ensures r.0 > i
  {
    if f[i] == '0' then (i + 1, p.(flags := AddFlag(p.flags, '0')))
    else if '.' !in f[..i + 1] && '0' < f[i] <= '9' then (i + DigitRun(f[i..]), p.(width := Atoi(f[i..])))
    else if f[i] == '*' then
      var (x, rest) := TakeInt(p.args);
      (i + 1, p.(width := Abs(x), args := rest))
    else if f[i] == '.' && CharAt(f, i + 1) == '*' then
      var (x, rest) := TakeInt(p.args);
      (i + 2, p.(precision := if x < 0 then -1 else x, args := rest))
    else if f[i] == '.' then (i + DigitRun(f[i + 1..]) + 2, p.(precision := Atoi(f[i + 1..])))
    else (i + 1, if IsFlag(f[i]) then p.(flags := AddFlag(p.flags, f[i])) else p)
  }

  function ParseFrom(f: string, size: nat, i: nat, p: Parse): Parse
    requires size <= |f|
    decreases size - i
  {
    if i < size && |p.flags| < 10 then
      var (i', p') := Step(f, i, p);
      ParseFrom(f, size, i', p')
    else
      p
  }

  /* ---- the phases of a directive ---- */

  /** Distinct flag characters: what fits five cells of the ten in the record. */
  predicate FlagList(s: string)
  {
    (forall k :: 0 <= k < |s| ==> IsFlag(s[k])) && forall i, j :: 0 <= i < j < |s| ==> s[i] != s[j]
  }

  lemma {:induction false} DistinctCount(s: string)
    requires forall i, j :: 0 <= i < j < |s| ==> s[i] != s[j]
    ensures |set c | c in s| == |s|
  {
    if s != "" {
      var t := s[1..];
      DistinctCount(t);
      assert (set c | c in s) == (set c | c in t) + {s[0]};
    }
  }

  lemma FlagListFits(s: string)
    requires FlagList(s)
    ensures |s| <= 5
  {
    DistinctCount(s);
    var used := set c | c in s;
    var all := {'0', '#', '-', '+', ' '};
    assert used <= all;
    assert |all - used| + |used| == |all|;
  }

  function AddFlags(flags: string, more: string): string
    decreases |more|
  {
    if more == "" then flags else AddFlags(AddFlag(flags, more[0]), more[1..])
  }

  /** Repeats are dropped and nothing else: the flags kept are distinct and are the set that was written. */
  lemma {:induction false} AddFlagsSet(flags: string, more: string)
    requires FlagList(flags) && forall k :: 0 <= k < |more| ==> IsFlag(more[k])
    ensures FlagList(AddFlags(flags, more))
    ensures (set c | c in AddFlags(flags, more)) == (set c | c in flags) + (set c | c in more)
    decreases |more|
  {
    if more != "" {
      AddFlagSet(flags, more[0]);
      AddFlagsSet(AddFlag(flags, more[0]), more[1..]);
      SetOfCons(more);
    }
  }

  lemma AddFlagSet(flags: string, c: char)
    requires FlagList(flags) && IsFlag(c)
    ensures FlagList(AddFlag(flags, c)) && (set x | x in AddFlag(flags, c)) == (set x | x in flags) + {c}
  {
  }

  lemma SetOfCons(s: string)
    requires s != ""
    ensures (set c | c in s) == {s[0]} + (set c | c in s[1..])
  {
    assert s == [s[0]] + s[1..];
  }

  lemma FlagStep(f: string, i: nat, p: Parse)
    requires i < |f| && IsFlag(f[i])
    ensures Step(f, i, p) == (i + 1, p.(flags := AddFlag(p.flags, f[i])))
  {
  }

  lemma {:induction false} FlagsPhase(f: string, size: nat, i: nat, e: nat, p: Parse)
    requires i <= e <= size <= |f| && FlagList(p.flags)
    requires forall k :: i <= k < e ==> IsFlag(f[k])
    ensures ParseFrom(f, size, i, p) == ParseFrom(f, size, e, p.(flags := AddFlags(p.flags, f[i..e])))
    decreases e - i
  {
    if i < e {
      FlagListFits(p.flags);
      FlagStep(f, i, p);
      FlagsPhase(f, size, i + 1, e, p.(flags := AddFlag(p.flags, f[i])));
      assert f[i..e][1..] == f[i + 1..e];
    }
  }

  /** `set_flags` takes one step from `i` and goes on at `j`. */
  lemma OneStep(f: string, size: nat, i: nat, p: Parse, j: nat, q: Parse)
    requires i < size <= |f| && FlagList(p.flags) && Step(f, i, p) == (j, q)
    ensures ParseFrom(f, size, i, p) == ParseFrom(f, size, j, q)
  {
    FlagListFits(p.flags);
  }

  /** Length letters are passed over. */
  lemma {:induction false} LettersPhase(f: string, size: nat, i: nat, p: Parse)
    requires size <= |f| && FlagList(p.flags)
    requires forall k :: i <= k < size ==> IsLetter(f[k])
    ensures ParseFrom(f, size, i, p) == p
    decreases size - i
  {
    if i < size {
      assert IsLetter(f[i]);
      OneStep(f, size, i, p, i + 1, p);
      LettersPhase(f, size, i + 1, p);
    }
  }

  predicate TakesWord(args: seq<Arg>)
  {
    args != [] && args[0].Word?
  }

  /** The width that a directive asks for, with the arguments left over. A negative argument counts by magnitude. */
  function WidthOf(w: Width, args: seq<Arg>): (int, seq<Arg>)
  {
    match w
    case NoWidth => (0, args)
    case WidthDigits(t) => (Value(t, DECIMAL), args)
    case WidthStar => (Abs(TakeInt(args).0), TakeInt(args).1)
  }

  /** The precision that a directive asks for, -1 when it asks for none; a lone '.' asks for zero. */
  function PrecisionOf(p: Precision, args: seq<Arg>): (int, seq<Arg>)
  {
    match p
    case NoPrecision => (-1, args)
    case PrecisionDigits(t) => (Value(t, DECIMAL), args)
    case PrecisionStar => (if TakeInt(args).0 < 0 then -1 else TakeInt(args).0, TakeInt(args).1)
  }

  /** What the two digit readers make of a number in front of `rest`. */
  lemma DigitsRead(s: string, t: string, rest: string)
    requires s == t + rest && FitsInt(t) && EndsNumber(rest)
    requires t == "" && rest != "" ==> !IsBlank(rest[0]) && !HasSign(rest)
    ensures DigitRun(s) == |t| && Atoi(s) == Value(t, DECIMAL)
  {
    DigitRunOf(t, rest);
    AtoiOfDigits(t, rest);
  }

  lemma WidthStep(f: string, size: nat, i: nat, p: Parse, j: nat, q: Parse)
    requires i < size <= |f| && FlagList(p.flags) && '0' < f[i] <= '9' && '.' !in f[..i]
    requires j == i + DigitRun(f[i..]) && q == p.(width := Atoi(f[i..]))
    ensures ParseFrom(f, size, i, p) == ParseFrom(f, size, j, q)
  {
    assert f[..i + 1] == f[..i] + [f[i]];
    OneStep(f, size, i, p, j, q);
  }

  lemma WidthPhase(f: string, size: nat, i: nat, w: Width, rest: string, p: Parse, j: nat, q: Parse)
    requires i <= j == i + |WidthText(w)| <= size <= |f| && f[i..] == WidthText(w) + rest
    requires w.WidthDigits? ==> FitsInt(w.t) && w.t != "" && w.t[0] != '0'
    requires EndsNumber(rest) && '.' !in f[..i] && FlagList(p.flags) && p.width == 0
    requires q == p.(width := WidthOf(w, p.args).0, args := WidthOf(w, p.args).1)
    ensures ParseFrom(f, size, i, p) == ParseFrom(f, size, j, q)
  {
    match w
    case NoWidth =>
      assert q == p;
    case WidthStar =>
      assert f[i] == f[i..][0] == '*';
      OneStep(f, size, i, p, j, q);
    case WidthDigits(t) =>
      WidthDigitsPhase(f, size, i, t, rest, p, j, q);
  }

  lemma WidthDigitsPhase(f: string, size: nat, i: nat, t: string, rest: string, p: Parse, j: nat, q: Parse)
    requires i <= j == i + |t| <= size <= |f| && f[i..] == t + rest && FitsInt(t) && t != "" && t[0] != '0'
    requires EndsNumber(rest) && '.' !in f[..i] && FlagList(p.flags) && q == p.(width := Value(t, DECIMAL))
    ensures ParseFrom(f, size, i, p) == ParseFrom(f, size, j, q)
  {
    assert f[i] == f[i..][0] == t[0] && IsDigit(t[0]);
    DigitsRead(f[i..], t, rest);
    WidthStep(f, size, i, p, j, q);
  }

  /** After the digits of a precision one character more is passed over, whatever it is. */
  lemma PrecisionStep(f: string, size: nat, i: nat, p: Parse, j: nat, q: Parse)
    requires i < size <= |f| && FlagList(p.flags) && f[i] == '.' && CharAt(f, i + 1) != '*'
    requires j == i + DigitRun(f[i + 1..]) + 2 && q == p.(precision := Atoi(f[i + 1..]))
    ensures ParseFrom(f, size, i, p) == ParseFrom(f, size, j, q)
  {
    assert f[i] in f[..i + 1];
    OneStep(f, size, i, p, j, q);
  }

  lemma PrecisionPhase(f: string, size: nat, i: nat, r: Precision, rest: string, p: Parse, q: Parse)
    requires i + |PrecisionText(r)| <= size <= |f| && f[i..] == PrecisionText(r) + rest
    requires (r.PrecisionDigits? ==> FitsInt(r.t)) && EndsPrecision(rest)
    requires forall k :: i + |PrecisionText(r)| <= k < size ==> IsLetter(f[k])
    requires FlagList(p.flags) && p.precision == -1
    requires q == p.(precision := PrecisionOf(r, p.args).0, args := PrecisionOf(r, p.args).1)
    ensures ParseFrom(f, size, i, p) == q
  {
    match r
    case NoPrecision =>
      assert q == p;
      LettersPhase(f, size, i, p);
    case PrecisionStar =>
      assert f[i] == f[i..][0] == '.' && f[i + 1] == f[i..][1] == '*';
      var j := i + 2;
      StarStep(f, size, i, p, j, q);
      LettersPhase(f, size, j, q);
    case PrecisionDigits(t) =>
      var j := i + |t| + 2;
      PrecisionDigitsPhase(f, size, i, t, rest, p, j, q);
      LettersPhase(f, size, j, q);
  }

  lemma StarStep(f: string, size: nat, i: nat, p: Parse, j: nat, q: Parse)
    requires j == i + 2 && i < size <= |f| && FlagList(p.flags) && f[i] == '.' && CharAt(f, i + 1) == '*'
    requires q == p.(precision := PrecisionOf(PrecisionStar, p.args).0, args := PrecisionOf(PrecisionStar, p.args).1)
    ensures ParseFrom(f, size, i, p) == ParseFrom(f, size, j, q)
  {
    assert f[i] in f[..i + 1];
    OneStep(f, size, i, p, j, q);
  }

  /** What follows a precision: not a digit, a blank, a sign or a star. */
  predicate EndsPrecision(rest: string)
  {
    rest != "" && !IsDigit(rest[0]) && !IsBlank(rest[0]) && !HasSign(rest) && rest[0] != '*'
  }

  lemma PrecisionDigitsPhase(f: string, size: nat, i: nat, t: string, rest: string, p: Parse, j: nat, q: Parse)
    requires j == i + |t| + 2 && i + 1 + |t| <= size <= |f| && f[i..] == "." + t + rest && FitsInt(t)
    requires EndsPrecision(rest) && FlagList(p.flags) && q == p.(precision := Value(t, DECIMAL))
    ensures ParseFrom(f, size, i, p) == ParseFrom(f, size, j, q)
  {
    assert f[i] == f[i..][0] == '.';
    assert f[i + 1..] == f[i..][1..] == t + rest;
    assert CharAt(f, i + 1) == (t + rest)[0] != '*';
    DigitsRead(f[i + 1..], t, rest);
    PrecisionStep(f, size, i, p, j, q);
  }

  /** The first character of what is left of a directive after its precision. */
  lemma TailHead(d: Directive, after: string)
    requires Valid(d)
    ensures var tail := Tail(d, after);
            EndsPrecision(tail) && EndsNumber(PrecisionText(d.precision) + tail)
  {
  }

  lemma Regroup(a: string, b: string, c: string)
    ensures a + b + c == a + (b + c)
  {
  }

  lemma Cut(f: string, i: nat, a: string, b: string)
    requires i <= |f| && f[i..] == a + b
    ensures i + |a| <= |f| && f[i..i + |a|] == a && f[i + |a|..] == b
  {
    assert f[i..][..|a|] == f[i..i + |a|];
  }

  /** What stands after the precision. */
  function Tail(d: Directive, after: string): string
  {
    d.length.Text() + ([d.conv] + after)
  }

  lemma RenderParts(d: Directive, after: string)
    ensures Render(d) + after == "%" + (d.flags + (WidthText(d.width) + (PrecisionText(d.precision) + Tail(d, after))))
  {
    var fl, w, r, l, c := d.flags, WidthText(d.width), PrecisionText(d.precision), d.length.Text(), [d.conv];
    Regroup("%", Body(d), c);
    Regroup("%", Body(d) + c, after);
    Regroup(Body(d), c, after);
    Regroup(fl + w + r, l, c + after);
    Regroup(fl + w, r, Tail(d, after));
    Regroup(fl, w, r + Tail(d, after));
  }

  /** Where the parts of a written directive stand in the format. */
  lemma Anatomy(d: Directive, f: string, after: string)
    requires f == Render(d) + after
    ensures var i1 := 1 + |d.flags|;
            var i2 := i1 + |WidthText(d.width)|;
            var i3 := i2 + |PrecisionText(d.precision)|;
            && |Render(d)| - 1 == i3 + |d.length.Text()| < |f|
            && f[..1] == "%" && f[1..i1] == d.flags
            && f[i1..] == WidthText(d.width) + (PrecisionText(d.precision) + Tail(d, after))
            && f[i2..] == PrecisionText(d.precision) + Tail(d, after)
            && f[i3..] == Tail(d, after)
            && f[i3..|Render(d)| - 1] == d.length.Text()
            && f[|Render(d)| - 1..] == [d.conv] + after
  {
    RenderParts(d, after);
    CutUp(f, d.flags, WidthText(d.width), PrecisionText(d.precision), Tail(d, after), d.length.Text(), [d.conv] + after);
  }

  lemma CutUp(f: string, flags: string, w: string, r: string, tail: string, l: string, end: string)
    requires f == "%" + (flags + (w + (r + tail))) && tail == l + end
    ensures var i1 := 1 + |flags|;
            var i2 := i1 + |w|;
            var i3 := i2 + |r|;
            && |f| == i3 + |l| + |end|
            && f[..1] == "%" && f[1..i1] == flags && f[i1..] == w + (r + tail) && f[i2..] == r + tail && f[i3..] == tail
            && f[i3..i3 + |l|] == l && f[i3 + |l|..] == end
  {
    CutFront(f, flags, w + (r + tail));
    CutPair(f, 1 + |flags|, w, r, tail);
    CutBack(f, 1 + |flags| + |w| + |r|, l, end);
  }

  lemma CutFront(f: string, flags: string, rest: string)
    requires f == "%" + (flags + rest)
    ensures |f| == 1 + |flags| + |rest| && f[..1] == "%" && f[1..1 + |flags|] == flags && f[1 + |flags|..] == rest
  {
    assert f[1..] == flags + rest;
    Cut(f, 1, flags, rest);
  }

  lemma CutPair(f: string, i: nat, w: string, r: string, tail: string)
    requires i <= |f| && f[i..] == w + (r + tail)
    ensures |f| == i + |w| + |r| + |tail| && f[i + |w|..] == r + tail && f[i + |w| + |r|..] == tail
  {
    Cut(f, i, w, r + tail);
    Cut(f, i + |w|, r, tail);
  }

  lemma CutBack(f: string, i: nat, l: string, end: string)
    requires i <= |f| && f[i..] == l + end
    ensures |f| == i + |l| + |end| && f[i..i + |l|] == l && f[i + |l|..] == end
  {
    Cut(f, i, l, end);
  }

  /** `p` has the flag set, width and precision of `d`, read with the arguments `args`, and at most five distinct flags. */
  ghost predicate Recovers(p: Parse, d: Directive, args: seq<Arg>)
  {
    var (width, rest) := WidthOf(d.width, args);
    && (set c | c in p.flags) == (set c | c in d.flags) && FlagList(p.flags) && |p.flags| <= 5
    && p.width == width && (p.precision, p.args) == PrecisionOf(d.precision, rest)
  }

  /** The parse of a written directive gives back its flag set, width and precision, and takes no more arguments
      than its stars ask for. `f` starts with the directive and may go on in any way. */
  lemma ParseRoundTrip(d: Directive, f: string, after: string, args: seq<Arg>)
    requires Valid(d) && f == Render(d) + after
    ensures Recovers(ParseFrom(f, |Render(d)| - 1, 1, Parse("", 0, -1, args)), d, args)
  {
    var flags := AddFlags("", d.flags);
    var (width, left) := WidthOf(d.width, args);
    var (precision, rest) := PrecisionOf(d.precision, left);
    AddFlagsSet("", d.flags);
    FlagListFits(flags);
    var q := Parse(flags, width, precision, rest);
    assert Recovers(q, d, args);
    ParseOfRendering(d, f, after, |Render(d)| - 1, Parse("", 0, -1, args), q);
  }

  lemma ParseOfRendering(d: Directive, f: string, after: string, size: nat, p: Parse, q: Parse)
    requires Valid(d) && f == Render(d) + after && size == |Render(d)| - 1
    requires p.flags == "" && p.width == 0 && p.precision == -1
    requires q.flags == AddFlags("", d.flags) && FlagList(q.flags) && q.width == WidthOf(d.width, p.args).0
    requires (q.precision, q.args) == PrecisionOf(d.precision, WidthOf(d.width, p.args).1)
    ensures ParseFrom(f, size, 1, p) == q
  {
    var i1 := 1 + |d.flags|;
    var i2 := i1 + |WidthText(d.width)|;
    var p1 := p.(flags := q.flags);
    var p2 := p1.(width := q.width, args := WidthOf(d.width, p.args).1);
    Anatomy(d, f, after);
    FlagsDone(d, f, after, size, i1, p, p1);
    WidthDone(d, f, after, size, i1, p1, i2, p2);
    PrecisionDone(d, f, after, size, i2, p2, q);
  }

  lemma FlagsDone(d: Directive, f: string, after: string, size: nat, j: nat, p: Parse, q: Parse)
    requires Valid(d) && f == Render(d) + after && size == |Render(d)| - 1 && j == 1 + |d.flags|
    requires p.flags == "" && q == p.(flags := AddFlags("", d.flags))
    ensures ParseFrom(f, size, 1, p) == ParseFrom(f, size, j, q)
  {
    Anatomy(d, f, after);
    assert forall k :: 1 <= k < j ==> f[k] == f[1..j][k - 1];
    FlagsPhase(f, size, 1, j, p);
  }

  lemma WidthDone(d: Directive, f: string, after: string, size: nat, i: nat, p: Parse, j: nat, q: Parse)
    requires Valid(d) && f == Render(d) + after && size == |Render(d)| - 1
    requires i == 1 + |d.flags| && j == i + |WidthText(d.width)|
    requires FlagList(p.flags) && p.width == 0
    requires q == p.(width := WidthOf(d.width, p.args).0, args := WidthOf(d.width, p.args).1)
    ensures ParseFrom(f, size, i, p) == ParseFrom(f, size, j, q)
  {
    Anatomy(d, f, after);
    TailHead(d, after);
    assert '.' !in f[..i] by {
      assert f[..i] == f[..1] + f[1..i];
    }
    WidthPhase(f, size, i, d.width, PrecisionText(d.precision) + Tail(d, after), p, j, q);
  }

  lemma PrecisionDone(d: Directive, f: string, after: string, size: nat, i: nat, p: Parse, q: Parse)
    requires Valid(d) && f == Render(d) + after && size == |Render(d)| - 1
    requires i == 1 + |d.flags| + |WidthText(d.width)|
    requires FlagList(p.flags) && p.precision == -1
    requires q == p.(precision := PrecisionOf(d.precision, p.args).0, args := PrecisionOf(d.precision, p.args).1)
    ensures ParseFrom(f, size, i, p) == q
  {
    var i3 := i + |PrecisionText(d.precision)|;
    LettersStand(d, f, after, size, i3);
    PrecisionStands(d, f, after, size, i, Tail(d, after));
    PrecisionPhase(f, size, i, d.precision, Tail(d, after), p, q);
  }

  lemma PrecisionStands(d: Directive, f: string, after: string, size: nat, i: nat, tail: string)
    requires Valid(d) && f == Render(d) + after && size == |Render(d)| - 1
    requires i == 1 + |d.flags| + |WidthText(d.width)| && tail == Tail(d, after)
    ensures i + |PrecisionText(d.precision)| <= size <= |f| && f[i..] == PrecisionText(d.precision) + tail
    ensures EndsPrecision(tail)
  {
    Anatomy(d, f, after);
    TailHead(d, after);
  }

  /** Between the precision and the conversion there are length letters only. */
  lemma LettersStand(d: Directive, f: string, after: string, size: nat, i: nat)
    requires f == Render(d) + after && size == |Render(d)| - 1
    requires i == 1 + |d.flags| + |WidthText(d.width)| + |PrecisionText(d.precision)|
    ensures i <= size < |f| && forall k :: i <= k < size ==> IsLetter(f[k])
  {
    Anatomy(d, f, after);
    assert forall k :: i <= k < size ==> f[k] == f[i..size][k - i];
  }

  /** The character passed over behind a precision is a length letter or the conversion: never a flag, a digit or a star. */
  lemma SkippedCharacter(d: Directive, f: string, after: string, i: nat)
    requires Valid(d) && f == Render(d) + after
    requires i == 1 + |d.flags| + |WidthText(d.width)| + |PrecisionText(d.precision)|
    ensures i < |f| && (IsLetter(f[i]) || IsConversion(f[i])) && !IsFlag(f[i]) && !IsDigit(f[i]) && f[i] != '*'
  {
    Anatomy(d, f, after);
    assert f[i] == Tail(d, after)[0];
  }

  /* ---- what set_cast does ---- */

  /** The length of the first run of `c` in `s`; 0 when there is none. */
  function FirstRun(s: string, c: char): nat
    decreases |s|
  {
    if s == "" then 0 else if s[0] == c then RunHere(s, c) else FirstRun(s[1..], c)
  }

  function RunHere(s: string, c: char): nat
    decreases |s|
  {
    if s != "" && s[0] == c then 1 + RunHere(s[1..], c) else 0
  }

  /** What `set_cast` reads from `f[..size]`: a doubled letter is one whose first run has even length. */
  function CastOf(f: string, size: nat): Length
    requires size < |f|
  {
    var window := f[..size + 1];
    if 'h' in window then (if FirstRun(f[..size], 'h') % 2 == 0 then HH else H)
    else if 'l' in window then (if FirstRun(f[..size], 'l') % 2 == 0 then LL else L)
    else if 'j' in window then J
    else if 'z' in window then Z
    else NoLength
  }

  lemma {:induction false} SkipRun(head: string, t: string, c: char)
    requires c !in head
    ensures FirstRun(head + t, c) == FirstRun(t, c)
    decreases |head|
  {
    if head == "" {
      assert head + t == t;
    } else {
      assert (head + t)[1..] == head[1..] + t;
      SkipRun(head[1..], t, c);
    }
  }

  /** Everything of a directive before its length letters. */
  function Head(d: Directive): string
  {
    "%" + d.flags + WidthText(d.width) + PrecisionText(d.precision)
  }

  predicate IsHeadChar(c: char)
  {
    IsFlag(c) || IsDigit(c) || c == '.' || c == '*'
  }

  lemma HeadChars(d: Directive)
    requires Valid(d)
    ensures forall k :: 1 <= k < |Head(d)| ==> IsHeadChar(Head(d)[k])
  {
  }

  lemma SplitAtLength(d: Directive, f: string, after: string)
    requires f == Render(d) + after
    ensures |Head(d)| + |d.length.Text()| == |Render(d)| - 1 < |f|
    ensures f[..|Render(d)| - 1] == Head(d) + d.length.Text() && f[|Render(d)| - 1] == d.conv
  {
    var fl, w, r, l, c := d.flags, WidthText(d.width), PrecisionText(d.precision), d.length.Text(), [d.conv];
    Regroup("%", fl + w + r, l);
    Regroup("%", fl + w, r);
    Regroup("%", fl, w);
    assert Render(d) == Head(d) + l + c;
  }

  lemma LengthRuns()
    ensures FirstRun("hh", 'h') == FirstRun("ll", 'l') == 2 && FirstRun("h", 'h') == FirstRun("l", 'l') == 1
  {
  }

  /** The length modifier read is the one written. */
  lemma CastRoundTrip(d: Directive, f: string, after: string)
    requires Valid(d) && f == Render(d) + after
    ensures |Render(d)| - 1 < |f| && CastOf(f, |Render(d)| - 1) == d.length
  {
    SplitAtLength(d, f, after);
    HeadChars(d);
    CastOfText(f, |Render(d)| - 1, Head(d), d.length);
  }

  lemma CastOfText(f: string, size: nat, head: string, length: Length)
    requires size < |f| && f[..size] == head + length.Text() && !IsLetter(f[size])
    requires head != "" && head[0] == '%' && forall k :: 1 <= k < |head| ==> IsHeadChar(head[k])
    ensures CastOf(f, size) == length
  {
    var l := length.Text();
    assert f[..size + 1] == head + l + [f[size]];
    assert forall c :: IsLetter(c) ==> c !in head && (c in f[..size + 1] <==> c in l);
    LengthRuns();
    SkipRun(head, l, 'h');
    SkipRun(head, l, 'l');
    match length
    case HH => assert l[0] == 'h';
    case H => assert l[0] == 'h';
    case LL => assert l[0] == 'l';
    case L => assert l[0] == 'l';
    case J => assert l[0] == 'j';
    case Z => assert l[0] == 'z';
    case NoLength =>
  }

  /** The scan for the conversion character stops at the one written. */
  lemma ScanRoundTrip(d: Directive, f: string, after: string)
    requires Valid(d) && f == Render(d) + after
    ensures |Render(d)| - 1 < |f| && f[|Render(d)| - 1] == d.conv
    ensures forall k :: 1 <= k < |Render(d)| - 1 ==> !IsF(f[k]) && f[k] != '%' && f[k] != '\0'
  {
    SplitAtLength(d, f, after);
    HeadChars(d);
    var size := |Render(d)| - 1;
    forall k | 1 <= k < size
      ensures !IsF(f[k]) && f[k] != '%' && f[k] != '\0'
    {
      assert f[k] == f[..size][k];
      if k < |Head(d)| {
        assert IsHeadChar(Head(d)[k]);
      } else {
        assert IsLetter(d.length.Text()[k - |Head(d)|]);
      }
    }
  }
}
