/** The text of a file as a sequence of lines. */
module Lines {

  /** The text up to the first newline, or all of it. */
  function FirstLine(s: string): string
  {
    if s == "" || s[0] == '\n' then "" else [s[0]] + FirstLine(s[1..])
  }

  /** The text after the first newline; nothing when there is none. */
  function AfterLine(s: string): (r: string)
    ensures |r| <= |s| && (s != "" ==> |r| < |s|)
  {
    if s == "" then "" else if s[0] == '\n' then s[1..] else AfterLine(s[1..])
  }

  function SplitLines(s: string): seq<string>
    decreases |s|
  {
    if s == "" then [] else [FirstLine(s)] + SplitLines(AfterLine(s))
  }

  /** Lines written back, each with its newline. */
  function JoinLines(lines: seq<string>): string
  {
    if lines == [] then "" else lines[0] + "\n" + JoinLines(lines[1..])
  }

  lemma {:induction false} CutAtNewline(s: string)
    ensures '\n' !in FirstLine(s)
    ensures s == if '\n' in s then FirstLine(s) + "\n" + AfterLine(s) else FirstLine(s)
    ensures '\n' !in s ==> AfterLine(s) == ""
    decreases |s|
  {
    if s != "" && s[0] != '\n' {
      CutAtNewline(s[1..]);
      assert s == [s[0]] + s[1..];
    }
  }

  predicate Unterminated(s: string)
  {
    s != "" && s[|s| - 1] != '\n'
  }

  /** Splitting loses nothing: joining the lines gives the text back, with the newline its last line may lack. */
  lemma {:induction false} JoinSplit(s: string)
    ensures JoinLines(SplitLines(s)) == if Unterminated(s) then s + "\n" else s
    ensures forall l <- SplitLines(s) :: '\n' !in l
    decreases |s|
  {
    if s != "" {
      CutAtNewline(s);
      JoinSplit(AfterLine(s));
      var t := AfterLine(s);
      assert SplitLines(s)[0] == FirstLine(s) && SplitLines(s)[1..] == SplitLines(t);
      if '\n' in s {
        assert t != "" ==> s[|s| - 1] == t[|t| - 1];
      }
    }
  }

  /** Splitting is the inverse of joining, for lines that hold no newline. */
  lemma {:induction false} SplitJoin(lines: seq<string>)
    requires forall l <- lines :: '\n' !in l
    ensures SplitLines(JoinLines(lines)) == lines
  {
    if lines != [] {
      SplitJoin(lines[1..]);
      var s := JoinLines(lines);
      var rest := JoinLines(lines[1..]);
      assert s == lines[0] + ("\n" + rest);
      LineThenRest(lines[0], rest);
    }
  }

  lemma {:induction false} LineThenRest(line: string, rest: string)
    requires '\n' !in line
    ensures FirstLine(line + ("\n" + rest)) == line && AfterLine(line + ("\n" + rest)) == rest
  {
    var s := line + ("\n" + rest);
    if line == "" {
      assert s == "\n" + rest;
    } else {
      assert s[1..] == line[1..] + ("\n" + rest);
      LineThenRest(line[1..], rest);
    }
  }

  /** A text that already holds a newline decides its first line, whatever follows. */
  lemma {:induction false} FirstLineAppend(s: string, t: string)
    requires '\n' in s
    ensures FirstLine(s + t) == FirstLine(s) && AfterLine(s + t) == AfterLine(s) + t
  {
    if s[0] == '\n' {
      assert (s + t)[1..] == s[1..] + t;
    } else {
      assert (s + t)[1..] == s[1..] + t;
      FirstLineAppend(s[1..], t);
    }
  }
}
