/** The two splitters of the library: `ft_strsplit` on one separator, `ft_split` on a set of them. */
module Splitters {
  import opened CText

  /** The length of the word at the front of `s`. */
  function WordLength(s: string, seps: string): (n: nat)
    ensures n <= |s|
  {
    if s == "" || s[0] in seps then 0 else 1 + WordLength(s[1..], seps)
  }

  /** The words of `s`: what stands between separators. */
  function Words(s: string, seps: string): seq<string>
    decreases |s|
  {
    if s == "" then []
    else if s[0] in seps then Words(s[1..], seps)
    else [s[..WordLength(s, seps)]] + Words(s[WordLength(s, seps)..], seps)
  }

  /* ---- what the words are ---- */

  predicate IsWord(w: string, seps: string)
  {
    w != "" && forall k :: 0 <= k < |w| ==> w[k] !in seps
  }

  lemma {:induction false} WordAtFront(s: string, seps: string)
    ensures var n := WordLength(s, seps);
            (forall k :: 0 <= k < n ==> s[k] !in seps) && (n < |s| ==> s[n] in seps)
  {
    if s != "" && s[0] !in seps {
      WordAtFront(s[1..], seps);
    }
  }

  /** Every word is non-empty and free of separators. */
  lemma {:induction false} WordsAreWords(s: string, seps: string)
    ensures forall i :: 0 <= i < |Words(s, seps)| ==> IsWord(Words(s, seps)[i], seps)
    decreases |s|
  {
    if s != "" {
      if s[0] in seps {
        WordsAreWords(s[1..], seps);
      } else {
        WordAtFront(s, seps);
        WordsAreWords(s[WordLength(s, seps)..], seps);
      }
    }
  }

  /** `s` without its separators. */
  function Strip(s: string, seps: string): string
  {
    if s == "" then "" else if s[0] in seps then Strip(s[1..], seps) else [s[0]] + Strip(s[1..], seps)
  }

  function Concat(words: seq<string>): string
  {
    if words == [] then "" else words[0] + Concat(words[1..])
  }

  lemma {:induction false} StripWord(w: string, rest: string, seps: string)
    requires forall k :: 0 <= k < |w| ==> w[k] !in seps
    ensures Strip(w + rest, seps) == w + Strip(rest, seps)
  {
    if w == "" {
      assert w + rest == rest;
    } else {
      assert (w + rest)[1..] == w[1..] + rest;
      StripWord(w[1..], rest, seps);
    }
  }

  /** The words one after the other are the text without its separators: nothing is lost, doubled or moved. */
  lemma {:induction false} ConcatIsStrip(s: string, seps: string)
    ensures Concat(Words(s, seps)) == Strip(s, seps)
    decreases |s|
  {
    if s != "" {
      if s[0] in seps {
        ConcatIsStrip(s[1..], seps);
      } else {
        var n := WordLength(s, seps);
        WordAtFront(s, seps);
        ConcatIsStrip(s[n..], seps);
        assert s == s[..n] + s[n..];
        StripWord(s[..n], s[n..], seps);
      }
    }
  }

  lemma {:induction false} WordThenSeparator(w: string, rest: string, seps: string)
    requires IsWord(w, seps) && (rest != "" ==> rest[0] in seps)
    ensures WordLength(w + rest, seps) == |w| && Words(w + rest, seps) == [w] + Words(rest, seps)
  {
    var s := w + rest;
    WordAtFront(s, seps);
    assert s[..|w|] == w && s[|w|..] == rest;
  }

  lemma SplitAfterWord(v: string, a: string, b: string, seps: string, whole: string, front: string)
    requires IsWord(v, seps) && a != "" && a[0] in seps && Words(a + b, seps) == Words(a, seps) + Words(b, seps)
    requires whole == v + (a + b) && front == v + a
    ensures Words(whole, seps) == Words(front, seps) + Words(b, seps)
  {
    WordThenSeparator(v, a + b, seps);
    WordThenSeparator(v, a, seps);
    OneMoreWord(v, Words(a, seps), Words(b, seps));
  }

  lemma OneMoreWord(v: string, a: seq<string>, b: seq<string>)
    ensures [v] + (a + b) == ([v] + a) + b
  {
  }

  /** A separator keeps the words on its two sides apart. */
  lemma {:induction false} WordsSplit(a: string, b: string, seps: string)
    requires a != "" ==> a[|a| - 1] in seps
    ensures Words(a + b, seps) == Words(a, seps) + Words(b, seps)
    decreases |a|
  {
    if a == "" {
      assert a + b == b;
    } else if a[0] in seps {
      assert (a + b)[1..] == a[1..] + b;
      WordsSplit(a[1..], b, seps);
    } else {
      WordAtFront(a, seps);
      var n := WordLength(a, seps);
      assert a == a[..n] + a[n..] && a + b == a[..n] + (a[n..] + b);
      WordsSplit(a[n..], b, seps);
      SplitAfterWord(a[..n], a[n..], b, seps, a + b, a);
    }
  }

  /** Words are maximal: a run without separators, bounded by separators or the ends of the text, is one word, and
      the words around it are those of the texts around it. */
  lemma MaximalRun(a: string, w: string, b: string, seps: string)
    requires IsWord(w, seps) && (a != "" ==> a[|a| - 1] in seps) && (b != "" ==> b[0] in seps)
    ensures Words(a + (w + b), seps) == Words(a, seps) + ([w] + Words(b, seps))
  {
    WordsSplit(a, w + b, seps);
    WordThenSeparator(w, b, seps);
  }

  /** Words joined by a separator. */
  function Join(words: seq<string>, c: char): string
  {
    if words == [] then "" else if |words| == 1 then words[0] else words[0] + [c] + Join(words[1..], c)
  }

  /** Splitting undoes joining. */
  lemma {:induction false} WordsOfJoin(words: seq<string>, c: char, seps: string)
    requires c in seps && forall i :: 0 <= i < |words| ==> IsWord(words[i], seps)
    ensures Words(Join(words, c), seps) == words
  {
    if |words| == 1 {
      assert words[0] + "" == words[0] && words == [words[0]];
      WordThenSeparator(words[0], "", seps);
    } else if words != [] {
      var rest := [c] + Join(words[1..], c);
      assert Join(words, c) == words[0] + rest;
      WordThenSeparator(words[0], rest, seps);
      assert rest[1..] == Join(words[1..], c);
      WordsOfJoin(words[1..], c, seps);
    }
  }

  /* ---- ft_strsplit ---- */

  /** A cell of the array of words: unset, the address of a word, or the null pointer at the end. */
  datatype Cell = Unset | Word(text: string) | Null

  /** The array both splitters hand out. */
  function Cells(words: seq<string>): (r: seq<Cell>)
    ensures |r| == |words| + 1
  {
    seq(|words|, i requires 0 <= i < |words| => Word(words[i])) + [Null]
  }

  /** `ft_nbwords`: the length of the word at `at`. */
  method FtNbwords(s: string, at: nat, c: char) returns (len: nat)
    requires at <= |s|
    ensures len == WordLength(s[at..], [c])
  {
    len := 0;
    while at + len < |s| && s[at + len] != c
      invariant at + len <= |s| && len + WordLength(s[at + len..], [c]) == WordLength(s[at..], [c])
    {
      assert s[at + len..][1..] == s[at + len + 1..];
      len := len + 1;
    }
  }

  /** `ft_fillwords`: a copy of `l` characters. */
  method FtFillwords(l: nat, s: string, at: nat) returns (word: string)
    requires at + l <= |s|
    ensures word == s[at..at + l]
  {
    word := "";
    var j := 0;
    while j < l && at + j < |s|
      invariant j <= l && word == s[at..at + j]
    {
      word := word + [s[at + j]];
      j := j + 1;
    }
  }

  /** Past the separators at `at`. */
  lemma SkipSeparator(s: string, at: nat, seps: string)
    requires at < |s| && s[at] in seps
    ensures Words(s[at..], seps) == Words(s[at + 1..], seps)
  {
    assert s[at..][1..] == s[at + 1..];
  }

  /** Past the word at `at`. */
  lemma SkipWord(s: string, at: nat, seps: string)
    requires at < |s| && s[at] !in seps
    ensures var n := WordLength(s[at..], seps);
            n >= 1 && at + n <= |s| && Words(s[at..], seps) == [s[at..at + n]] + Words(s[at + n..], seps)
  {
    var n := WordLength(s[at..], seps);
    assert s[at..][..n] == s[at..at + n] && s[at..][n..] == s[at + n..];
  }

  lemma WordGoesOn(s: string, at: nat, seps: string)
    requires at < |s| && s[at] !in seps
    ensures WordLength(s[at..], seps) == 1 + WordLength(s[at + 1..], seps)
  {
    assert s[at..][1..] == s[at + 1..];
  }

  method PastSeparators(s: string, at: nat, c: char) returns (p: nat)
    requires at <= |s|
    ensures at <= p <= |s| && Words(s[p..], [c]) == Words(s[at..], [c]) && (p < |s| ==> s[p] != c)
  {
    p := at;
    while p < |s| && s[p] == c
      invariant at <= p <= |s| && Words(s[p..], [c]) == Words(s[at..], [c])
    {
      SkipSeparator(s, p, [c]);
      p := p + 1;
    }
  }

  method PastWord(s: string, at: nat, c: char) returns (p: nat)
    requires at < |s| && s[at] != c
    ensures at < p <= |s| && Words(s[at..], [c]) == [s[at..p]] + Words(s[p..], [c])
  {
    SkipWord(s, at, [c]);
    var n := FtNbwords(s, at, c);
    p := at + n;
  }

  /** `wc`: the counting pass. */
  method Wc(s: string, c: char) returns (count: nat)
    ensures count == |Words(s, [c])|
  {
    count := 0;
    var p := 0;
    assert s[0..] == s;
    while p < |s|
      invariant p <= |s| && count + |Words(s[p..], [c])| == |Words(s, [c])|
      decreases |s| - p
    {
      p := PastSeparators(s, p, c);
      if p < |s| && s[p] != c {
        count := count + 1;
        p := PastWord(s, p, c);
      }
    }
  }

  /** The word at `at`, copied, and where the text goes on behind it. */
  method TakeWord(s: string, at: nat, c: char) returns (word: string, p: nat)
    requires at < |s| && s[at] != c
    ensures at < p <= |s| && Words(s[at..], [c]) == [word] + Words(s[p..], [c])
  {
    p := PastWord(s, at, c);
    word := FtFillwords(p - at, s, at);
  }

  /** The first `i` cells hold the first `i` words. */
  ghost predicate Filled(cells: seq<Cell>, all: seq<string>, i: nat)
  {
    i <= |all| && |cells| == |all| + 1 && forall k :: 0 <= k < i ==> cells[k] == Word(all[k])
  }

  /** The word just found is the next of the whole sequence. */
  lemma FillNext(cells: seq<Cell>, all: seq<string>, i: nat, word: string, rest: seq<string>, next: seq<Cell>)
    requires Filled(cells, all, i) && all[i..] == [word] + rest
    ensures i < |all| && all[i + 1..] == rest && (next == cells[i := Word(word)] ==> Filled(next, all, i + 1))
  {
    assert all[i] == all[i..][0];
    assert all[i + 1..] == all[i..][1..];
  }

  lemma FilledUp(cells: seq<Cell>, all: seq<string>, i: nat, rest: seq<string>)
    requires Filled(cells, all, i) && all[i..] == rest && rest == []
    ensures i < |cells| && cells[i := Null] == Cells(all)
  {
  }

  /** `ft_strsplit`: every cell is written, and they hold the words and the null pointer at the end. */
  method FtStrsplit(s: string, c: char) returns (words: array<Cell>)
    ensures fresh(words) && words[..] == Cells(Words(s, [c]))
  {
    var y := Wc(s, c);
    ghost var all := Words(s, [c]);
    words := new Cell[y + 1](_ => Unset);
    var i: nat, p: nat := 0, 0;
    assert s[0..] == s && all[0..] == all;
    while i < y && p < |s|
      invariant i <= y == |all| && p <= |s| && Words(s[p..], [c]) == all[i..] && Filled(words[..], all, i)
    {
      p := PastSeparators(s, p, c);
      NoWordsLeft(s, p, [c]);
      ghost var cells := words[..];
      var word;
      word, p := TakeWord(s, p, c);
      FillNext(cells, all, i, word, Words(s[p..], [c]), cells[i := Word(word)]);
      words[i] := Word(word);
      assert words[..] == cells[i := Word(word)];
      i := i + 1;
    }
    NoWordsLeft(s, p, [c]);
    FilledUp(words[..], all, i, Words(s[p..], [c]));
    words[i] := Null;
  }

  lemma NoWordsLeft(s: string, p: nat, seps: string)
    requires p <= |s|
    ensures p == |s| ==> Words(s[p..], seps) == []
  {
  }

  /* ---- ft_split ---- */

  method CheckInclude(a: char, charset: string) returns (b: bool)
    ensures b <==> a in charset
  {
    var k := 0;
    while k < |charset|
      invariant k <= |charset| && a !in charset[..k]
    {
      if a == charset[k] {
        return true;
      }
      k := k + 1;
    }
    return false;
  }

  method PastCharset(s: string, at: nat, charset: string) returns (p: nat)
    requires at <= |s|
    ensures at <= p <= |s| && Words(s[p..], charset) == Words(s[at..], charset) && (p < |s| ==> s[p] !in charset)
  {
    p := at;
    while p < |s|
      invariant at <= p <= |s| && Words(s[p..], charset) == Words(s[at..], charset)
    {
      var b := CheckInclude(s[p], charset);
      if !b {
        break;
      }
      SkipSeparator(s, p, charset);
      p := p + 1;
    }
  }

  method LengthOfWord(s: string, at: nat, charset: string) returns (length: nat)
    requires at <= |s|
    ensures length == WordLength(s[at..], charset)
  {
    length := 0;
    while at + length < |s|
      invariant at + length <= |s| && length + WordLength(s[at + length..], charset) == WordLength(s[at..], charset)
    {
      var b := CheckInclude(s[at + length], charset);
      if b {
        break;
      }
      WordGoesOn(s, at + length, charset);
      length := length + 1;
    }
  }

  method PastWordOf(s: string, at: nat, charset: string) returns (p: nat)
    requires at < |s| && s[at] !in charset
    ensures at < p <= |s| && Words(s[at..], charset) == [s[at..p]] + Words(s[p..], charset)
  {
    SkipWord(s, at, charset);
    var length := LengthOfWord(s, at, charset);
    p := at + length;
  }

  method NumberWord(s: string, charset: string) returns (i: nat)
    ensures i == |Words(s, charset)|
  {
    i := 0;
    var p := 0;
    assert s[0..] == s;
    while p < |s|
      invariant p <= |s| && i + |Words(s[p..], charset)| == |Words(s, charset)|
      decreases |s| - p
    {
      p := PastCharset(s, p, charset);
      if p < |s| {
        i := i + 1;
        p := PastWordOf(s, p, charset);
      }
    }
  }

  method TakeWordOf(s: string, at: nat, charset: string) returns (word: string, p: nat)
    requires at < |s| && s[at] !in charset
    ensures at < p <= |s| && Words(s[at..], charset) == [word] + Words(s[p..], charset)
  {
    p := PastWordOf(s, at, charset);
    word := FtFillwords(p - at, s, at);
  }

  /** `ft_split`: the same array as `FtStrsplit` when the set holds one separator. */
  method FtSplit(s: string, charset: string) returns (result: array<Cell>)
    ensures fresh(result) && result[..] == Cells(Words(s, charset))
  {
    var n := NumberWord(s, charset);
    ghost var all := Words(s, charset);
    result := new Cell[n + 1](_ => Unset);
    var i: nat, p: nat := 0, 0;
    assert s[0..] == s && all[0..] == all;
    while p < |s|
      invariant i <= n == |all| && p <= |s| && Words(s[p..], charset) == all[i..] && Filled(result[..], all, i)
      decreases |s| - p
    {
      p := PastCharset(s, p, charset);
      if p == |s| {
        break;
      }
      ghost var cells := result[..];
      var word;
      word, p := TakeWordOf(s, p, charset);
      FillNext(cells, all, i, word, Words(s[p..], charset), cells[i := Word(word)]);
      result[i] := Word(word);
      assert result[..] == cells[i := Word(word)];
      i := i + 1;
    }
    NoWordsLeft(s, p, charset);
    FilledUp(result[..], all, i, Words(s[p..], charset));
    result[i] := Null;
  }
}
