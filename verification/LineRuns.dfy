/** Runs of `get_next_line` calls over any number of descriptors, as a transition system. */
module LineRuns {
  import opened Lines

  /** What one node of the static list holds. */
  datatype Entry = Entry(fd: int, stock: string)

  /** The static list, and for every open descriptor what has not been read from it yet. */
  datatype State = State(list: seq<Entry>, rest: map<int, string>)

  datatype Result = Error | End | Line(text: string)

  /** The place of `fd` in the list, or the length of the list. */
  function Place(list: seq<Entry>, fd: int): (k: nat)
    ensures k <= |list|
    ensures k < |list| ==> list[k].fd == fd
    ensures forall i :: 0 <= i < k ==> list[i].fd != fd
  {
    if list == [] || list[0].fd == fd then 0 else 1 + Place(list[1..], fd)
  }

  function StockOf(list: seq<Entry>, fd: int): string
  {
    var k := Place(list, fd);
    if k < |list| then list[k].stock else ""
  }

  /** Everything of `fd` that has not been delivered and can still be. */
  function Content(s: State, fd: int): string
    requires fd in s.rest
  {
    StockOf(s.list, fd) + s.rest[fd]
  }

  predicate WellFormed(s: State)
  {
    && (forall i, j :: 0 <= i < j < |s.list| ==> s.list[i].fd != s.list[j].fd)
    && (forall i :: 0 <= i < |s.list| ==> s.list[i].fd in s.rest)
  }

  /** The list in which `fd` has been looked up: a node is appended for a descriptor not met before. */
  function WithNode(list: seq<Entry>, fd: int): seq<Entry>
  {
    if Place(list, fd) < |list| then list else list + [Entry(fd, "")]
  }

  /** One call. How much was read ahead is left open; the list starts at the node of `fd` after an end of file. */
  ghost predicate Call(s: State, fd: int, s': State, r: Result)
  {
    if fd !in s.rest then r == Error && s' == s
    else
      var c, k := Content(s, fd), Place(s.list, fd);
      && s'.rest.Keys == s.rest.Keys && (forall g :: g in s.rest && g != fd ==> s'.rest[g] == s.rest[g])
      && if c == "" then r == End && s'.rest[fd] == "" && s'.list == WithNode(s.list, fd)[k..]
         else
           && r == Line(FirstLine(c))
           && |s'.list| == |WithNode(s.list, fd)| && s'.list == WithNode(s.list, fd)[k := s'.list[k]]
           && s'.list[k].fd == fd && s'.list[k].stock + s'.rest[fd] == AfterLine(c)
  }

  /** The call drops a stock of `g` that holds text: it answers end of file for a node behind the one of `g`. */
  predicate Loses(s: State, fd: int, g: int)
  {
    && fd in s.rest && g in s.rest && Content(s, fd) == ""
    && Place(s.list, g) < Place(s.list, fd) && StockOf(s.list, g) != ""
  }

  lemma {:induction false} PlaceUnique(list: seq<Entry>, fd: int, k: nat)
    requires k < |list| && list[k].fd == fd && forall i :: 0 <= i < k ==> list[i].fd != fd
    ensures Place(list, fd) == k
  {
  }

  lemma CallKeepsWellFormed(s: State, fd: int, s': State, r: Result)
    requires WellFormed(s) && Call(s, fd, s', r)
    ensures WellFormed(s')
  {
  }

  /** Dropping the entries in front of `k` hides theirs and nothing else. */
  lemma StockAfterDrop(list: seq<Entry>, k: nat, g: int)
    requires k <= |list| && forall i, j :: 0 <= i < j < |list| ==> list[i].fd != list[j].fd
    ensures StockOf(list[k..], g) == if Place(list, g) < k then "" else StockOf(list, g)
  {
    var j := Place(list, g);
    var j' := Place(list[k..], g);
    assert j' < |list| - k ==> list[k..][j'] == list[j' + k];
    if k <= j < |list| {
      assert list[k..][j - k] == list[j];
      PlaceUnique(list[k..], g, j - k);
    }
  }

  lemma StockAfterUpdate(list: seq<Entry>, k: nat, e: Entry, g: int)
    requires k < |list| && k == Place(list, e.fd)
    ensures StockOf(list[k := e], g) == if g == e.fd then e.stock else StockOf(list, g)
  {
    var longer, j := list[k := e], Place(list, g);
    if g == e.fd {
      PlaceUnique(longer, g, k);
    } else if j < |list| {
      PlaceUnique(longer, g, j);
    }
  }

  lemma StockWithNode(list: seq<Entry>, fd: int, g: int)
    ensures StockOf(WithNode(list, fd), g) == StockOf(list, g)
    ensures Place(WithNode(list, fd), fd) == Place(list, fd) < |WithNode(list, fd)|
    ensures g != fd && Place(list, g) < |list| ==> Place(WithNode(list, fd), g) == Place(list, g)
    ensures g != fd && Place(list, g) == |list| ==> Place(WithNode(list, fd), g) >= |list|
  {
    if Place(list, fd) == |list| {
      var longer, j := list + [Entry(fd, "")], Place(list, g);
      PlaceUnique(longer, fd, |list|);
      if j < |list| {
        PlaceUnique(longer, g, j);
      } else {
        assert forall i :: 0 <= i < |list| ==> longer[i] == list[i];
      }
    }
  }

  /** What one call does to the content of every descriptor. */
  lemma CallEffect(s: State, fd: int, s': State, r: Result, g: int)
    requires WellFormed(s) && Call(s, fd, s', r) && g in s.rest
    ensures WellFormed(s') && g in s'.rest
    ensures Loses(s, fd, g) ==> Content(s, g) == StockOf(s.list, g) + Content(s', g)
    ensures !Loses(s, fd, g) ==> Content(s', g) == if fd == g then AfterLine(Content(s, g)) else Content(s, g)
    ensures fd == g ==> r == if Content(s, g) == "" then End else Line(FirstLine(Content(s, g)))
  {
    CallKeepsWellFormed(s, fd, s', r);
    if fd in s.rest {
      if Content(s, fd) == "" {
        EndEffect(s, fd, s', r, g, Place(s.list, fd));
      } else {
        LineEffect(s, fd, s', r, g, Place(s.list, fd));
      }
    }
  }

  lemma EndEffect(s: State, fd: int, s': State, r: Result, g: int, k: nat)
    requires WellFormed(s) && g in s.rest && fd in s.rest && Content(s, fd) == "" && k == Place(s.list, fd)
    requires s'.rest.Keys == s.rest.Keys && (g != fd ==> s'.rest[g] == s.rest[g])
    requires s'.rest[fd] == "" && k <= |WithNode(s.list, fd)| && s'.list == WithNode(s.list, fd)[k..]
    ensures Loses(s, fd, g) ==> Content(s, g) == StockOf(s.list, g) + Content(s', g)
    ensures !Loses(s, fd, g) ==> Content(s', g) == Content(s, g)
  {
    StockAfterEnd(s.list, fd, g);
    assert Content(s, fd) == StockOf(s.list, fd) + s.rest[fd];
  }

  lemma LineEffect(s: State, fd: int, s': State, r: Result, g: int, k: nat)
    requires g in s.rest && fd in s.rest && Content(s, fd) != "" && k == Place(s.list, fd)
    requires s'.rest.Keys == s.rest.Keys && (g != fd ==> s'.rest[g] == s.rest[g])
    requires k < |s'.list| == |WithNode(s.list, fd)| && s'.list == WithNode(s.list, fd)[k := s'.list[k]]
    requires s'.list[k].fd == fd && s'.list[k].stock + s'.rest[fd] == AfterLine(Content(s, fd))
    ensures Content(s', g) == if g == fd then AfterLine(Content(s, fd)) else Content(s, g)
  {
    StockAfterLine(s.list, fd, s'.list[k], g);
  }

  lemma StockAfterEnd(list: seq<Entry>, fd: int, g: int)
    requires forall i, j :: 0 <= i < j < |list| ==> list[i].fd != list[j].fd
    ensures var k := Place(list, fd);
            k <= |WithNode(list, fd)| && StockOf(WithNode(list, fd)[k..], g) == if Place(list, g) < k then "" else StockOf(list, g)
  {
    StockWithNode(list, fd, g);
    StockAfterDrop(WithNode(list, fd), Place(list, fd), g);
  }

  lemma StockAfterLine(list: seq<Entry>, fd: int, e: Entry, g: int)
    requires e.fd == fd
    ensures var k := Place(list, fd);
            k < |WithNode(list, fd)| && StockOf(WithNode(list, fd)[k := e], g) == if g == fd then e.stock else StockOf(list, g)
  {
    StockWithNode(list, fd, g);
    StockAfterUpdate(WithNode(list, fd), Place(list, fd), e, g);
  }

  /* ---- whole runs ---- */

  ghost predicate Run(states: seq<State>, fds: seq<int>, results: seq<Result>)
  {
    && |states| == |fds| + 1 == |results| + 1
    && forall i {:trigger fds[i]} :: 0 <= i < |fds| ==> Call(states[i], fds[i], states[i + 1], results[i])
  }

  /** The lines that a run has delivered for `g`. */
  function Delivered(fds: seq<int>, results: seq<Result>, g: int): seq<string>
    requires |fds| == |results|
  {
    if fds == [] then []
    else
      var n := |fds| - 1;
      Delivered(fds[..n], results[..n], g) + if fds[n] == g && results[n].Line? then [results[n].text] else []
  }

  /** Some call of the run drops a stock of `g` that holds text. */
  ghost predicate SomeLoss(states: seq<State>, fds: seq<int>, g: int)
    requires |states| == |fds| + 1
  {
    exists i :: 0 <= i < |fds| && Loses(states[i], fds[i], g)
  }

  /** The size of a text written out line by line. */
  function Weight(lines: seq<string>): nat
  {
    if lines == [] then 0 else |lines[0]| + 1 + Weight(lines[1..])
  }

  lemma {:induction false} WeightAppend(a: seq<string>, b: seq<string>)
    ensures Weight(a + b) == Weight(a) + Weight(b)
  {
    if a == [] {
      assert a + b == b;
    } else {
      assert (a + b)[1..] == a[1..] + b;
      WeightAppend(a[1..], b);
    }
  }

  lemma {:induction false} WeightOfJoin(lines: seq<string>)
    ensures Weight(lines) == |JoinLines(lines)|
  {
    if lines != [] {
      WeightOfJoin(lines[1..]);
    }
  }

  lemma WeightOfLines(s: string)
    ensures Weight(SplitLines(s)) == |s| + if Unterminated(s) then 1 else 0
  {
    JoinSplit(s);
    WeightOfJoin(SplitLines(s));
  }

  /** Dropping text from the front of a content makes it lighter. */
  lemma LossIsLighter(lost: string, kept: string)
    requires lost != ""
    ensures Weight(SplitLines(kept)) < Weight(SplitLines(lost + kept))
  {
    WeightOfLines(kept);
    WeightOfLines(lost + kept);
    assert kept != "" ==> (lost + kept)[|lost| + |kept| - 1] == kept[|kept| - 1];
  }

  /** What has been delivered for `g` and what is still to come, as lines. */
  function Account(s: State, delivered: seq<string>, g: int): seq<string>
    requires g in s.rest
  {
    delivered + SplitLines(Content(s, g))
  }

  lemma RunPrefix(states: seq<State>, fds: seq<int>, results: seq<Result>)
    requires Run(states, fds, results) && fds != []
    ensures var n := |fds| - 1;
            Run(states[..n + 1], fds[..n], results[..n]) && Call(states[n], fds[n], states[n + 1], results[n])
  {
    var n := |fds| - 1;
    assert Call(states[n], fds[n], states[n + 1], results[n]);
    forall i | 0 <= i < n
      ensures Call(states[..n + 1][i], fds[..n][i], states[..n + 1][i + 1], results[..n][i])
    {
      assert Call(states[i], fds[i], states[i + 1], results[i]);
    }
  }

  /** One call keeps the account of every descriptor it does not lose from, and lightens the others. */
  lemma AccountStep(s: State, fd: int, s': State, r: Result, before: seq<string>, g: int)
    requires WellFormed(s) && Call(s, fd, s', r) && g in s.rest
    ensures WellFormed(s') && g in s'.rest
    ensures var after := before + if fd == g && r.Line? then [r.text] else [];
            if Loses(s, fd, g) then Weight(Account(s', after, g)) < Weight(Account(s, before, g))
            else Account(s', after, g) == Account(s, before, g)
  {
    CallEffect(s, fd, s', r, g);
    var c, c' := Content(s, g), Content(s', g);
    if Loses(s, fd, g) {
      LineLost(before, StockOf(s.list, g), c', c);
    } else if fd == g && r.Line? {
      LineMoved(before, r.text, c', c);
    } else {
      assert before + [] == before;
    }
  }

  lemma LineLost(before: seq<string>, lost: string, kept: string, all: string)
    requires lost != "" && all == lost + kept
    ensures Weight(before + [] + SplitLines(kept)) < Weight(before + SplitLines(all))
  {
    assert before + [] == before;
    LossIsLighter(lost, kept);
    WeightAppend(before, SplitLines(all));
    WeightAppend(before, SplitLines(kept));
  }

  lemma LineMoved(before: seq<string>, line: string, left: string, all: string)
    requires all != "" && line == FirstLine(all) && left == AfterLine(all)
    ensures before + [line] + SplitLines(left) == before + SplitLines(all)
  {
    assert before + [line] + SplitLines(left) == before + ([line] + SplitLines(left));
  }

  /** What a run leaves of the account `all` of a descriptor: all of it, or less once something was dropped. */
  ghost predicate Kept(s: State, delivered: seq<string>, g: int, loss: bool, all: seq<string>)
    requires g in s.rest
  {
    if loss then Weight(Account(s, delivered, g)) < Weight(all) else Account(s, delivered, g) == all
  }

  lemma KeptStep(s: State, fd: int, s': State, r: Result, before: seq<string>, g: int, loss: bool, loss': bool, after: seq<string>,
                 all: seq<string>)
    requires WellFormed(s) && Call(s, fd, s', r) && g in s.rest && Kept(s, before, g, loss, all)
    requires loss' == (loss || Loses(s, fd, g)) && after == before + if fd == g && r.Line? then [r.text] else []
    ensures WellFormed(s') && g in s'.rest && Kept(s', after, g, loss', all)
  {
    AccountStep(s, fd, s', r, before, g);
  }

  /** Conservation over a run: its account stays the same while nothing of `g` is dropped, and is lighter for ever after. */
  lemma {:induction false} AccountOfRun(states: seq<State>, fds: seq<int>, results: seq<Result>, g: int, all: seq<string>)
    requires Run(states, fds, results) && WellFormed(states[0]) && g in states[0].rest && all == SplitLines(Content(states[0], g))
    ensures var final := states[|fds|];
            && WellFormed(final) && g in final.rest
            && Kept(final, Delivered(fds, results, g), g, SomeLoss(states, fds, g), all)
    decreases |fds|
  {
    if fds == [] {
      assert [] + SplitLines(Content(states[0], g)) == SplitLines(Content(states[0], g));
    } else {
      var n := |fds| - 1;
      RunPrefix(states, fds, results);
      AccountOfRun(states[..n + 1], fds[..n], results[..n], g, all);
      assert states[..n + 1][|fds[..n]|] == states[n];
      LossOfPrefix(states, fds, g);
      KeptStep(states[n], fds[n], states[n + 1], results[n], Delivered(fds[..n], results[..n], g), g,
               SomeLoss(states[..n + 1], fds[..n], g), SomeLoss(states, fds, g), Delivered(fds, results, g), all);
    }
  }

  lemma LossOfPrefix(states: seq<State>, fds: seq<int>, g: int)
    requires |states| == |fds| + 1 && fds != []
    ensures var n := |fds| - 1;
            SomeLoss(states, fds, g) <==> SomeLoss(states[..n + 1], fds[..n], g) || Loses(states[n], fds[n], g)
  {
    var n := |fds| - 1;
    PrefixLoses(states, fds, g, n, states[..n + 1], fds[..n]);
  }

  lemma PrefixLoses(states: seq<State>, fds: seq<int>, g: int, n: nat, states': seq<State>, fds': seq<int>)
    requires |states| == |fds| + 1 == n + 2 && states' == states[..n + 1] && fds' == fds[..n]
    ensures SomeLoss(states, fds, g) <==> SomeLoss(states', fds', g) || Loses(states[n], fds[n], g)
  {
    forall i | 0 <= i < |fds| && Loses(states[i], fds[i], g)
      ensures i == n || SomeLoss(states', fds', g)
    {
      LossElsewhere(states, fds, states', fds', i, g);
    }
    forall i | 0 <= i < |fds'| && Loses(states'[i], fds'[i], g)
      ensures SomeLoss(states, fds, g)
    {
      LossElsewhere(states', fds', states, fds, i, g);
    }
  }

  lemma LossElsewhere(states: seq<State>, fds: seq<int>, states': seq<State>, fds': seq<int>, i: nat, g: int)
    requires i < |fds| && |states| == |fds| + 1 && |states'| == |fds'| + 1 && Loses(states[i], fds[i], g)
    ensures i < |fds'| && states'[i] == states[i] && fds'[i] == fds[i] ==> SomeLoss(states', fds', g)
  {
  }

  /** The state before the first call. */
  function Start(files: map<int, string>): State
  {
    State([], files)
  }

  lemma StartContent(files: map<int, string>, g: int)
    requires g in files
    ensures Content(Start(files), g) == files[g] && WellFormed(Start(files))
  {
    assert "" + files[g] == files[g];
  }

  /** The text that is left follows the text delivered, newlines included; a last line without a newline is delivered
      as if it had one. */
  ghost predicate Accounted(delivered: seq<string>, left: string, file: string)
  {
    JoinLines(delivered) + left == if left == "" && Unterminated(file) then file + "\n" else file
  }

  lemma {:induction false} JoinLinesAppend(lines: seq<string>, line: string)
    ensures JoinLines(lines + [line]) == JoinLines(lines) + (line + "\n")
  {
    if lines == [] {
      assert [] + [line] == [line];
    } else {
      assert (lines + [line])[1..] == lines[1..] + [line];
      JoinLinesAppend(lines[1..], line);
    }
  }

  /** Delivering the first line of what is left. */
  lemma DeliverLine(delivered: seq<string>, left: string, file: string, line: string, left': string)
    requires Accounted(delivered, left, file) && left != "" && line == FirstLine(left) && left' == AfterLine(left)
    ensures Accounted(delivered + [line], left', file)
  {
    JoinLinesAppend(delivered, line);
    CutAtNewline(left);
    var done := JoinLines(delivered);
    assert file[|file| - 1] == left[|left| - 1];
    if '\n' in left {
      assert done + (line + "\n") + left' == done + (line + "\n" + left');
      assert left' == "" ==> left[|left| - 1] == '\n';
    } else {
      assert done + (line + "\n") + "" == done + line + "\n";
    }
  }

  /** The account of one descriptor over a run that drops nothing of it, byte for byte. */
  lemma {:induction false} BytesOfRun(files: map<int, string>, states: seq<State>, fds: seq<int>, results: seq<Result>, g: int)
    requires Run(states, fds, results) && states[0] == Start(files) && g in files && !SomeLoss(states, fds, g)
    ensures var final := states[|fds|];
            WellFormed(final) && g in final.rest && Accounted(Delivered(fds, results, g), Content(final, g), files[g])
    decreases |fds|
  {
    if fds == [] {
      StartContent(files, g);
      assert "" + files[g] == files[g];
    } else {
      var n := |fds| - 1;
      RunPrefix(states, fds, results);
      LossOfPrefix(states, fds, g);
      BytesOfRun(files, states[..n + 1], fds[..n], results[..n], g);
      assert states[..n + 1][|fds[..n]|] == states[n];
      BytesOfCall(states[n], fds[n], states[n + 1], results[n], Delivered(fds[..n], results[..n], g), files[g], g);
    }
  }

  lemma BytesOfCall(s: State, fd: int, s': State, r: Result, before: seq<string>, file: string, g: int)
    requires WellFormed(s) && Call(s, fd, s', r) && g in s.rest && !Loses(s, fd, g)
    requires Accounted(before, Content(s, g), file)
    ensures WellFormed(s') && g in s'.rest
    ensures Accounted(before + if fd == g && r.Line? then [r.text] else [], Content(s', g), file)
  {
    CallEffect(s, fd, s', r, g);
    if fd == g && r.Line? {
      DeliverLine(before, Content(s, g), file, r.text, Content(s', g));
    } else {
      assert before + [] == before;
    }
  }

  /** What accounts for every byte accounts for every line. */
  lemma AccountedWeight(delivered: seq<string>, left: string, file: string)
    ensures Accounted(delivered, left, file) ==> Weight(delivered + SplitLines(left)) == Weight(SplitLines(file))
  {
    WeightAppend(delivered, SplitLines(left));
    WeightOfJoin(delivered);
    WeightOfLines(left);
    WeightOfLines(file);
    assert Accounted(delivered, left, file) && left != "" ==> file[|file| - 1] == left[|left| - 1];
  }

  /** In every interleaving and under every way of reading ahead, the lines delivered for `g` with their newlines,
      then its stock, then its unread rest are its file byte for byte, in every state a run comes to, exactly when no
      call of the run dropped a stock of `g` that held text. */
  lemma Conservation(files: map<int, string>, states: seq<State>, fds: seq<int>, results: seq<Result>, g: int)
    requires Run(states, fds, results) && states[0] == Start(files) && g in files
    ensures var final := states[|fds|];
            g in final.rest && (Accounted(Delivered(fds, results, g), Content(final, g), files[g]) <==> !SomeLoss(states, fds, g))
  {
    StartContent(files, g);
    AccountOfRun(states, fds, results, g, SplitLines(files[g]));
    AccountedWeight(Delivered(fds, results, g), Content(states[|fds|], g), files[g]);
    if !SomeLoss(states, fds, g) {
      BytesOfRun(files, states, fds, results, g);
    }
  }

  /** The same for lines: what was delivered and the lines of what is left are the lines of the file. */
  lemma LinesConserved(files: map<int, string>, states: seq<State>, fds: seq<int>, results: seq<Result>, g: int)
    requires Run(states, fds, results) && states[0] == Start(files) && g in files
    ensures g in states[|fds|].rest
    ensures Delivered(fds, results, g) + SplitLines(Content(states[|fds|], g)) == SplitLines(files[g])
       <==> !SomeLoss(states, fds, g)
  {
    StartContent(files, g);
    AccountOfRun(states, fds, results, g, SplitLines(files[g]));
  }

  /** Every state of a run keeps the fds of the list distinct and the descriptors open. */
  lemma {:induction false} RunWellFormed(states: seq<State>, fds: seq<int>, results: seq<Result>, i: nat)
    requires Run(states, fds, results) && WellFormed(states[0]) && i <= |fds|
    ensures WellFormed(states[i]) && states[i].rest.Keys == states[0].rest.Keys
  {
    if i > 0 {
      RunWellFormed(states, fds, results, i - 1);
      assert Call(states[i - 1], fds[i - 1], states[i - 1 + 1], results[i - 1]);
      CallKeepsWellFormed(states[i - 1], fds[i - 1], states[i], results[i - 1]);
    }
  }

  lemma EndMeansEmpty(states: seq<State>, fds: seq<int>, results: seq<Result>, g: int)
    requires Run(states, fds, results) && WellFormed(states[0]) && g in states[0].rest
    requires fds != [] && fds[|fds| - 1] == g && results[|fds| - 1] == End
    ensures g in states[|fds|].rest && Content(states[|fds|], g) == ""
  {
    var n := |fds| - 1;
    RunWellFormed(states, fds, results, n);
    assert Call(states[n], fds[n], states[n + 1], results[n]);
    CallEffect(states[n], g, states[n + 1], End, g);
  }

  /** A descriptor read to its end has delivered exactly the lines of its file, however the file was cut into reads
      and whatever was read from other descriptors in between, unless a stock of it was dropped. */
  lemma ReadToEnd(files: map<int, string>, states: seq<State>, fds: seq<int>, results: seq<Result>, g: int)
    requires Run(states, fds, results) && states[0] == Start(files) && g in files
    requires fds != [] && fds[|fds| - 1] == g && results[|fds| - 1] == End
    ensures Delivered(fds, results, g) == SplitLines(files[g]) <==> !SomeLoss(states, fds, g)
  {
    StartContent(files, g);
    LinesConserved(files, states, fds, results, g);
    EndMeansEmpty(states, fds, results, g);
    var d := Delivered(fds, results, g);
    assert d + [] == d;
  }

  /** A run in which end of file is answered for the head of the list alone loses nothing. */
  lemma HeadEndsAreSafe(states: seq<State>, fds: seq<int>, results: seq<Result>, g: int)
    requires Run(states, fds, results)
    requires forall i {:trigger fds[i]} :: 0 <= i < |fds| && results[i] == End ==> Place(states[i].list, fds[i]) == 0
    ensures !SomeLoss(states, fds, g)
  {
    forall i | 0 <= i < |fds|
      ensures !Loses(states[i], fds[i], g)
    {
      assert Call(states[i], fds[i], states[i + 1], results[i]);
    }
  }

  /** Two lines are read ahead from 3 and one of them is delivered. */
  lemma ReadAhead(s0: State, s1: State)
    requires s0 == Start(map[3 := "a\nb\n", 4 := ""]) && s1 == State([Entry(3, "b\n")], map[3 := "", 4 := ""])
    ensures Call(s0, 3, s1, Line("a"))
  {
    var c := "a\n" + "b\n";
    FirstLineAppend("a\n", "b\n");
    assert "a\n"[1..] == "\n" && "\n"[1..] == "" && "" + "b\n" == "b\n";
    assert Content(s0, 3) == c;
    assert WithNode([], 3) == [Entry(3, "")];
  }

  /** The end of file on 4 drops the line kept for 3. */
  lemma EndBehind(s1: State, s2: State)
    requires s1 == State([Entry(3, "b\n")], map[3 := "", 4 := ""]) && s2 == State([Entry(4, "")], s1.rest)
    ensures Call(s1, 4, s2, End) && Loses(s1, 4, 3) && Content(s2, 3) == ""
  {
    assert Place(s1.list, 4) == 1;
    assert WithNode(s1.list, 4) == [Entry(3, "b\n"), Entry(4, "")];
    assert WithNode(s1.list, 4)[1..] == s2.list;
  }

  /** Such a run exists: with two open files, a line that was read ahead is never delivered. */
  lemma StockCanBeDropped(files: map<int, string>) returns (states: seq<State>, fds: seq<int>, results: seq<Result>)
    requires files == map[3 := "a\nb\n", 4 := ""]
    ensures |states| == 3 && |fds| == |results| == 2 && states[0] == Start(files)
    ensures Run(states, fds, results) && SomeLoss(states, fds, 3)
    ensures 3 in states[2].rest && Content(states[2], 3) == ""
  {
    var s0, s1 := Start(files), State([Entry(3, "b\n")], map[3 := "", 4 := ""]);
    var s2 := State([Entry(4, "")], s1.rest);
    states, fds, results := [s0, s1, s2], [3, 4], [Line("a"), End];
    ReadAhead(s0, s1);
    EndBehind(s1, s2);
    assert Loses(states[1], fds[1], 3);
  }
}
