/** `get_next_line` over its static linked list of per-descriptor leftovers. */
module LineReader {
  import opened Lines
  import opened LineRuns

  const BUFF_SIZE := 15

  class Node {
    const fd: int
    var stock: string
    var next: Node?

    constructor (fd: int)
      ensures this.fd == fd && stock == "" && next == null
    {
      this.fd := fd;
      stock := "";
      next := null;
    }
  }

  /** The result of a call as its caller sees it: -1, 0, or 1 with a line. */
  function ResultOf(r: int, line: string): Result
  {
    if r == 1 then Line(line) else if r == 0 then End else Error
  }

  /** The static list, with the open files as what is left to read from each. File contents hold no NUL byte. */
  class Reader {
    var list: Node?
    var files: map<int, string>
    ghost var spine: seq<Node>
    ghost var Repr: set<Node>

    /** The nodes of `spine`, all different, chained from `list` on. */
    ghost predicate Linked()
      reads this, spine
    {
      && (list == null <==> spine == []) && (list != null ==> list == spine[0])
      && (forall i {:trigger spine[i].next} :: 0 <= i < |spine| - 1 ==> spine[i].next == spine[i + 1])
      && (spine != [] ==> spine[|spine| - 1].next == null)
      && (forall i, j :: 0 <= i < j < |spine| ==> spine[i] != spine[j])
      && (forall i :: 0 <= i < |spine| ==> spine[i] in Repr)
    }

    ghost predicate Valid()
      reads this, spine
    {
      Linked() && WellFormed(Abstract())
    }

    ghost function Entries(): (r: seq<Entry>)
      reads this, spine
      ensures |r| == |spine| && forall i :: 0 <= i < |spine| ==> r[i] == Entry(spine[i].fd, spine[i].stock)
    {
      seq(|spine|, i requires 0 <= i < |spine| reads this, spine => Entry(spine[i].fd, spine[i].stock))
    }

    ghost function Abstract(): State
      reads this, spine
    {
      State(Entries(), files)
    }

    constructor (files: map<int, string>)
      ensures Valid() && Abstract() == Start(files)
    {
      list := null;
      this.files := files;
      spine := [];
      Repr := {};
      new;
      assert Entries() == [];
    }

    /** `read(fd, buff, BUFF_SIZE)`: between one byte and a full buffer, as the system pleases; nothing at end of file. */
    method Read(fd: int) returns (buff: string)
      requires fd in files
      modifies `files
      ensures fd in files && files == old(files)[fd := files[fd]]
      ensures buff + files[fd] == old(files[fd]) && |buff| <= BUFF_SIZE
      ensures buff == "" <==> old(files[fd]) == ""
    {
      var left := files[fd];
      if left == "" {
        return "";
      }
      var ret :| 1 <= ret <= BUFF_SIZE && ret <= |left|;
      buff := left[..ret];
      files := files[fd := left[ret..]];
    }

    /** The last node, walking on from `from`, the node at place `k`. */
    method Last(from: Node, ghost k: nat) returns (temp: Node)
      requires Linked() && k < |spine| && from == spine[k]
      ensures temp == spine[|spine| - 1]
    {
      temp := from;
      ghost var i := k;
      while temp.next != null
        invariant k <= i < |spine| && temp == spine[i]
        decreases |spine| - i
      {
        assert spine[i].next == spine[i + 1];
        temp := temp.next;
        i := i + 1;
      }
    }

    /** `add`: a node with an empty stock behind the last one; `k` is where `from` stands. */
    method Link(from: Node?, fd: int, ghost k: nat) returns (head: Node)
      requires Linked()
      requires if from == null then spine == [] else k < |spine| && from == spine[k]
      modifies this`list, this`spine, this`Repr, Repr
      ensures |spine| == |old(spine)| + 1 && spine[..|old(spine)|] == old(spine)
      ensures Linked() && files == old(files) && head == if from == null then spine[0] else from
      ensures var node := spine[|old(spine)|]; node.fd == fd && node.stock == ""
      ensures fresh(Repr - old(Repr))
      ensures forall i :: 0 <= i < |old(spine)| ==> old(spine)[i].stock == old(spine[i].stock)
    {
      var node := new Node(fd);
      if from == null {
        head := node;
        list := node;
      } else {
        head := from;
        var temp := Last(from, k);
        temp.next := node;
      }
      spine := spine + [node];
      Repr := Repr + {node};
    }

    method Add(from: Node?, fd: int, ghost k: nat) returns (head: Node)
      requires Valid() && fd in files && Place(Entries(), fd) == |spine|
      requires if from == null then spine == [] else k < |spine| && from == spine[k]
      modifies this`list, this`spine, this`Repr, Repr
      ensures |spine| == |old(spine)| + 1 && spine[..|old(spine)|] == old(spine) && fresh(Repr - old(Repr))
      ensures Valid() && files == old(files) && head == if from == null then spine[0] else from
      ensures Entries() == WithNode(old(Entries()), fd)
    {
      WellFormedWithNode(Abstract(), fd);
      head := Link(from, fd, k);
      assert forall i :: 0 <= i < |old(spine)| ==> spine[i] == old(spine)[i];
      assert Entries() == old(Entries()) + [Entry(fd, "")];
    }

    /** The walk of `find`: to the node of `fd`, or to the last one. */
    method Walk(fd: int) returns (node: Node, ghost k: nat)
      requires Valid() && list != null
      ensures k < |spine| && node == spine[k]
      ensures if Place(Entries(), fd) < |spine| then k == Place(Entries(), fd) && node.fd == fd
              else k == |spine| - 1 && node.fd != fd
    {
      node := list;
      k := 0;
      while fd != node.fd && node.next != null
        invariant k < |spine| && node == spine[k] && k <= Place(Entries(), fd)
        decreases |spine| - k
      {
        assert spine[k].next == spine[k + 1] && Entries()[k].fd != fd;
        node := node.next;
        k := k + 1;
      }
      assert Entries()[k] == Entry(node.fd, node.stock);
    }

    /** The read loop of `find`: on to a chunk with a newline, or to the end of the file. */
    method Refill(node: Node)
      requires node.fd in files
      modifies this`files, node`stock
      ensures node.fd in files && files == old(files)[node.fd := files[node.fd]]
      ensures node.stock + files[node.fd] == old(node.stock + files[node.fd])
      ensures '\n' in node.stock || files[node.fd] == ""
    {
      while true
        invariant node.fd in files && files == old(files)[node.fd := files[node.fd]]
        invariant node.stock + files[node.fd] == old(node.stock + files[node.fd])
        decreases |files[node.fd]|
      {
        ghost var stock := node.stock;
        var buff := Read(node.fd);
        if buff == "" {
          break;
        }
        node.stock := node.stock + buff;
        assert stock + (buff + files[node.fd]) == stock + buff + files[node.fd];
        if '\n' in buff {
          break;
        }
      }
    }

    /** The first half of `find`: the node of `fd`, appended when there is none. */
    method Lookup(fd: int) returns (node: Node, ghost k: nat)
      requires Valid() && list != null && fd in files
      modifies this`list, this`spine, this`Repr, Repr
      ensures Valid() && files == old(files) && Entries() == WithNode(old(Entries()), fd)
      ensures k == Place(old(Entries()), fd) < |spine| && node == spine[k] && node.fd == fd && node in Repr
      ensures node.stock == old(StockOf(Entries(), fd))
      ensures fresh(Repr - old(Repr))
    {
      StockWithNode(Entries(), fd, fd);
      node, k := Walk(fd);
      if fd != node.fd {
        node := Add(node, fd, k);
        assert spine[k].next == spine[k + 1];
        node := node.next;
        k := k + 1;
      }
      assert Entries()[k] == Entry(node.fd, node.stock);
    }

    /** The second half of `find`: the other entries stay as they are. */
    method RefillNode(node: Node, ghost k: nat)
      requires Linked() && k < |spine| && node == spine[k] && node.fd in files
      modifies this`files, node`stock
      ensures Linked() && node.fd in files && files == old(files)[node.fd := files[node.fd]]
      ensures node.stock + files[node.fd] == old(node.stock + files[node.fd])
      ensures '\n' in node.stock || files[node.fd] == ""
      ensures Entries() == old(Entries())[k := Entry(node.fd, node.stock)]
    {
      Refill(node);
    }

    method Find(fd: int) returns (node: Node, ghost k: nat)
      requires Valid() && list != null && fd in files
      modifies this, Repr
      ensures Refilled(old(Abstract()), fd, node, k) && node in Repr && fresh(Repr - old(Repr))
    {
      StockWithNode(Entries(), fd, fd);
      node, k := Lookup(fd);
      RefillNode(node, k);
    }

    /** The line is cut from the front of the stock; the other entries stay as they are. */
    method TakeLine(node: Node, ghost k: nat) returns (line: string)
      requires Linked() && k < |spine| && node == spine[k]
      modifies node`stock
      ensures Linked() && line == FirstLine(old(node.stock))
      ensures Entries() == old(Entries())[k := Entry(node.fd, AfterLine(old(node.stock)))]
    {
      line, node.stock := CutLine(node.stock);
    }

    /** Leaving the static pointer at `node` lets go of every node in front of it. */
    method DropTo(node: Node, ghost k: nat)
      requires Linked() && k < |spine| && node == spine[k]
      modifies this`list, this`spine
      ensures Linked() && spine == old(spine)[k..] && Entries() == old(Entries())[k..]
    {
      list := node;
      spine := spine[k..];
    }

    /** What the first half of a call from the state `s` leaves: the stock of `fd` refilled at place `k`. */
    ghost predicate Refilled(s: State, fd: int, node: Node, k: nat)
      reads this, spine, node
    {
      && Linked() && k < |spine| && node == spine[k] && node.fd == fd
      && fd in files && fd in s.rest && files == s.rest[fd := files[fd]]
      && ('\n' in node.stock || files[fd] == "") && node.stock + files[fd] == Content(s, fd)
      && k == Place(s.list, fd) < |WithNode(s.list, fd)|
      && Entries() == WithNode(s.list, fd)[k := Entry(fd, node.stock)]
    }

    method AnswerEnd(node: Node, ghost k: nat, ghost s: State)
      requires Refilled(s, node.fd, node, k) && node.stock == ""
      modifies this`list, this`spine
      ensures Linked() && Call(s, node.fd, Abstract(), End)
    {
      DropTo(node, k);
      EndStep(s, node.fd, Abstract());
    }

    method AnswerLine(node: Node, ghost k: nat, ghost s: State) returns (line: string)
      requires Refilled(s, node.fd, node, k) && node.stock != ""
      modifies node`stock
      ensures Linked() && Call(s, node.fd, Abstract(), Line(line))
    {
      ghost var stock := node.stock;
      line := TakeLine(node, k);
      LineStep(s, node.fd, stock, Abstract());
    }

    /** The answer to a call from the state `s`, once the stock is refilled. */
    method Answer(node: Node, ghost k: nat, ghost s: State) returns (r: int, line: string)
      requires Refilled(s, node.fd, node, k)
      modifies this`list, this`spine, node`stock
      ensures Linked() && (r == 0 || r == 1) && Call(s, node.fd, Abstract(), ResultOf(r, line))
    {
      if node.stock == "" {
        r, line := 0, "";
        AnswerEnd(node, k, s);
      } else {
        r := 1;
        line := AnswerLine(node, k, s);
      }
    }

    /** The call for an open descriptor, once the static list has a first node. */
    method NextLine(fd: int) returns (r: int, line: string)
      requires Valid() && list != null && fd in files
      modifies this, Repr
      ensures Linked() && fresh(Repr - old(Repr))
      ensures (r == 0 || r == 1) && Call(old(Abstract()), fd, Abstract(), ResultOf(r, line))
    {
      ghost var s := Abstract();
      var node: Node;
      ghost var k;
      node, k := Find(fd);
      r, line := Answer(node, k, s);
    }

    /** `get_next_line`: one step of the transition system, whichever way the reads were cut. */
    method GetNextLine(fd: int) returns (r: int, line: string)
      requires Valid()
      modifies this, Repr
      ensures Valid() && Call(old(Abstract()), fd, Abstract(), ResultOf(r, line))
      ensures Answers(r, line, fd in old(files), old(if fd in files then Content(Abstract(), fd) else ""))
      ensures fresh(Repr - old(Repr))
    {
      ghost var s := Abstract();
      r, line := -1, "";
      if fd in files {
        Begin(fd);
        r, line := NextLine(fd);
        FirstCall(old(Abstract()), fd, Abstract(), ResultOf(r, line));
        CallKeepsWellFormed(old(Abstract()), fd, Abstract(), ResultOf(r, line));
      }
      CallAnswers(s, fd, Abstract(), r, line);
    }

    /** `list = !list ? add(list, fd) : list`. */
    method Begin(fd: int)
      requires Valid() && fd in files
      modifies this`list, this`spine, this`Repr, Repr
      ensures Valid() && list != null && files == old(files) && fresh(Repr - old(Repr))
      ensures Abstract() == Begun(old(Abstract()), fd)
    {
      if list == null {
        var head := Add(null, fd, 0);
      }
    }
  }

  /** What the number and the line that a call hands out mean, on the undelivered text `text` of an open descriptor. */
  ghost predicate Answers(r: int, line: string, open: bool, text: string)
  {
    && (r == -1 <==> !open) && (open ==> (r == 1 <==> text != "") && (r == 0 <==> text == ""))
    && (r == 1 ==> line == FirstLine(text))
  }

  lemma CallAnswers(s: State, fd: int, s': State, r: int, line: string)
    requires Call(s, fd, s', ResultOf(r, line)) && -1 <= r <= 1
    ensures Answers(r, line, fd in s.rest, if fd in s.rest then Content(s, fd) else "")
  {
  }

  function Begun(s: State, fd: int): State
  {
    if s.list == [] then s.(list := WithNode([], fd)) else s
  }

  /** Starting the list with the node of the first descriptor asked for changes no step. */
  lemma FirstCall(s: State, fd: int, s': State, r: Result)
    requires fd in s.rest && Call(Begun(s, fd), fd, s', r)
    ensures Call(s, fd, s', r)
  {
  }

  lemma EndStep(s: State, fd: int, s': State)
    requires fd in s.rest && Content(s, fd) == "" && s'.rest == s.rest[fd := ""]
    requires Place(s.list, fd) < |WithNode(s.list, fd)|
    requires s'.list == WithNode(s.list, fd)[Place(s.list, fd) := Entry(fd, "")][Place(s.list, fd)..]
    ensures Call(s, fd, s', End)
  {
    var list, k := WithNode(s.list, fd), Place(s.list, fd);
    assert list[k] == Entry(fd, "");
    assert list[k := Entry(fd, "")] == list;
  }

  lemma LineStep(s: State, fd: int, stock: string, s': State)
    requires fd in s.rest && fd in s'.rest && s'.rest == s.rest[fd := s'.rest[fd]]
    requires stock != "" && stock + s'.rest[fd] == Content(s, fd) && ('\n' in stock || s'.rest[fd] == "")
    requires Place(s.list, fd) < |WithNode(s.list, fd)|
    requires s'.list == WithNode(s.list, fd)[Place(s.list, fd) := Entry(fd, stock)][Place(s.list, fd) := Entry(fd, AfterLine(stock))]
    ensures Call(s, fd, s', Line(FirstLine(stock)))
  {
    assert s'.list == WithNode(s.list, fd)[Place(s.list, fd) := Entry(fd, AfterLine(stock))];
    if '\n' in stock {
      FirstLineAppend(stock, s'.rest[fd]);
    } else {
      CutAtNewline(stock);
      assert stock + "" == stock && AfterLine(stock) + "" == AfterLine(stock);
    }
  }

  /** `ft_strcdup`: the text up to `c`, or all of it. */
  method StrCDup(s: string) returns (copy: string)
    ensures copy == FirstLine(s)
  {
    copy := "";
    var i := 0;
    while i < |s| && s[i] != '\n'
      invariant i <= |s| && copy + FirstLine(s[i..]) == FirstLine(s)
    {
      assert s[i..][1..] == s[i + 1..];
      assert copy + ([s[i]] + FirstLine(s[i + 1..])) == copy + [s[i]] + FirstLine(s[i + 1..]);
      copy := copy + [s[i]];
      i := i + 1;
    }
    assert copy + "" == copy;
  }

  /** `ft_strchr(s, '\n') + 1`. */
  method PastNewline(s: string) returns (rest: string)
    requires '\n' in s
    ensures rest == AfterLine(s)
  {
    var i := 0;
    while s[i] != '\n'
      invariant i < |s| && '\n' in s[i..] && AfterLine(s[i..]) == AfterLine(s)
      decreases |s| - i
    {
      assert s[i..][1..] == s[i + 1..];
      i := i + 1;
    }
    rest := s[i + 1..];
  }

  /** The line at the front of a stock, and what is left of the stock. */
  method CutLine(stock: string) returns (line: string, left: string)
    ensures line == FirstLine(stock) && left == AfterLine(stock)
  {
    CutAtNewline(stock);
    if '\n' in stock {
      line := StrCDup(stock);
      left := PastNewline(stock);
    } else {
      line := stock;
      left := "";
    }
  }

  lemma WellFormedWithNode(s: State, fd: int)
    requires WellFormed(s) && fd in s.rest
    ensures WellFormed(State(WithNode(s.list, fd), s.rest))
  {
  }
}
