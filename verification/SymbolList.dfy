/** The linked list of symbols. */
module SymbolList {
  import opened CText
  import opened SymbolOrder

  /** `t_nm`; `add` is the number that the address pointer leads to. */
  class NmNode {
    var is64: bool
    var typ: char
    var add: nat
    var name: CString
    var next: NmNode?

    constructor (s: Symbol)
      ensures Payload() == s && next == null
    {
      is64, typ, add, name := s.is64, s.typ, s.add, s.name;
      next := null;
    }

    /** The data of a node, all but its link. */
    function Payload(): Symbol
      reads this
    {
      Symbol(is64, typ, add, name)
    }
  }

  /** The nodes of `spine`, all different, each chained to the next. */
  ghost predicate Chain(spine: seq<NmNode>)
    reads spine`next
  {
    && (forall i {:trigger spine[i].next} :: 0 <= i < |spine| - 1 ==> spine[i].next == spine[i + 1])
    && (spine != [] ==> spine[|spine| - 1].next == null)
    && (forall i, j :: 0 <= i < j < |spine| ==> spine[i] != spine[j])
  }

  ghost function Payloads(spine: seq<NmNode>): (r: seq<Symbol>)
    reads spine
    ensures |r| == |spine| && forall i :: 0 <= i < |spine| ==> r[i] == spine[i].Payload()
  {
    seq(|spine|, i requires 0 <= i < |spine| reads spine => spine[i].Payload())
  }

  /** `list` is the head of the chain `spine`. */
  ghost predicate IsList(list: NmNode?, spine: seq<NmNode>)
    reads spine`next
  {
    Chain(spine) && (list == null <==> spine == []) && (list != null ==> list == spine[0])
  }

  /** `add_list`: a new node is linked behind the last one; nothing else changes. */
  method AddList(list: NmNode?, add: NmNode?, ghost spine: seq<NmNode>) returns (head: NmNode?)
    requires IsList(list, spine) && (add != null ==> add !in spine && add.next == null)
    modifies spine`next
    ensures IsList(head, if add == null then spine else spine + [add])
    ensures Payloads(spine) == old(Payloads(spine))
  {
    if add == null {
      return list;
    }
    if list == null {
      return add;
    }
    var cp := list;
    ghost var k := 0;
    while cp.next != null
      invariant k < |spine| && cp == spine[k]
      decreases |spine| - k
    {
      assert spine[k].next == spine[k + 1];
      cp := cp.next;
      k := k + 1;
    }
    cp.next := add;
    assert Payloads(spine) == old(Payloads(spine));
    return list;
  }

  lemma ListedNext(table: seq<Symbol>, i: nat, s: Symbol)
    requires i < |table| && s == table[i]
    ensures table[..i + 1] == table[..i] + [s]
  {
  }

  /** A new node behind the others. */
  method Append(list: NmNode?, s: Symbol, ghost spine: seq<NmNode>) returns (head: NmNode?, ghost longer: seq<NmNode>)
    requires IsList(list, spine)
    modifies spine`next
    ensures IsList(head, longer) && Payloads(longer) == old(Payloads(spine)) + [s]
    ensures |longer| == |spine| + 1 && longer[..|spine|] == spine && fresh(longer[|spine|])
  {
    ghost var before := Payloads(spine);
    var add := new NmNode(s);
    head := AddList(list, add, spine);
    longer := spine + [add];
    assert Payloads(longer) == before + [s];
  }

  /** The list of `table`, one node after the other. */
  method LinkAll(table: seq<Symbol>) returns (list: NmNode?, ghost spine: seq<NmNode>)
    ensures IsList(list, spine) && forall k :: 0 <= k < |spine| ==> fresh(spine[k])
    ensures Payloads(spine) == table
  {
    list, spine := null, [];
    var i := 0;
    while i < |table|
      invariant i <= |table| && IsList(list, spine) && forall k :: 0 <= k < |spine| ==> fresh(spine[k])
      invariant Payloads(spine) == table[..i]
    {
      ListedNext(table, i, table[i]);
      list, spine := Append(list, table[i], spine);
      i := i + 1;
    }
    assert table[..i] == table;
  }
}
