/** The symbol sort in place on its linked list, and what its result is worth. */
module SymbolSort {
  import opened CText
  import opened SymbolList
  import opened SymbolOrder
  import opened Sequences

  /* ---- names ---- */

  predicate NameLe(x: Symbol, y: Symbol)
  {
    Strcmp(x.name, y.name) <= 0
  }

  predicate NameGe(x: Symbol, y: Symbol)
  {
    Strcmp(x.name, y.name) >= 0
  }

  function Elements(s: seq<Symbol>): (r: set<Symbol>)
    ensures Within(s, r)
  {
    set x | x in s
  }

  lemma NamesGuide(entries: set<Symbol>)
    ensures Guides(NameLe, entries, false) && Transitive(NameLe, entries)
    ensures Guides(NameGe, entries, true) && Transitive(NameGe, entries)
  {
    forall x: Symbol, y: Symbol
      ensures Strcmp(x.name, y.name) == -Strcmp(y.name, x.name)
    {
      StrcmpOrder(x.name, y.name);
    }
    forall x: Symbol, y: Symbol, z: Symbol | NameLe(x, y) && NameLe(y, z)
      ensures NameLe(x, z)
    {
      StrcmpTransitive(x.name, y.name, z.name);
    }
  }

  /** For every list the comparison finds no two names out of order. */
  lemma NamesCompared(s: seq<Symbol>)
    ensures SortedBy(NameLe, Sort(s, false)) && SortedBy(NameGe, Sort(s, true))
  {
    NamesGuide(Elements(s));
    SortSorts(NameLe, Elements(s), s, false);
    SortSorts(NameGe, Elements(s), s, true);
  }

  /** No name precedes, in the order of dictionaries, one that stands in front of it. */
  ghost predicate NamesUpwards(s: seq<Symbol>)
  {
    forall i, j :: 0 <= i < j < |s| ==> !Precedes(s[j].name, s[i].name)
  }

  ghost predicate NamesDownwards(s: seq<Symbol>)
  {
    forall i, j :: 0 <= i < j < |s| ==> !Precedes(s[i].name, s[j].name)
  }

  lemma ComparedUpwards(s: seq<Symbol>)
    ensures SortedBy(NameLe, s) <==> NamesUpwards(s)
    ensures SortedBy(NameGe, s) <==> NamesDownwards(s)
  {
    forall i, j | 0 <= i < j < |s|
      ensures NameLe(s[i], s[j]) <==> !Precedes(s[j].name, s[i].name)
      ensures NameGe(s[i], s[j]) <==> !Precedes(s[i].name, s[j].name)
    {
      StrcmpOrder(s[i].name, s[j].name);
      StrcmpPrecedes(s[j].name, s[i].name);
      StrcmpPrecedes(s[i].name, s[j].name);
    }
  }

  /** For every list the names come out in the order of dictionaries, with 'r' against it, whatever the addresses are. */
  lemma NamesSorted(s: seq<Symbol>)
    ensures NamesUpwards(Sort(s, false)) && NamesDownwards(Sort(s, true))
  {
    NamesCompared(s);
    ComparedUpwards(Sort(s, false));
    ComparedUpwards(Sort(s, true));
  }

  function Names(s: seq<Symbol>): (r: seq<CString>)
    ensures |r| == |s| && forall i :: 0 <= i < |s| ==> r[i] == s[i].name
  {
    seq(|s|, i requires 0 <= i < |s| => s[i].name)
  }

  predicate NamesInOrder(s: seq<CString>)
  {
    forall i, j :: 0 <= i < j < |s| ==> Strcmp(s[i], s[j]) <= 0
  }

  lemma SameTail<T>(x: T, a: seq<T>, b: seq<T>)
    requires multiset([x] + a) == multiset([x] + b)
    ensures multiset(a) == multiset(b)
  {
    assert multiset([x] + a) - multiset{x} == multiset(a);
    assert multiset([x] + b) - multiset{x} == multiset(b);
  }

  /** A sorted arrangement of names is unique. */
  lemma {:induction false} SortedNamesUnique(a: seq<CString>, b: seq<CString>)
    requires NamesInOrder(a) && NamesInOrder(b) && multiset(a) == multiset(b)
    ensures a == b
    decreases |a|
  {
    assert |a| == |multiset(a)| == |multiset(b)| == |b|;
    if a != [] {
      FirstNamesAgree(a, b);
      assert a == [a[0]] + a[1..] && b == [a[0]] + b[1..];
      SameTail(a[0], a[1..], b[1..]);
      SortedNamesUnique(a[1..], b[1..]);
    }
  }

  lemma FirstNamesAgree(a: seq<CString>, b: seq<CString>)
    requires NamesInOrder(a) && NamesInOrder(b) && multiset(a) == multiset(b) && a != [] && b != []
    ensures a[0] == b[0]
  {
    assert a[0] in multiset(b) && b[0] in multiset(a);
    var i := PlaceOf(a[0], b);
    var j := PlaceOf(b[0], a);
    StrcmpOrder(a[0], b[0]);
  }

  lemma RemoveAt<T>(s: seq<T>, j: nat)
    requires j < |s|
    ensures multiset(s) == multiset{s[j]} + multiset(Without(s, j))
  {
    assert s == s[..j] + [s[j]] + s[j + 1..];
  }

  lemma RemoveSame<T>(a: multiset<T>, b: multiset<T>, x: T)
    requires multiset{x} + a == multiset{x} + b
    ensures a == b
  {
    assert (multiset{x} + a) - multiset{x} == a && (multiset{x} + b) - multiset{x} == b;
  }

  lemma NamesRemoveAt(s: seq<Symbol>, j: nat)
    requires j < |s|
    ensures multiset(Names(s)) == multiset{s[j].name} + multiset(Names(Without(s, j)))
  {
    RemoveAt(Names(s), j);
    assert Without(Names(s), j) == Names(Without(s, j));
  }

  function Without<T>(s: seq<T>, j: nat): (r: seq<T>)
    requires j < |s|
    ensures |r| == |s| - 1
  {
    s[..j] + s[j + 1..]
  }

  lemma WithoutSame<T>(s: seq<T>, t: seq<T>, i: nat, j: nat)
    requires multiset(s) == multiset(t) && i < |s| && j < |t| && s[i] == t[j]
    ensures multiset(Without(s, i)) == multiset(Without(t, j))
  {
    RemoveAt(s, i);
    RemoveAt(t, j);
    RemoveSame(multiset(Without(s, i)), multiset(Without(t, j)), s[i]);
  }

  lemma PlaceOf<T>(x: T, t: seq<T>) returns (j: nat)
    requires x in multiset(t)
    ensures j < |t| && t[j] == x
  {
    j :| 0 <= j < |t| && t[j] == x;
  }

  lemma {:induction false} NamesOfPermutation(s: seq<Symbol>, t: seq<Symbol>)
    requires multiset(s) == multiset(t)
    ensures multiset(Names(s)) == multiset(Names(t))
    decreases |s|
  {
    assert |s| == |multiset(s)| == |multiset(t)| == |t|;
    if s != [] {
      var j := PlaceOf(s[0], t);
      WithoutSame(s, t, 0, j);
      NamesOfPermutation(Without(s, 0), Without(t, j));
      NamesRemoveAt(s, 0);
      NamesRemoveAt(t, j);
    }
  }

  lemma BackwardsInOrder(names: seq<CString>)
    requires forall i, j :: 0 <= i < j < |names| ==> Strcmp(names[i], names[j]) >= 0
    ensures NamesInOrder(Backwards(names))
  {
    var n := |names|;
    forall i, j | 0 <= i < j < n
      ensures Strcmp(Backwards(names)[i], Backwards(names)[j]) <= 0
    {
      StrcmpOrder(names[n - 1 - j], names[n - 1 - i]);
    }
  }

  lemma NamesConserved(s: seq<Symbol>)
    ensures multiset(Names(Sort(s, false))) == multiset(Names(Sort(s, true)))
  {
    SortConserves(s, false);
    SortConserves(s, true);
    NamesOfPermutation(Sort(s, false), Sort(s, true));
  }

  lemma NamesUp(s: seq<Symbol>)
    ensures NamesInOrder(Names(Sort(s, false)))
  {
    NamesCompared(s);
    var up := Sort(s, false);
    assert forall i, j :: 0 <= i < j < |up| ==> NameLe(up[i], up[j]);
  }

  lemma NamesDown(s: seq<Symbol>)
    ensures NamesInOrder(Backwards(Names(Sort(s, true))))
  {
    NamesCompared(s);
    var down := Sort(s, true);
    assert forall i, j :: 0 <= i < j < |down| ==> NameGe(down[i], down[j]);
    BackwardsInOrder(Names(down));
  }

  /** The names under 'r' are exactly the names without it, backwards, for every list in every order. */
  lemma ReverseMirrors(s: seq<Symbol>)
    ensures Names(Sort(s, true)) == Backwards(Names(Sort(s, false)))
  {
    var up, down := Names(Sort(s, false)), Names(Sort(s, true));
    NamesUp(s);
    NamesDown(s);
    NamesConserved(s);
    BackwardsConserves(down);
    SortedNamesUnique(up, Backwards(down));
    BackwardsTwice(down);
  }

  /* ---- addresses ---- */

  /** Two addresses whose truncated difference has the sign of the difference. */
  predicate Comparable(a: nat, b: nat)
  {
    a == b || 0 < Abs(a - b) % 0x1_0000_0000 < 0x8000_0000
  }

  /** By name, and by address within one name. */
  predicate FullLe(x: Symbol, y: Symbol)
  {
    var c := Strcmp(x.name, y.name);
    c < 0 || (c == 0 && Address(x) <= Address(y))
  }

  predicate FullGe(x: Symbol, y: Symbol)
  {
    FullLe(y, x)
  }

  /** By name, and by address within the name `name` alone. */
  predicate NamedLe(name: CString, x: Symbol, y: Symbol)
  {
    var c := Strcmp(x.name, y.name);
    c < 0 || (c == 0 && (x.name == name ==> Address(x) <= Address(y)))
  }

  lemma WrapTwice(d: int)
    requires -0x1_0000_0000_0000_0000 < d < 0x1_0000_0000_0000_0000
    ensures ToSigned(ToUnsigned(d, 0x1_0000_0000_0000_0000), 0x1_0000_0000) == ToSigned(d, 0x1_0000_0000)
    ensures ToSigned(ToUnsigned(d, 0x1_0000_0000), 0x1_0000_0000) == ToSigned(d, 0x1_0000_0000)
  {
  }

  lemma CompareAddValue(x: Symbol, y: Symbol)
    requires x.is64 == y.is64
    ensures CompareAdd(x, y) == ToSigned(Address(x) - Address(y), 0x1_0000_0000)
  {
    WrapTwice(Address(x) - Address(y));
  }

  /** The truncated difference is a sound comparison of two addresses exactly when they are comparable: in both orders
      for the test of `compare_exchange`, and in both orders for that of `compare_exchange_reverse`. */
  lemma CompareAddSound(x: Symbol, y: Symbol)
    requires x.is64 == y.is64
    ensures (CompareAdd(x, y) > 0 <==> Address(x) > Address(y)) && (CompareAdd(y, x) > 0 <==> Address(y) > Address(x))
       <==> Comparable(Address(x), Address(y))
    ensures (CompareAdd(x, y) < 0 <==> Address(x) < Address(y)) && (CompareAdd(y, x) < 0 <==> Address(y) < Address(x))
       <==> Comparable(Address(x), Address(y))
    ensures Comparable(Address(x), Address(y)) ==> CompareAdd(x, y) == -CompareAdd(y, x)
  {
    CompareAddValue(x, y);
    CompareAddValue(y, x);
    TruncatedDifference(Address(x), Address(y));
    TruncatedDifference(Address(y), Address(x));
  }

  lemma TruncatedDifference(a: nat, b: nat)
    ensures var m := Abs(a - b) % 0x1_0000_0000;
            ToSigned(a - b, 0x1_0000_0000) == if a >= b then (if m < 0x8000_0000 then m else m - 0x1_0000_0000)
                                              else (if m <= 0x8000_0000 then -m else 0x1_0000_0000 - m)
  {
  }

  /** The entries called `name` have one width of address, and addresses comparable among themselves. */
  ghost predicate ComparableUnder(name: CString, entries: set<Symbol>)
  {
    forall x, y :: x in entries && y in entries && x.name == name && y.name == name ==>
      x.is64 == y.is64 && Comparable(Address(x), Address(y))
  }

  lemma NamedGuides(name: CString, entries: set<Symbol>)
    requires ComparableUnder(name, entries)
    ensures Guides((x, y) => NamedLe(name, x, y), entries, false) && Guides((x, y) => NamedLe(name, y, x), entries, true)
  {
    forall x, y | x in entries && y in entries
      ensures if Swaps(x, y, false) then NamedLe(name, y, x) else NamedLe(name, x, y)
      ensures if Swaps(x, y, true) then NamedLe(name, x, y) else NamedLe(name, y, x)
    {
      StrcmpOrder(x.name, y.name);
      if x.name == y.name == name {
        CompareAddSound(x, y);
      }
    }
  }

  lemma NamedLeTransitive(name: CString, x: Symbol, y: Symbol, z: Symbol)
    requires NamedLe(name, x, y) && NamedLe(name, y, z)
    ensures NamedLe(name, x, z)
  {
    StrcmpTransitive(x.name, y.name, z.name);
    StrcmpOrder(x.name, y.name);
    StrcmpOrder(y.name, z.name);
    StrcmpOrder(x.name, z.name);
    if Strcmp(x.name, z.name) == 0 {
      StrcmpTransitive(z.name, x.name, y.name);
      StrcmpTransitive(y.name, z.name, x.name);
      StrcmpOrder(z.name, y.name);
    }
  }

  lemma NamedTransitive(name: CString, entries: set<Symbol>)
    ensures Transitive((x, y) => NamedLe(name, x, y), entries) && Transitive((x, y) => NamedLe(name, y, x), entries)
  {
    forall x: Symbol, y: Symbol, z: Symbol | NamedLe(name, x, y) && NamedLe(name, y, z)
      ensures NamedLe(name, x, z)
    {
      NamedLeTransitive(name, x, y, z);
    }
  }

  /** The entries of `s` called `name` are in the order of their addresses. */
  ghost predicate AddressesUp(s: seq<Symbol>, name: CString)
  {
    forall i, j :: 0 <= i < j < |s| && s[i].name == name && s[j].name == name ==> Address(s[i]) <= Address(s[j])
  }

  ghost predicate AddressesDown(s: seq<Symbol>, name: CString)
  {
    forall i, j :: 0 <= i < j < |s| && s[i].name == name && s[j].name == name ==> Address(s[i]) >= Address(s[j])
  }

  lemma NamedSorted(s: seq<Symbol>, name: CString)
    requires ComparableUnder(name, Elements(s))
    ensures SortedBy((x, y) => NamedLe(name, x, y), Sort(s, false)) && SortedBy((x, y) => NamedLe(name, y, x), Sort(s, true))
  {
    NamedGuides(name, Elements(s));
    NamedTransitive(name, Elements(s));
    SortSorts((x, y) => NamedLe(name, x, y), Elements(s), s, false);
    SortSorts((x, y) => NamedLe(name, y, x), Elements(s), s, true);
  }

  /** The entries of one name come out in the order of their addresses, with 'r' against it, wherever the addresses of
      that name are comparable, whatever the entries of other names are. */
  lemma AddressesSorted(s: seq<Symbol>, name: CString)
    requires ComparableUnder(name, Elements(s))
    ensures AddressesUp(Sort(s, false), name) && AddressesDown(Sort(s, true), name)
  {
    NamedSorted(s, name);
    StrcmpOrder(name, name);
    var up, down := Sort(s, false), Sort(s, true);
    forall i, j | 0 <= i < j < |s| && up[i].name == name && up[j].name == name
      ensures Address(up[i]) <= Address(up[j])
    {
      assert ((x: Symbol, y: Symbol) => NamedLe(name, x, y))(up[i], up[j]);
    }
    forall i, j | 0 <= i < j < |s| && down[i].name == name && down[j].name == name
      ensures Address(down[i]) >= Address(down[j])
    {
      assert ((x: Symbol, y: Symbol) => NamedLe(name, y, x))(down[i], down[j]);
    }
  }

  lemma ListCompared(s: seq<Symbol>)
    requires forall x <- s :: ComparableUnder(x.name, Elements(s))
    ensures SortedBy(FullLe, Sort(s, false)) && SortedBy(FullGe, Sort(s, true))
  {
    NamesCompared(s);
    SortConserves(s, false);
    SortConserves(s, true);
    var up, down := Sort(s, false), Sort(s, true);
    forall i, j | 0 <= i < j < |s|
      ensures FullLe(up[i], up[j])
    {
      assert up[i] in multiset(up) && NameLe(up[i], up[j]);
      StrcmpOrder(up[i].name, up[j].name);
      AddressesSorted(s, up[i].name);
    }
    forall i, j | 0 <= i < j < |s|
      ensures FullGe(down[i], down[j])
    {
      assert down[i] in multiset(down) && NameGe(down[i], down[j]);
      StrcmpOrder(down[i].name, down[j].name);
      StrcmpOrder(down[j].name, down[i].name);
      AddressesSorted(s, down[i].name);
    }
  }

  /** `x` may stand in front of `y`: its name precedes the other, or the names are the same and its address is no larger. */
  ghost predicate InFront(x: Symbol, y: Symbol)
  {
    Precedes(x.name, y.name) || (x.name == y.name && Address(x) <= Address(y))
  }

  lemma ComparedInFront(x: Symbol, y: Symbol)
    ensures FullLe(x, y) <==> InFront(x, y)
  {
    StrcmpOrder(x.name, y.name);
    StrcmpPrecedes(x.name, y.name);
  }

  ghost predicate ListUpwards(s: seq<Symbol>)
  {
    forall i, j :: 0 <= i < j < |s| ==> InFront(s[i], s[j])
  }

  ghost predicate ListDownwards(s: seq<Symbol>)
  {
    forall i, j :: 0 <= i < j < |s| ==> InFront(s[j], s[i])
  }

  lemma ComparedLists(s: seq<Symbol>)
    ensures SortedBy(FullLe, s) <==> ListUpwards(s)
    ensures SortedBy(FullGe, s) <==> ListDownwards(s)
  {
    forall i, j | 0 <= i < j < |s|
      ensures FullLe(s[i], s[j]) <==> InFront(s[i], s[j])
      ensures FullGe(s[i], s[j]) <==> InFront(s[j], s[i])
    {
      ComparedInFront(s[i], s[j]);
      ComparedInFront(s[j], s[i]);
    }
  }

  /** When the addresses of every name are comparable, the whole list is in the order of names and addresses. */
  lemma ListSorted(s: seq<Symbol>)
    requires forall x <- s :: ComparableUnder(x.name, Elements(s))
    ensures ListUpwards(Sort(s, false)) && ListDownwards(Sort(s, true))
  {
    ListCompared(s);
    ComparedLists(Sort(s, false));
    ComparedLists(Sort(s, true));
  }

  /** Lists of one name and one width with addresses from `addresses`. */
  ghost predicate Drawn(s: seq<Symbol>, addresses: set<nat>, is64: bool, name: CString)
  {
    forall i :: 0 <= i < |s| ==> s[i].is64 == is64 && s[i].name == name && Address(s[i]) in addresses
  }

  ghost predicate InOrder(s: seq<Symbol>, name: CString, reverse: bool)
  {
    if reverse then AddressesDown(s, name) else AddressesUp(s, name)
  }

  ghost predicate SortsAll(addresses: set<nat>, is64: bool, name: CString, reverse: bool)
  {
    forall s :: Drawn(s, addresses, is64, name) ==> InOrder(Sort(s, reverse), name, reverse)
  }

  lemma PairComesOutWrong(x: Symbol, y: Symbol, reverse: bool)
    requires x.is64 == y.is64 && x.name == y.name && !Comparable(Address(x), Address(y))
    ensures !InOrder(Sort([x, y], reverse), x.name, reverse) || !InOrder(Sort([y, x], reverse), x.name, reverse)
  {
    CompareAddSound(x, y);
    StrcmpOrder(x.name, y.name);
    SortOfPair(x, y, reverse);
    SortOfPair(y, x, reverse);
    var s, t := Sort([x, y], reverse), Sort([y, x], reverse);
    assert InOrder(s, x.name, reverse) ==> if reverse then Address(s[0]) >= Address(s[1]) else Address(s[0]) <= Address(s[1]);
    assert InOrder(t, x.name, reverse) ==> if reverse then Address(t[0]) >= Address(t[1]) else Address(t[0]) <= Address(t[1]);
  }

  lemma SortOfPair(x: Symbol, y: Symbol, reverse: bool)
    ensures Sort([x, y], reverse) == if Swaps(x, y, reverse) then [y, x] else [x, y]
  {
    SortOfOne(x, reverse);
    SortOfOne(y, reverse);
    assert [x, y][1..] == [y] && [y][1..] == [];
    assert Sweep(x, [y], reverse) == if Swaps(x, y, reverse) then (y, [x]) else (x, [y]);
  }

  lemma SortOfOne(x: Symbol, reverse: bool)
    ensures Sort([x], reverse) == [x]
  {
    assert [x][1..] == [] && Sweep(x, [], reverse) == (x, []);
  }

  /** The addresses of one name come out in order from every list exactly when they are pairwise comparable, with 'r'
      as without it. */
  lemma SortsAllIff(addresses: set<nat>, is64: bool, name: CString, reverse: bool)
    requires forall a <- addresses :: a < if is64 then UINT64 else UINT32
    ensures SortsAll(addresses, is64, name, reverse) <==> forall a, b :: a in addresses && b in addresses ==> Comparable(a, b)
  {
    if forall a, b :: a in addresses && b in addresses ==> Comparable(a, b) {
      forall s | Drawn(s, addresses, is64, name)
        ensures InOrder(Sort(s, reverse), name, reverse)
      {
        AddressesSorted(s, name);
      }
    } else {
      var a, b :| a in addresses && b in addresses && !Comparable(a, b);
      var x, y := Symbol(is64, 's', a, name), Symbol(is64, 's', b, name);
      SmallRemainder(a, if is64 then UINT64 else UINT32);
      SmallRemainder(b, if is64 then UINT64 else UINT32);
      PairComesOutWrong(x, y, reverse);
      assert Drawn([x, y], addresses, is64, name) && Drawn([y, x], addresses, is64, name);
    }
  }

  /* ---- in place, on the list ---- */

  method MustSwap(cp: NmNode, jump: NmNode, reverse: bool) returns (b: bool)
    ensures b <==> Swaps(cp.Payload(), jump.Payload(), reverse)
  {
    var c := FtStrcmp(cp.name, jump.name);
    var d := CompareAdd(cp.Payload(), jump.Payload());
    b := if reverse then c < 0 || (c == 0 && d < 0) else c > 0 || (c == 0 && d > 0);
  }

  /** `compare_exchange` and `compare_exchange_reverse`: the data change places field by field, the links stay. */
  method CompareExchange(cp: NmNode, jump: NmNode, reverse: bool)
    requires cp != jump
    modifies cp`is64, cp`typ, cp`add, cp`name, jump`is64, jump`typ, jump`add, jump`name
    ensures var (x, y) := (old(cp.Payload()), old(jump.Payload()));
            (cp.Payload(), jump.Payload()) == if Swaps(x, y, reverse) then (y, x) else (x, y)
  {
    var b := MustSwap(cp, jump, reverse);
    if b {
      var is64, typ, add, name := cp.is64, cp.typ, cp.add, cp.name;
      cp.is64 := jump.is64;
      cp.typ := jump.typ;
      cp.add := jump.add;
      cp.name := jump.name;
      jump.is64 := is64;
      jump.typ := typ;
      jump.add := add;
      jump.name := name;
    }
  }

  /** The inner loop for place `k` when it has come to place `j`: what is settled, and what is still to come. */
  ghost predicate Sweeping(was: seq<Symbol>, now: seq<Symbol>, k: nat, j: nat, reverse: bool)
  {
    && |now| == |was| && k < j <= |was|
    && now[..k] == was[..k] && now[j..] == was[j..]
    && var (m, rest) := Sweep(now[k], was[j..], reverse);
       Sweep(was[k], was[k + 1..], reverse) == (m, now[k + 1..j] + rest)
  }

  lemma SweepingStarts(was: seq<Symbol>, k: nat, reverse: bool)
    requires k < |was|
    ensures Sweeping(was, was, k, k + 1, reverse)
  {
    var (m, rest) := Sweep(was[k], was[k + 1..], reverse);
    assert was[k + 1..k + 1] + rest == rest;
  }

  lemma SweepOne(x: Symbol, ys: seq<Symbol>, reverse: bool, winner: Symbol, loser: Symbol)
    requires ys != [] && (winner, loser) == if Swaps(x, ys[0], reverse) then (ys[0], x) else (x, ys[0])
    ensures var (m, rest) := Sweep(winner, ys[1..], reverse); Sweep(x, ys, reverse) == (m, [loser] + rest)
  {
  }

  lemma SweepingSteps(was: seq<Symbol>, now: seq<Symbol>, k: nat, j: nat, reverse: bool, winner: Symbol, loser: Symbol,
                      later: seq<Symbol>, j': nat)
    requires Sweeping(was, now, k, j, reverse) && j < |was|
    requires (winner, loser) == if Swaps(now[k], now[j], reverse) then (now[j], now[k]) else (now[k], now[j])
    requires later == now[k := winner][j := loser] && j' == j + 1
    ensures Sweeping(was, later, k, j', reverse)
  {
    Replaced(was, now, k, j, winner, loser, later, j');
    SweepOne(now[k], was[j..], reverse, winner, loser);
    var (m, rest) := Sweep(winner, was[j'..], reverse);
    Moved(now[k + 1..j], loser, rest);
  }

  lemma Replaced(was: seq<Symbol>, now: seq<Symbol>, k: nat, j: nat, winner: Symbol, loser: Symbol, later: seq<Symbol>, j': nat)
    requires |now| == |was| && k < j < |was| && now[..k] == was[..k] && now[j..] == was[j..]
    requires later == now[k := winner][j := loser] && j' == j + 1
    ensures later[..k] == was[..k] && later[j'..] == was[j'..] && later[k] == winner
    ensures later[k + 1..j'] == now[k + 1..j] + [loser]
    ensures now[j] == was[j..][0] && was[j..][1..] == was[j'..]
  {
    assert now[j] == now[j..][0];
    assert later[j'..] == now[j..][1..];
  }

  lemma Moved(done: seq<Symbol>, loser: Symbol, rest: seq<Symbol>)
    ensures done + ([loser] + rest) == (done + [loser]) + rest
  {
  }

  lemma SweepingEnds(was: seq<Symbol>, now: seq<Symbol>, k: nat, j: nat, reverse: bool)
    requires Sweeping(was, now, k, j, reverse) && j == |was|
    ensures var (m, rest) := Sweep(was[k], was[k + 1..], reverse); now == was[..k] + ([m] + rest)
  {
    assert was[|was|..] == [];
    assert now == now[..k] + ([now[k]] + now[k + 1..]);
  }

  ghost function NodeAt(spine: seq<NmNode>, j: nat): NmNode?
  {
    if j < |spine| then spine[j] else null
  }

  lemma NextInChain(spine: seq<NmNode>, j: nat)
    requires Chain(spine) && j < |spine|
    ensures spine[j].next == NodeAt(spine, j + 1)
  {
  }

  /** The exchange changes two payloads of the chain and no other. */
  method ExchangeAt(cp: NmNode, jump: NmNode, reverse: bool, ghost spine: seq<NmNode>, ghost k: nat, ghost j: nat)
    returns (ghost winner: Symbol, ghost loser: Symbol)
    requires Chain(spine) && k < j < |spine| && cp == spine[k] && jump == spine[j]
    modifies cp`is64, cp`typ, cp`add, cp`name, jump`is64, jump`typ, jump`add, jump`name
    ensures Chain(spine) && jump.next == old(jump.next)
    ensures Payloads(spine) == old(Payloads(spine))[k := winner][j := loser]
    ensures var was := old(Payloads(spine));
            (winner, loser) == if Swaps(was[k], was[j], reverse) then (was[j], was[k]) else (was[k], was[j])
  {
    CompareExchange(cp, jump, reverse);
    winner, loser := cp.Payload(), jump.Payload();
  }

  /** One exchange of the inner loop. */
  method Meet(cp: NmNode, jump: NmNode, reverse: bool, ghost spine: seq<NmNode>, ghost was: seq<Symbol>, ghost k: nat, ghost j: nat)
    returns (ghost now: seq<Symbol>, ghost j': nat)
    requires Chain(spine) && k < j < |spine| && cp == spine[k] && jump == spine[j]
    requires Sweeping(was, Payloads(spine), k, j, reverse)
    modifies spine`is64, spine`typ, spine`add, spine`name
    ensures jump.next == NodeAt(spine, j')
    ensures Chain(spine) && j' == j + 1 && now == Payloads(spine) && Sweeping(was, now, k, j', reverse)
  {
    ghost var before := Payloads(spine);
    NextInChain(spine, j);
    j' := j + 1;
    ghost var winner, loser := ExchangeAt(cp, jump, reverse, spine, k, j);
    now := Payloads(spine);
    SweepingSteps(was, before, k, j, reverse, winner, loser, now, j');
  }

  /** The inner loop of `sort_list_by_name` for the node `cp` at place `k`. */
  method SweepFrom(cp: NmNode, reverse: bool, ghost spine: seq<NmNode>, ghost k: nat)
    requires Chain(spine) && k < |spine| && cp == spine[k]
    modifies spine`is64, spine`typ, spine`add, spine`name
    ensures Chain(spine)
    ensures var was := old(Payloads(spine));
            var (m, rest) := Sweep(was[k], was[k + 1..], reverse);
            Payloads(spine) == was[..k] + ([m] + rest)
  {
    ghost var was, now := Payloads(spine), Payloads(spine);
    ghost var j := k + 1;
    var jump := cp.next;
    SweepingStarts(was, k, reverse);
    NextInChain(spine, k);
    while jump != null
      invariant k < j <= |spine| && Chain(spine) && jump == NodeAt(spine, j)
      invariant now == Payloads(spine) && Sweeping(was, now, k, j, reverse)
      decreases |spine| - j
    {
      now, j := Meet(cp, jump, reverse, spine, was, k, j);
      jump := jump.next;
    }
    SweepingEnds(was, now, k, j, reverse);
  }

  /** The outer loop on the way to `sorted`: the first `k` payloads are in place, the others are still to be sorted. */
  ghost predicate Sorting(now: seq<Symbol>, k: nat, reverse: bool, sorted: seq<Symbol>)
  {
    k <= |now| && now[..k] + Sort(now[k..], reverse) == sorted
  }

  lemma SortStarts(now: seq<Symbol>, reverse: bool)
    ensures Sorting(now, 0, reverse, Sort(now, reverse))
  {
    assert now[0..] == now;
  }

  lemma SortStep(before: seq<Symbol>, after: seq<Symbol>, k: nat, reverse: bool, sorted: seq<Symbol>)
    requires k < |before| && Sorting(before, k, reverse, sorted)
    requires var (m, rest) := Sweep(before[k], before[k + 1..], reverse); after == before[..k] + ([m] + rest)
    ensures Sorting(after, k + 1, reverse, sorted)
  {
    var (m, rest) := Sweep(before[k], before[k + 1..], reverse);
    assert before[k..][0] == before[k] && before[k..][1..] == before[k + 1..];
    assert after[k + 1..] == rest && after[..k + 1] == before[..k] + [m];
    assert Sort(before[k..], reverse) == [m] + Sort(rest, reverse);
  }

  lemma SortLast(s: seq<Symbol>, k: nat, reverse: bool, sorted: seq<Symbol>)
    requires k == |s| - 1 && Sorting(s, k, reverse, sorted)
    ensures s == sorted
  {
    assert s[k..] == [s[k]] && s[k..][1..] == [];
    assert Sweep(s[k], [], reverse) == (s[k], []);
    assert Sort(s[k..], reverse) == [s[k]];
  }

  /** One round of the outer loop. */
  method SortRound(cp: NmNode, reverse: bool, ghost spine: seq<NmNode>, ghost k: nat, ghost before: seq<Symbol>,
                   ghost sorted: seq<Symbol>)
    returns (ghost now: seq<Symbol>)
    requires Chain(spine) && k < |spine| && cp == spine[k]
    requires before == Payloads(spine) && Sorting(before, k, reverse, sorted)
    modifies spine`is64, spine`typ, spine`add, spine`name
    ensures Chain(spine) && now == Payloads(spine) && Sorting(now, k + 1, reverse, sorted)
  {
    SweepFrom(cp, reverse, spine, k);
    now := Payloads(spine);
    SortStep(before, now, k, reverse, sorted);
  }

  /** `sort_list_by_name`: the chain of nodes stays, and the payloads along it come out sorted. */
  method SortListByName(list: NmNode?, reverse: bool, ghost spine: seq<NmNode>)
    requires IsList(list, spine)
    modifies spine`is64, spine`typ, spine`add, spine`name
    ensures IsList(list, spine) && Payloads(spine) == Sort(old(Payloads(spine)), reverse)
  {
    if list != null {
      ghost var now, sorted, k := Payloads(spine), Sort(Payloads(spine), reverse), 0;
      var cp := list;
      SortStarts(now, reverse);
      while cp.next != null
        invariant k < |spine| && Chain(spine) && cp == spine[k]
        invariant now == Payloads(spine) && Sorting(now, k, reverse, sorted)
        decreases |spine| - k
      {
        NextInChain(spine, k);
        now := SortRound(cp, reverse, spine, k, now, sorted);
        cp := cp.next;
        k := k + 1;
      }
      NextInChain(spine, k);
      SortLast(now, k, reverse, sorted);
    }
  }
}
