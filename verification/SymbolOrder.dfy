/** The order of the symbol list: `ft_strcmp` on names, then the truncated address difference. */
module SymbolOrder {
  import opened CText

  function CharCode(s: string, i: nat): int
  {
    CharAt(s, i) as int
  }

  /** The difference at the first place where two C strings part. */
  function Strcmp(s: string, t: string): int
  {
    if s == "" || t == "" || s[0] != t[0] then CharCode(s, 0) - CharCode(t, 0) else Strcmp(s[1..], t[1..])
  }

  method FtStrcmp(s1: CString, s2: CString) returns (r: int)
    ensures r == Strcmp(s1, s2)
  {
    var k := 0;
    while k < |s1| && k < |s2| && s1[k] == s2[k]
      invariant k <= |s1| && k <= |s2| && Strcmp(s1[k..], s2[k..]) == Strcmp(s1, s2)
    {
      assert s1[k..][1..] == s1[k + 1..] && s2[k..][1..] == s2[k + 1..];
      k := k + 1;
    }
    assert s1[k..] != "" ==> s1[k..][0] == s1[k];
    assert s2[k..] != "" ==> s2[k..][0] == s2[k];
    r := CharCode(s1, k) - CharCode(s2, k);
  }

  lemma {:induction false} StrcmpOrder(s: CString, t: CString)
    ensures Strcmp(s, t) == -Strcmp(t, s)
    ensures Strcmp(s, t) == 0 <==> s == t
  {
    if s != "" && t != "" && s[0] == t[0] {
      StrcmpOrder(s[1..], t[1..]);
      assert s == [s[0]] + s[1..] && t == [t[0]] + t[1..];
    }
  }

  /** `s` comes before `t` in the order of dictionaries: where they first part, its character is the smaller one, the
      end of a text counting as the smallest. */
  ghost predicate Precedes(s: CString, t: CString)
  {
    exists k: nat :: PartAt(s, t, k) && CharAt(s, k) < CharAt(t, k)
  }

  ghost predicate PartAt(s: CString, t: CString, k: nat)
  {
    k <= |s| && k <= |t| && s[..k] == t[..k]
  }

  /** A negative comparison is just that order. */
  lemma {:induction false} StrcmpPrecedes(s: CString, t: CString)
    ensures Strcmp(s, t) < 0 <==> Precedes(s, t)
  {
    if s == "" || t == "" || s[0] != t[0] {
      assert PartAt(s, t, 0);
      forall k: nat
        ensures PartAt(s, t, k) ==> k == 0
      {
        PartHead(s, t, k);
      }
    } else {
      StrcmpPrecedes(s[1..], t[1..]);
      StepIn(s, t);
    }
  }

  lemma PartHead(s: CString, t: CString, k: nat)
    ensures PartAt(s, t, k) && k > 0 ==> s != "" && t != "" && s[0] == t[0]
  {
    if PartAt(s, t, k) && k > 0 {
      assert s[..k][0] == s[0] && t[..k][0] == t[0];
    }
  }

  lemma StepIn(s: CString, t: CString)
    requires s != "" && t != "" && s[0] == t[0]
    ensures Precedes(s, t) <==> Precedes(s[1..], t[1..])
  {
    var u, v := s[1..], t[1..];
    forall k: nat
      ensures PartAt(u, v, k) <==> PartAt(s, t, k + 1)
      ensures CharAt(u, k) == CharAt(s, k + 1) && CharAt(v, k) == CharAt(t, k + 1)
    {
      PartFurther(s, t, k);
    }
    if Precedes(s, t) {
      var k: nat :| PartAt(s, t, k) && CharAt(s, k) < CharAt(t, k);
      assert PartAt(u, v, k - 1);
    }
    if Precedes(u, v) {
      var k: nat :| PartAt(u, v, k) && CharAt(u, k) < CharAt(v, k);
      assert PartAt(s, t, k + 1);
    }
  }

  lemma PartFurther(s: CString, t: CString, k: nat)
    requires s != "" && t != "" && s[0] == t[0]
    ensures PartAt(s[1..], t[1..], k) <==> PartAt(s, t, k + 1)
  {
    if k < |s| && k < |t| {
      assert s[..k + 1] == [s[0]] + s[1..][..k] && t[..k + 1] == [t[0]] + t[1..][..k];
      assert PartAt(s, t, k + 1) ==> s[1..][..k] == s[..k + 1][1..] == t[..k + 1][1..];
    }
  }

  lemma {:induction false} StrcmpTransitive(s: CString, t: CString, u: CString)
    requires Strcmp(s, t) <= 0 && Strcmp(t, u) <= 0
    ensures Strcmp(s, u) <= 0
  {
    if s != "" && t != "" && u != "" && s[0] == t[0] == u[0] {
      StrcmpTransitive(s[1..], t[1..], u[1..]);
    }
  }

  /** One entry of the list. `add` is the little-endian number in the eight bytes that the address pointer shows. */
  datatype Symbol = Symbol(is64: bool, typ: char, add: nat, name: CString)

  /** The address: all eight bytes, or the first four in a 32-bit file. */
  function Address(x: Symbol): nat
  {
    if x.is64 then x.add % UINT64 else x.add % UINT32
  }

  /** `compare_add`: the difference of the addresses in their own unsigned width, cut down to an `int`. */
  function CompareAdd(x: Symbol, y: Symbol): int
  {
    if x.is64 then ToSigned(ToUnsigned(x.add % UINT64 - y.add % UINT64, UINT64), UINT32)
    else ToSigned(ToUnsigned(x.add % UINT32 - y.add % UINT32, UINT32), UINT32)
  }

  /** When `compare_exchange`, or `compare_exchange_reverse`, swaps the payloads. */
  predicate Swaps(x: Symbol, y: Symbol, reverse: bool)
  {
    var c := Strcmp(x.name, y.name);
    if reverse then c < 0 || (c == 0 && CompareAdd(x, y) < 0)
    else c > 0 || (c == 0 && CompareAdd(x, y) > 0)
  }

  /** The inner loop: `x` meets every entry of `ys` in turn. */
  function Sweep(x: Symbol, ys: seq<Symbol>, reverse: bool): (r: (Symbol, seq<Symbol>))
    ensures |r.1| == |ys|
    decreases |ys|
  {
    if ys == [] then (x, [])
    else if Swaps(x, ys[0], reverse) then
      var (m, rest) := Sweep(ys[0], ys[1..], reverse);
      (m, [x] + rest)
    else
      var (m, rest) := Sweep(x, ys[1..], reverse);
      (m, [ys[0]] + rest)
  }

  /** The whole exchange sort. */
  function Sort(s: seq<Symbol>, reverse: bool): (r: seq<Symbol>)
    ensures |r| == |s|
    decreases |s|
  {
    if s == [] then [] else
      var (m, rest) := Sweep(s[0], s[1..], reverse);
      [m] + Sort(rest, reverse)
  }

  /* ---- conservation ---- */

  lemma MultisetCons(x: Symbol, s: seq<Symbol>)
    ensures multiset([x] + s) == multiset{x} + multiset(s)
  {
  }

  lemma {:induction false} SweepConserves(x: Symbol, ys: seq<Symbol>, reverse: bool)
    ensures var (m, rest) := Sweep(x, ys, reverse); multiset{m} + multiset(rest) == multiset{x} + multiset(ys)
    decreases |ys|
  {
    if ys != [] {
      var y, more := ys[0], ys[1..];
      assert ys == [y] + more;
      MultisetCons(y, more);
      var (winner, loser) := if Swaps(x, y, reverse) then (y, x) else (x, y);
      SweepConserves(winner, more, reverse);
      var (m, rest) := Sweep(winner, more, reverse);
      MultisetCons(loser, rest);
      assert Sweep(x, ys, reverse) == (m, [loser] + rest);
      assert multiset{x} + multiset{y} == multiset{winner} + multiset{loser};
      Exchanged(multiset{m}, multiset{loser}, multiset(rest), multiset{winner}, multiset(more), multiset{x}, multiset{y});
    }
  }

  lemma Exchanged<T>(m: multiset<T>, loser: multiset<T>, rest: multiset<T>, winner: multiset<T>, more: multiset<T>,
                     x: multiset<T>, y: multiset<T>)
    requires m + rest == winner + more && x + y == winner + loser
    ensures m + (loser + rest) == x + (y + more)
  {
    assert m + (loser + rest) == (m + rest) + loser;
    assert x + (y + more) == (x + y) + more;
    assert (winner + more) + loser == (winner + loser) + more;
  }

  /** Sorting moves payloads about and neither drops nor doubles one. */
  lemma {:induction false} SortConserves(s: seq<Symbol>, reverse: bool)
    ensures multiset(Sort(s, reverse)) == multiset(s)
    decreases |s|
  {
    if s != [] {
      var (m, rest) := Sweep(s[0], s[1..], reverse);
      SweepConserves(s[0], s[1..], reverse);
      SortConserves(rest, reverse);
      assert s == [s[0]] + s[1..];
    }
  }

  /* ---- order ---- */

  ghost predicate SortedBy(le: (Symbol, Symbol) -> bool, s: seq<Symbol>)
  {
    forall i, j :: 0 <= i < j < |s| ==> le(s[i], s[j])
  }

  ghost predicate Within(s: seq<Symbol>, entries: set<Symbol>)
  {
    forall i :: 0 <= i < |s| ==> s[i] in entries
  }

  /** On `entries`, every exchange leaves its pair in the order `le`. */
  ghost predicate Guides(le: (Symbol, Symbol) -> bool, entries: set<Symbol>, reverse: bool)
  {
    forall x, y :: x in entries && y in entries ==> if Swaps(x, y, reverse) then le(y, x) else le(x, y)
  }

  ghost predicate Transitive(le: (Symbol, Symbol) -> bool, entries: set<Symbol>)
  {
    forall x, y, z :: x in entries && y in entries && z in entries && le(x, y) && le(y, z) ==> le(x, z)
  }

  /** The sweep ends with an entry that no other one has to precede. */
  lemma {:induction false} SweepFindsLeast(le: (Symbol, Symbol) -> bool, entries: set<Symbol>, x: Symbol, ys: seq<Symbol>, reverse: bool)
    requires Guides(le, entries, reverse) && Transitive(le, entries)
    requires x in entries && Within(ys, entries)
    ensures var (m, rest) := Sweep(x, ys, reverse);
            && m in entries && Within(rest, entries)
            && (m == x || le(m, x)) && forall i :: 0 <= i < |rest| ==> le(m, rest[i])
    decreases |ys|
  {
    if ys != [] {
      var y := ys[0];
      if Swaps(x, y, reverse) {
        SweepFindsLeast(le, entries, y, ys[1..], reverse);
        assert le(y, x);
      } else {
        SweepFindsLeast(le, entries, x, ys[1..], reverse);
        assert le(x, y);
      }
    }
  }

  /** An order that guides the exchanges is the order of the result. */
  lemma {:induction false} SortSorts(le: (Symbol, Symbol) -> bool, entries: set<Symbol>, s: seq<Symbol>, reverse: bool)
    requires Guides(le, entries, reverse) && Transitive(le, entries) && Within(s, entries)
    ensures SortedBy(le, Sort(s, reverse))
    decreases |s|
  {
    if s != [] {
      var (m, rest) := Sweep(s[0], s[1..], reverse);
      SweepFindsLeast(le, entries, s[0], s[1..], reverse);
      SortSorts(le, entries, rest, reverse);
      SortConserves(rest, reverse);
      var sorted := Sort(rest, reverse);
      forall i | 0 <= i < |sorted|
        ensures le(m, sorted[i])
      {
        assert sorted[i] in multiset(sorted);
        assert sorted[i] in rest;
      }
    }
  }
}
