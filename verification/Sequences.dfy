/** A sequence read from its end. */
module Sequences {

  function Backwards<T>(s: seq<T>): (r: seq<T>)
    ensures |r| == |s| && forall i :: 0 <= i < |s| ==> r[i] == s[|s| - 1 - i]
  {
    seq(|s|, i requires 0 <= i < |s| => s[|s| - 1 - i])
  }

  lemma BackwardsTwice<T>(s: seq<T>)
    ensures Backwards(Backwards(s)) == s
  {
  }

  lemma {:induction false} BackwardsConserves<T>(s: seq<T>)
    ensures multiset(Backwards(s)) == multiset(s)
    decreases |s|
  {
    if s != [] {
      BackwardsConserves(s[1..]);
      assert Backwards(s) == Backwards(s[1..]) + [s[0]];
      assert s == [s[0]] + s[1..];
    }
  }
}
