/** A section cut into the rows of a dump. */
module SectionRows {

  /** A section cut into rows of sixteen bytes, the last one with what is left. */
  function Rows<T>(s: seq<T>): seq<seq<T>>
    decreases |s|
  {
    if s == [] then [] else if |s| <= 16 then [s] else [s[..16]] + Rows(s[16..])
  }

  function Flatten<T>(rows: seq<seq<T>>): seq<T>
  {
    if rows == [] then [] else rows[0] + Flatten(rows[1..])
  }

  /** Every byte of the section is in the rows, once and in order; there are as many rows as sixteens begun. */
  lemma {:induction false} RowsCover<T>(s: seq<T>)
    ensures Flatten(Rows(s)) == s && |Rows(s)| == (|s| + 15) / 16
    ensures forall k :: 0 <= k < |Rows(s)| ==> 0 < |Rows(s)[k]| <= 16 && (k < |Rows(s)| - 1 ==> |Rows(s)[k]| == 16)
    decreases |s|
  {
    if 0 < |s| <= 16 {
      assert s + [] == s;
    } else if s != [] {
      RowsCover(s[16..]);
      assert s == s[..16] + s[16..];
    }
  }

  lemma {:induction false} RowOfSection<T>(s: seq<T>, k: nat, from: nat, to: nat)
    requires from == 16 * k < |s| && to == if from + 16 <= |s| then from + 16 else |s|
    ensures k < |Rows(s)| && Rows(s)[k] == s[from..to]
    decreases k
  {
    if k > 0 {
      RowOfSection(s[16..], k - 1, from - 16, to - 16);
      assert s[16..][from - 16..to - 16] == s[from..to];
    } else {
      assert |s| <= 16 ==> s[0..|s|] == s;
    }
  }

  lemma ByteOfSection<T>(s: seq<T>, k: nat, j: nat)
    requires j < 16 && 16 * k + j < |s|
    ensures k < |Rows(s)| && j < |Rows(s)[k]| && Rows(s)[k][j] == s[16 * k + j]
  {
    RowOfSection(s, k, 16 * k, if 16 * k + 16 <= |s| then 16 * k + 16 else |s|);
  }

  /** How far one row reaches. */
  function RowLength<T>(left: seq<T>): (n: nat)
    ensures n <= |left|
  {
    if |left| < 16 then |left| else 16
  }

  lemma FirstRow<T>(left: seq<T>)
    requires left != []
    ensures Rows(left) == [left[..RowLength(left)]] + Rows(left[RowLength(left)..])
  {
    if |left| <= 16 {
      assert left[..RowLength(left)] == left && left[RowLength(left)..] == [];
    }
  }
}
