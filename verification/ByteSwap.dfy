/** Byte order: swapping by shifts and masks, and swapping in place. */
module ByteSwap {
  import opened Sequences

  type byte = bv8

  function Bytes32(a: byte, b: byte, c: byte, d: byte): bv32
  {
    (a as bv32) | ((b as bv32) << 8) | ((c as bv32) << 16) | ((d as bv32) << 24)
  }

  function Bytes64(a: byte, b: byte, c: byte, d: byte, e: byte, f: byte, g: byte, h: byte): bv64
  {
    (a as bv64) | ((b as bv64) << 8) | ((c as bv64) << 16) | ((d as bv64) << 24)
    | ((e as bv64) << 32) | ((f as bv64) << 40) | ((g as bv64) << 48) | ((h as bv64) << 56)
  }

  /** The little-endian number in four bytes. */
  function Word32(s: seq<byte>): bv32
    requires |s| == 4
  {
    Bytes32(s[0], s[1], s[2], s[3])
  }

  /** The little-endian number in eight bytes. */
  function Word64(s: seq<byte>): bv64
    requires |s| == 8
  {
    Bytes64(s[0], s[1], s[2], s[3], s[4], s[5], s[6], s[7])
  }

  function SwapUint32(n: bv32): bv32
  {
    var m := ((n << 8) & 0xFF00FF00) | ((n >> 8) & 0xFF00FF);
    (m << 16) | (m >> 16)
  }

  function SwapUint64(n: bv64): bv64
  {
    var m := ((n << 8) & 0xFF00FF00FF00FF00) | ((n >> 8) & 0x00FF00FF00FF00FF);
    var k := ((m << 16) & 0xFFFF0000FFFF0000) | ((m >> 16) & 0x0000FFFF0000FFFF);
    (k << 32) | (k >> 32)
  }

  lemma SwapBytes32(a: byte, b: byte, c: byte, d: byte)
    ensures SwapUint32(Bytes32(a, b, c, d)) == Bytes32(d, c, b, a)
  {
  }

  lemma SwapBytes64(a: byte, b: byte, c: byte, d: byte, e: byte, f: byte, g: byte, h: byte)
    ensures SwapUint64(Bytes64(a, b, c, d, e, f, g, h)) == Bytes64(h, g, f, e, d, c, b, a)
  {
  }

  /** Swapping a number by shifts is reading its bytes backwards. */
  lemma SwapUint32Reverses(s: seq<byte>)
    requires |s| == 4
    ensures SwapUint32(Word32(s)) == Word32(Backwards(s))
  {
    SwapBytes32(s[0], s[1], s[2], s[3]);
  }

  lemma SwapUint64Reverses(s: seq<byte>)
    requires |s| == 8
    ensures SwapUint64(Word64(s)) == Word64(Backwards(s))
  {
    SwapBytes64(s[0], s[1], s[2], s[3], s[4], s[5], s[6], s[7]);
  }

  lemma SwapTwice(n: bv32, m: bv64)
    ensures SwapUint32(SwapUint32(n)) == n && SwapUint64(SwapUint64(m)) == m
  {
  }

  /** `count` bytes from `at` on turned round. */
  function TurnedRound<T>(s: seq<T>, at: nat, count: nat): (r: seq<T>)
    requires at + count <= |s|
    ensures |r| == |s|
  {
    s[..at] + Backwards(s[at..at + count]) + s[at + count..]
  }

  lemma TurnedRoundAt<T>(s: seq<T>, at: nat, count: nat, k: nat)
    requires at + count <= |s| && k < |s|
    ensures TurnedRound(s, at, count)[k] == if at <= k < at + count then s[2 * at + count - 1 - k] else s[k]
  {
  }

  /** What is turned after `i` exchanges from both ends. */
  ghost predicate Turning<T>(was: seq<T>, now: seq<T>, at: nat, n: nat, i: nat)
    requires i <= n && at + n <= |was|
  {
    && |now| == |was|
    && (forall k :: at <= k < at + i ==> now[k] == was[2 * at + n - 1 - k])
    && (forall k :: at + n - i <= k < at + n ==> now[k] == was[2 * at + n - 1 - k])
    && (forall k :: at + i <= k < at + n - i ==> now[k] == was[k])
    && (forall k :: 0 <= k < at || at + n <= k < |was| ==> now[k] == was[k])
  }

  lemma TurningSteps<T>(was: seq<T>, before: seq<T>, now: seq<T>, at: nat, n: nat, i: nat)
    requires 2 * i < n && at + n <= |was| && Turning(was, before, at, n, i)
    requires now == before[at + i := before[at + n - 1 - i]][at + n - 1 - i := before[at + i]]
    ensures Turning(was, now, at, n, i + 1)
  {
  }

  /** `swap_endiane`: the `count` bytes from `at` on are turned round in place, and no other byte changes. */
  method SwapEndiane<T>(data: array<T>, at: nat, count: int)
    requires at <= data.Length && at + count <= data.Length
    modifies data
    ensures data[..] == TurnedRound(old(data[..]), at, if count < 0 then 0 else count)
  {
    ghost var was, n := data[..], if count < 0 then 0 else count;
    var i, j := 0, count - 1;
    while i <= j
      invariant 0 <= i <= n && i + j == count - 1
      invariant Turning(was, data[..], at, n, i)
      decreases j - i
    {
      ghost var before := data[..];
      data[at + i], data[at + j] := data[at + j], data[at + i];
      TurningSteps(was, before, data[..], at, n, i);
      i := i + 1;
      j := j - 1;
    }
    TurningEnds(was, data[..], at, n, i);
  }

  lemma TurningEnds<T>(was: seq<T>, now: seq<T>, at: nat, n: nat, i: nat)
    requires i <= n <= 2 * i && at + n <= |was| && Turning(was, now, at, n, i)
    ensures now == TurnedRound(was, at, n)
  {
    forall k | 0 <= k < |was|
      ensures now[k] == TurnedRound(was, at, n)[k]
    {
      TurnedRoundAt(was, at, n, k);
    }
  }

  /** Turning the same bytes round again undoes it. */
  lemma TurnedRoundTwice<T>(s: seq<T>, at: nat, count: nat)
    requires at + count <= |s|
    ensures TurnedRound(TurnedRound(s, at, count), at, count) == s
  {
    var t := TurnedRound(s, at, count);
    forall k | 0 <= k < |s|
      ensures TurnedRound(t, at, count)[k] == s[k]
    {
      TurnedRoundAt(t, at, count, k);
      TurnedRoundAt(s, at, count, if at <= k < at + count then 2 * at + count - 1 - k else k);
    }
  }

  /** Every four bytes turned round, over `n` words from `at` on. */
  function WordsTurned<T>(s: seq<T>, at: nat, n: nat): (r: seq<T>)
    requires at + 4 * n <= |s|
    ensures |r| == |s|
  {
    if n == 0 then s else TurnedRound(WordsTurned(s, at, n - 1), at + 4 * (n - 1), 4)
  }

  /** `swap_nb_32`. */
  method SwapNb32<T>(data: array<T>, at: nat, nb: int)
    requires at <= data.Length && at + 4 * nb <= data.Length
    modifies data
    ensures data[..] == WordsTurned(old(data[..]), at, if nb < 0 then 0 else nb)
  {
    ghost var was, n := data[..], if nb < 0 then 0 else nb;
    var i := 0;
    while i < nb
      invariant 0 <= i <= n && data[..] == WordsTurned(was, at, i)
    {
      ghost var before := data[..];
      SwapEndiane(data, at + 4 * i, 4);
      OneWordMore(was, at, i, before, data[..]);
      i := i + 1;
    }
  }

  lemma OneWordMore<T>(s: seq<T>, at: nat, n: nat, t: seq<T>, u: seq<T>)
    requires at + 4 * (n + 1) <= |s| && t == WordsTurned(s, at, n) && u == TurnedRound(t, at + 4 * n, 4)
    ensures u == WordsTurned(s, at, n + 1)
  {
  }

  /** Within the first `n` words the byte at `k`, the one numbered `r` in its word, comes from its mirror `m`. */
  lemma {:induction false} WordsTurnedIn<T>(s: seq<T>, at: nat, n: nat, w: nat, r: nat, k: nat, m: nat)
    requires at + 4 * n <= |s| && w < n && r < 4 && k == at + 4 * w + r && m == at + 4 * w + 3 - r
    ensures WordsTurned(s, at, n)[k] == s[m]
  {
    LastWord(s, at, n, k, m);
    if w == n - 1 {
      WordsTurnedOut(s, at, n - 1, m);
    } else {
      WordsTurnedIn(s, at, n - 1, w, r, k, m);
    }
  }

  /** The last word is turned, the bytes in front of it are as `n - 1` words left them. */
  lemma LastWord<T>(s: seq<T>, at: nat, n: nat, k: nat, m: nat)
    requires n > 0 && at + 4 * n <= |s| && k < |s| && m < |s|
    requires at + 4 * (n - 1) <= k < at + 4 * n ==> m == 2 * (at + 4 * (n - 1)) + 3 - k
    ensures WordsTurned(s, at, n)[k] == WordsTurned(s, at, n - 1)[if at + 4 * (n - 1) <= k < at + 4 * n then m else k]
  {
    TurnedRoundAt(WordsTurned(s, at, n - 1), at + 4 * (n - 1), 4, k);
  }

  /** No other byte moves. */
  lemma {:induction false} WordsTurnedOut<T>(s: seq<T>, at: nat, n: nat, k: nat)
    requires at + 4 * n <= |s| && k < |s| && !(at <= k < at + 4 * n)
    ensures WordsTurned(s, at, n)[k] == s[k]
  {
    if n > 0 {
      TurnedRoundAt(WordsTurned(s, at, n - 1), at + 4 * (n - 1), 4, k);
      WordsTurnedOut(s, at, n - 1, k);
    }
  }

  /** Swapping the same words again undoes it. */
  lemma WordsTurnedTwice<T>(s: seq<T>, at: nat, n: nat)
    requires at + 4 * n <= |s|
    ensures WordsTurned(WordsTurned(s, at, n), at, n) == s
  {
    var t := WordsTurned(s, at, n);
    forall k | 0 <= k < |s|
      ensures WordsTurned(t, at, n)[k] == s[k]
    {
      if at <= k < at + 4 * n {
        var w, r := (k - at) / 4, (k - at) % 4;
        var m := at + 4 * w + 3 - r;
        WordsTurnedIn(t, at, n, w, r, k, m);
        WordsTurnedIn(s, at, n, w, 3 - r, m, k);
      } else {
        WordsTurnedOut(t, at, n, k);
        WordsTurnedOut(s, at, n, k);
      }
    }
  }
}
