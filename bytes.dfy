/** Bytes, optional values and the outcome of a decoding attempt, shared by
    both protocol directions and by the frame reader. */
module Bytes {

  /** One octet on the wire (uint8_t). */
  type byte = bv8

  datatype Option<+T> = None | Some(value: T)

  /** What a decoder hands back: the message, if one was recognised, and where
      it left the caller's cursor, as an offset from the start of the range it
      was given. The decoders move that cursor in place even when they fail. */
  datatype Decoded<+M> = Decoded(msg: Option<M>, cursor: nat)

  /** std::find over s[from..]: the first position at or after `from` that
      holds `b`, or |s| when there is none. */
  function Find(s: seq<byte>, from: nat, b: byte): (r: nat)
    requires from <= |s|
    ensures from <= r <= |s|
    ensures r < |s| ==> s[r] == b
    ensures forall i :: from <= i < r ==> s[i] != b
    decreases |s| - from
  {
    if from == |s| || s[from] == b then from else Find(s, from + 1, b)
  }

  /** The first position at or after `from` that holds `a` or `b`, or |s|. */
  function FindEither(s: seq<byte>, from: nat, a: byte, b: byte): (r: nat)
    requires from <= |s|
    ensures from <= r <= |s|
    ensures r < |s| ==> s[r] == a || s[r] == b
    ensures forall i :: from <= i < r ==> s[i] != a && s[i] != b
    decreases |s| - from
  {
    if from == |s| || s[from] == a || s[from] == b then from else FindEither(s, from + 1, a, b)
  }

  /** Find is determined by its contract: a position holding `b` with no `b`
      between `from` and it is the answer. */
  lemma FindIs(s: seq<byte>, from: nat, b: byte, k: nat)
    requires from <= k <= |s|
    requires k < |s| ==> s[k] == b
    requires forall i :: from <= i < k ==> s[i] != b
    ensures Find(s, from, b) == k
  {
  }

  /** The same for FindEither. */
  lemma FindEitherIs(s: seq<byte>, from: nat, a: byte, b: byte, k: nat)
    requires from <= k <= |s|
    requires k < |s| ==> s[k] == a || s[k] == b
    requires forall i :: from <= i < k ==> s[i] != a && s[i] != b
    ensures FindEither(s, from, a, b) == k
  {
  }

  /** Searching a + b from inside a, where a holds no `x` from `from` on and b
      starts with `x`, stops at the seam. */
  lemma FindAtSeam(a: seq<byte>, b: seq<byte>, from: nat, x: byte)
    requires from <= |a|
    requires x !in a[from..]
    requires b != [] && b[0] == x
    ensures Find(a + b, from, x) == |a|
  {
    forall i | from <= i < |a|
      ensures (a + b)[i] != x
    {
      assert (a + b)[i] == a[from..][i - from];
    }
    FindIs(a + b, from, x, |a|);
  }

  /** The same for FindEither. */
  lemma FindEitherAtSeam(a: seq<byte>, b: seq<byte>, from: nat, x: byte, y: byte)
    requires from <= |a|
    requires x !in a[from..] && y !in a[from..]
    requires b != [] && (b[0] == x || b[0] == y)
    ensures FindEither(a + b, from, x, y) == |a|
  {
    forall i | from <= i < |a|
      ensures (a + b)[i] != x && (a + b)[i] != y
    {
      assert (a + b)[i] == a[from..][i - from];
    }
    FindEitherIs(a + b, from, x, y, |a|);
  }

  /** A stretch in which no position holds `b` is a slice without `b`. */
  lemma NotInSlice(s: seq<byte>, from: nat, to: nat, b: byte)
    requires from <= to <= |s|
    requires forall i :: from <= i < to ==> s[i] != b
    ensures b !in s[from..to]
  {
    forall k | 0 <= k < to - from
      ensures s[from..to][k] != b
    {
      assert s[from..to][k] == s[from + k];
    }
  }

  /** A slice split around one of its positions. */
  lemma SliceAround(s: seq<byte>, a: nat, j: nat, c: nat)
    requires a <= j < c <= |s|
    ensures s[a..c] == s[a..j] + [s[j]] + s[j + 1..c]
  {
    assert s[a..c] == s[a..j] + s[j..c];
    assert s[j..c] == [s[j]] + s[j + 1..c];
  }

  /** Moving the head of a non-empty sequence onto the end of another. */
  lemma AppendHead<T>(done: seq<T>, rest: seq<T>)
    requires rest != []
    ensures done + [rest[0]] + rest[1..] == done + rest
  {
    assert rest == [rest[0]] + rest[1..];
  }
}
