/** Bytes. */
module Bytes {
  newtype byte = x: int | 0 <= x < 256

  datatype Option<T> = None | Some(value: T)

  function Min(a: int, b: int): int {
    if a < b then a else b
  }

  /** Appending in two steps. */
  lemma AppendTwice(s: seq<byte>, d: seq<byte>, k: nat)
    requires k <= |d|
    ensures s + d[..k] + d[k..] == s + d
  {
  }

  /** Prepending in two steps, the later piece first. */
  lemma PrependTwice(d: seq<byte>, s: seq<byte>, k: nat)
    requires k <= |d|
    ensures d[..k] + (d[k..] + s) == d + s
  {
  }

  /** Dropping `a` and part of `b`. */
  lemma DropInto(a: seq<byte>, b: seq<byte>, c: seq<byte>, n: nat)
    requires n <= |b|
    ensures (a + b + c)[|a| + n..] == b[n..] + c
  {
  }

  /** Taking `a` and part of `b`. */
  lemma TakeInto(a: seq<byte>, b: seq<byte>, c: seq<byte>, n: nat)
    requires n <= |b|
    ensures (a + b + c)[..|a| + n] == a + b[..n]
  {
  }

  lemma AppendPieces(s: seq<byte>, a: seq<byte>, b: seq<byte>)
    ensures s + a + b == s + (a + b)
  {
  }

  lemma SplitPiece(a: seq<byte>, b: seq<byte>, c: seq<byte>, n: nat)
    requires n <= |b|
    ensures (a + b[..n]) + (b[n..] + c) == a + b + c
  {
  }

  lemma SubSlice(s: seq<byte>, a: nat, b: nat, c: nat, d: nat)
    requires a <= b <= |s| && c <= d <= b - a
    ensures s[a..b][c..d] == s[a + c..a + d]
  {
    var x, y := s[a..b][c..d], s[a + c..a + d];
    forall i | 0 <= i < |x|
      ensures x[i] == y[i]
    {
    }
  }
}
