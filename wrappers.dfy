/** Option and Result: the model's way of writing JavaScript's `undefined`/`null`
    and thrown errors as values. */
module Wrappers {

  datatype Option<+T> = None | Some(value: T) {
    function GetOr(default: T): T {
      match this
      case Some(v) => v
      case None => default
    }
  }

  datatype Result<+R, +E> = Success(value: R) | Failure(error: E)

  /** Two appends of one element each are one append of both. */
  lemma AppendTwo<T>(s: seq<T>, x: T, y: T)
    ensures s + [x] + [y] == s + [x, y]
  {
  }

  lemma AppendAssoc<T>(a: seq<T>, b: seq<T>, c: seq<T>)
    ensures a + b + c == a + (b + c)
  {
  }

  /** What follows a prefix of a concatenation is the other part. */
  lemma AfterPrefix<T>(a: seq<T>, b: seq<T>)
    ensures (a + b)[|a|..] == b && (a + b)[..|a|] == a
  { }

  /** A key written twice holds the second value. */
  lemma UpdateTwice<K, V>(m: map<K, V>, k: K, a: V, b: V)
    ensures m[k := a][k := b] == m[k := b]
  { }

  /** Two slices from the same start agree on their common prefix. */
  lemma SlicePrefix<T>(s: seq<T>, q: nat, e: nat, h: nat)
    requires q + h <= e <= |s|
    ensures s[q..e][..h] == s[q..][..h] == s[q..q + h]
  { }
}
