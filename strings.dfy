/** Search helpers shared by the byte-level reader, the escape codec and the path rules. */
module Strings {

  /** QByteArray::indexOf and QString::indexOf(c, from): the first index at or
      after `from` holding `c`, or -1. */
  function IndexOf<T(==)>(s: seq<T>, c: T, from: nat): (r: int)
    decreases |s| - from
    ensures r == -1 || (from <= r < |s| && s[r] == c)
    ensures forall k :: from <= k < |s| && (r == -1 || k < r) ==> s[k] != c
  {
    if from >= |s| then -1
    else if s[from] == c then from
    else IndexOf(s, c, from + 1)
  }

  /** QString::startsWith */
  predicate StartsWith(s: string, p: string)
  {
    |p| <= |s| && s[..|p|] == p
  }
}
