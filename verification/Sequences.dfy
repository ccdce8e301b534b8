/** Sequences with an entry left out. */
module Sequences {
  ghost function Without<T>(s: seq<T>, k: nat): (r: seq<T>)
    requires k < |s|
    ensures |r| == |s| - 1
    ensures forall i, j :: 0 <= i < |r| && 0 <= j < |s| && j == (if i < k then i else i + 1) ==> r[i] == s[j]
  {
    s[..k] + s[k + 1..]
  }

  lemma Assoc<T>(a: seq<T>, b: seq<T>, c: seq<T>)
    ensures a + (b + c) == a + b + c
    ensures a + [] == a && [] + a == a
  {
  }
}
