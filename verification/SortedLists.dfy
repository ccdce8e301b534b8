/** Comparison functions, and association lists sorted by one.

    The library orders values through a caller's function that returns a negative, zero or
    positive number. The values are machine words, so there are finitely many of them, and a
    total preorder on them is the same thing as a rank: `cmp(a, b)` has the sign of
    `rank(a) - rank(b)`. Distinct keys may share a rank; "equal" always means "compares as zero".
 */
module Comparators {

  function Sign(x: int): int {
    if x < 0 then -1 else if x > 0 then 1 else 0
  }

  ghost predicate RankedBy<K(!new)>(cmp: (K, K) -> int, rank: K -> int) {
    forall a, b :: Sign(cmp(a, b)) == Sign(rank(a) - rank(b))
  }

  lemma Compared<K(!new)>(cmp: (K, K) -> int, rank: K -> int, a: K, b: K)
    requires RankedBy(cmp, rank)
    ensures (cmp(a, b) == 0 <==> rank(a) == rank(b)) && (cmp(a, b) < 0 <==> rank(a) < rank(b))
  {
  }
}

module SortedLists {
  import opened Sequences
  import opened Options
  import opened Comparators

  datatype Entry<K, V> = Entry(key: K, value: V)

  ghost predicate StrictlySorted<K, V>(rank: K -> int, s: seq<Entry<K, V>>) {
    forall i, j :: 0 <= i < j < |s| ==> rank(s[i].key) < rank(s[j].key)
  }

  /** The entries of `s` that compare with `k` the way `side` says: `1` keeps those `k` is above,
      `0` those equal to it, `-1` those it is below. */
  ghost function Part<K, V>(rank: K -> int, s: seq<Entry<K, V>>, k: K, side: int): seq<Entry<K, V>> {
    if s == [] then []
    else (if Sign(rank(k) - rank(s[0].key)) == side then [s[0]] else []) + Part(rank, s[1..], k, side)
  }

  /** The list as a dictionary. */
  ghost function Lookup<K, V>(rank: K -> int, s: seq<Entry<K, V>>, k: K): Option<V> {
    var same := Part(rank, s, k, 0);
    if same == [] then None else Some(same[0].value)
  }

  /** Storing keeps the key object that is already there and replaces its value. */
  ghost function Store<K, V>(rank: K -> int, s: seq<Entry<K, V>>, k: K, v: V): seq<Entry<K, V>> {
    var same := Part(rank, s, k, 0);
    Part(rank, s, k, 1) + [Entry(if same == [] then k else same[0].key, v)] + Part(rank, s, k, -1)
  }

  ghost function Erase<K, V>(rank: K -> int, s: seq<Entry<K, V>>, k: K): seq<Entry<K, V>> {
    Part(rank, s, k, 1) + Part(rank, s, k, -1)
  }

  lemma {:induction false} PartConcat<K, V>(rank: K -> int, a: seq<Entry<K, V>>, b: seq<Entry<K, V>>, k: K, side: int)
    ensures Part(rank, a + b, k, side) == Part(rank, a, k, side) + Part(rank, b, k, side)
  {
    if a == [] {
      assert a + b == b;
    } else {
      PartConcat(rank, a[1..], b, k, side);
      assert (a + b)[1..] == a[1..] + b && (a + b)[0] == a[0];
      var head := if Sign(rank(k) - rank(a[0].key)) == side then [a[0]] else [];
      assert head + (Part(rank, a[1..], k, side) + Part(rank, b, k, side))
          == (head + Part(rank, a[1..], k, side)) + Part(rank, b, k, side);
    }
  }

  /** A list that lies wholly on one side of `k` is its own part. */
  lemma {:induction false} PartUniform<K, V>(rank: K -> int, s: seq<Entry<K, V>>, k: K, here: int, side: int)
    requires forall i :: 0 <= i < |s| ==> Sign(rank(k) - rank(s[i].key)) == here
    ensures Part(rank, s, k, side) == if side == here then s else []
  {
    if s != [] {
      PartUniform(rank, s[1..], k, here, side);
      assert s == [s[0]] + s[1..];
    }
  }

  lemma PartOne<K, V>(rank: K -> int, x: Entry<K, V>, k: K, side: int)
    ensures Part(rank, [x], k, side) == if Sign(rank(k) - rank(x.key)) == side then [x] else []
  {
    assert [x][1..] == [];
  }

  /** Splitting around an entry `x` of a sorted list: where `k` lies relative to `x` decides
      everything about the half `k` is not in. */
  lemma PartAround<K, V>(rank: K -> int, l: seq<Entry<K, V>>, x: Entry<K, V>, r: seq<Entry<K, V>>, k: K, side: int)
    requires StrictlySorted(rank, l + [x] + r)
    ensures Part(rank, l + [x] + r, k, side)
         == Part(rank, l, k, side) + (if Sign(rank(k) - rank(x.key)) == side then [x] else []) + Part(rank, r, k, side)
    ensures rank(k) <= rank(x.key) ==> Part(rank, r, k, side) == if side == -1 then r else []
    ensures rank(k) >= rank(x.key) ==> Part(rank, l, k, side) == if side == 1 then l else []
  {
    hide Part;
    var s := l + [x] + r;
    assert s[|l|] == x;
    PartOne(rank, x, k, side);
    PartConcat(rank, l + [x], r, k, side);
    PartConcat(rank, l, [x], k, side);
    if rank(k) <= rank(x.key) {
      assert forall i :: 0 <= i < |r| ==> s[|l| + 1 + i] == r[i];
      PartUniform(rank, r, k, -1, side);
    }
    if rank(k) >= rank(x.key) {
      assert forall i :: 0 <= i < |l| ==> s[i] == l[i];
      PartUniform(rank, l, k, 1, side);
    }
  }

  lemma SortedConcat<K, V>(rank: K -> int, a: seq<Entry<K, V>>, b: seq<Entry<K, V>>)
    requires StrictlySorted(rank, a + b)
    ensures StrictlySorted(rank, a) && StrictlySorted(rank, b)
  {
    assert forall i :: 0 <= i < |a| ==> (a + b)[i] == a[i];
    assert forall i :: 0 <= i < |b| ==> (a + b)[|a| + i] == b[i];
  }

  /** The three operations on a list split around `x`, when `k` lies to its left... */
  lemma OperationsLeft<K, V>(rank: K -> int, l: seq<Entry<K, V>>, x: Entry<K, V>, r: seq<Entry<K, V>>, k: K, v: V)
    requires StrictlySorted(rank, l + [x] + r) && rank(k) < rank(x.key)
    ensures Lookup(rank, l + [x] + r, k) == Lookup(rank, l, k)
    ensures Store(rank, l + [x] + r, k, v) == Store(rank, l, k, v) + [x] + r
    ensures Erase(rank, l + [x] + r, k) == Erase(rank, l, k) + [x] + r
  {
    PartAround(rank, l, x, r, k, 1);
    PartAround(rank, l, x, r, k, 0);
    PartAround(rank, l, x, r, k, -1);
    var lo, same, hi := Part(rank, l, k, 1), Part(rank, l, k, 0), Part(rank, l, k, -1);
    var m := lo + [Entry(if same == [] then k else same[0].key, v)];
    Assoc(lo, [], []);
    Assoc(same, [], []);
    Assoc(m, hi + [x], r);
    Assoc(m, hi, [x]);
    Assoc(lo, hi + [x], r);
    Assoc(lo, hi, [x]);
  }

  /** ... to its right ... */
  lemma OperationsRight<K, V>(rank: K -> int, l: seq<Entry<K, V>>, x: Entry<K, V>, r: seq<Entry<K, V>>, k: K, v: V)
    requires StrictlySorted(rank, l + [x] + r) && rank(k) > rank(x.key)
    ensures Lookup(rank, l + [x] + r, k) == Lookup(rank, r, k)
    ensures Store(rank, l + [x] + r, k, v) == l + [x] + Store(rank, r, k, v)
    ensures Erase(rank, l + [x] + r, k) == l + [x] + Erase(rank, r, k)
  {
    PartAround(rank, l, x, r, k, 1);
    PartAround(rank, l, x, r, k, 0);
    PartAround(rank, l, x, r, k, -1);
    var lo, same, hi := Part(rank, r, k, 1), Part(rank, r, k, 0), Part(rank, r, k, -1);
    var m := [Entry(if same == [] then k else same[0].key, v)];
    Assoc(same, [], []);
    Assoc(hi, [], []);
    Assoc(l + [x], lo + m, hi);
    Assoc(l + [x], lo, m);
    Assoc(l + [x], lo, hi);
  }

  /** ... and when it is the key of `x`. */
  lemma OperationsHere<K, V>(rank: K -> int, l: seq<Entry<K, V>>, x: Entry<K, V>, r: seq<Entry<K, V>>, k: K, v: V)
    requires StrictlySorted(rank, l + [x] + r) && rank(k) == rank(x.key)
    ensures Lookup(rank, l + [x] + r, k) == Some(x.value)
    ensures Store(rank, l + [x] + r, k, v) == l + [Entry(x.key, v)] + r
    ensures Erase(rank, l + [x] + r, k) == l + r
  {
    PartAround(rank, l, x, r, k, 1);
    PartAround(rank, l, x, r, k, 0);
    PartAround(rank, l, x, r, k, -1);
    Assoc(l, [], []);
    Assoc(r, [], []);
    Assoc([x], [], []);
  }

  lemma {:induction false} PartSide<K, V>(rank: K -> int, s: seq<Entry<K, V>>, k: K, side: int)
    ensures forall i :: 0 <= i < |Part(rank, s, k, side)| ==> Sign(rank(k) - rank(Part(rank, s, k, side)[i].key)) == side
  {
    if s != [] { PartSide(rank, s[1..], k, side); }
  }

  /** A sorted list is its lower part, its equal part and its upper part, in that order, and at
      most one entry is equal. */
  lemma {:induction false} PartsRebuild<K, V>(rank: K -> int, s: seq<Entry<K, V>>, k: K)
    requires StrictlySorted(rank, s)
    ensures s == Part(rank, s, k, 1) + Part(rank, s, k, 0) + Part(rank, s, k, -1)
    ensures |Part(rank, s, k, 0)| <= 1
  {
    if s != [] {
      var x, rest := s[0], s[1..];
      assert s == [x] + rest;
      PartsRebuild(rank, rest, k);
      var lo, same, hi := Part(rank, rest, k, 1), Part(rank, rest, k, 0), Part(rank, rest, k, -1);
      Assoc([x], lo + same, hi);
      Assoc([x], lo, same);
      if rank(k) <= rank(x.key) {
        PartUniform(rank, rest, k, -1, 1);
        PartUniform(rank, rest, k, -1, 0);
        PartUniform(rank, rest, k, -1, -1);
      }
    }
  }

  /** Storing and erasing keep the list sorted. */
  lemma StoreEraseSorted<K, V>(rank: K -> int, s: seq<Entry<K, V>>, k: K, v: V)
    requires StrictlySorted(rank, s)
    ensures StrictlySorted(rank, Store(rank, s, k, v))
    ensures StrictlySorted(rank, Erase(rank, s, k))
  {
    hide Part, StrictlySorted;
    PartsRebuild(rank, s, k);
    PartSide(rank, s, k, 1);
    PartSide(rank, s, k, 0);
    PartSide(rank, s, k, -1);
    var lo, same, hi := Part(rank, s, k, 1), Part(rank, s, k, 0), Part(rank, s, k, -1);
    SortedConcat(rank, lo + same, hi);
    SortedConcat(rank, lo, same);
    SortedJoin(rank, lo, [], hi, rank(k));
    assert lo + [] + hi == lo + hi;
    SortedJoin(rank, lo, [Entry(if same == [] then k else same[0].key, v)], hi, rank(k));
  }

  lemma SortedJoin<K, V>(rank: K -> int, a: seq<Entry<K, V>>, m: seq<Entry<K, V>>, b: seq<Entry<K, V>>, pivot: int)
    requires StrictlySorted(rank, a) && StrictlySorted(rank, b)
    requires forall i :: 0 <= i < |a| ==> rank(a[i].key) < pivot
    requires |m| <= 1 && forall i :: 0 <= i < |m| ==> rank(m[i].key) == pivot
    requires forall i :: 0 <= i < |b| ==> pivot < rank(b[i].key)
    ensures StrictlySorted(rank, a + m + b)
  {
  }

  /** Looking up `q` finds the value of the entry equal to it, and `None` when there is none. */
  lemma LookupIs<K, V>(rank: K -> int, s: seq<Entry<K, V>>, q: K)
    requires StrictlySorted(rank, s)
    ensures Lookup(rank, s, q) == None <==> forall i :: 0 <= i < |s| ==> rank(s[i].key) != rank(q)
    ensures forall i :: 0 <= i < |s| && rank(s[i].key) == rank(q) ==> Lookup(rank, s, q) == Some(s[i].value)
  {
    PartsRebuild(rank, s, q);
    PartSide(rank, s, q, 1);
    PartSide(rank, s, q, 0);
    PartSide(rank, s, q, -1);
    var lo, same, hi := Part(rank, s, q, 1), Part(rank, s, q, 0), Part(rank, s, q, -1);
    forall i | 0 <= i < |s|
      ensures rank(s[i].key) == rank(q) ==> i == |lo| && same == [s[i]]
    {
      assert i < |lo| ==> s[i] == lo[i];
      assert i >= |lo| + |same| ==> s[i] == hi[i - |lo| - |same|];
    }
    if same != [] { assert s[|lo|] == same[0]; }
  }

  /** The dictionary laws: storing and erasing act on exactly the keys that compare equal to `k`. */
  lemma DictionaryLaws<K, V>(rank: K -> int, s: seq<Entry<K, V>>, k: K, v: V, q: K)
    requires StrictlySorted(rank, s)
    ensures Lookup(rank, Store(rank, s, k, v), q) == if rank(q) == rank(k) then Some(v) else Lookup(rank, s, q)
    ensures Lookup(rank, Erase(rank, s, k), q) == if rank(q) == rank(k) then None else Lookup(rank, s, q)
  {
    PartsRebuild(rank, s, k);
    PartSide(rank, s, k, 1);
    PartSide(rank, s, k, 0);
    PartSide(rank, s, k, -1);
    var lo, same, hi := Part(rank, s, k, 1), Part(rank, s, k, 0), Part(rank, s, k, -1);
    var mid := [Entry(if same == [] then k else same[0].key, v)];
    PartConcat(rank, lo + same, hi, q, 0);
    PartConcat(rank, lo, same, q, 0);
    PartConcat(rank, lo + mid, hi, q, 0);
    PartConcat(rank, lo, mid, q, 0);
    PartConcat(rank, lo, hi, q, 0);
    if rank(q) == rank(k) {
      PartUniform(rank, lo, q, 1, 0);
      PartUniform(rank, hi, q, -1, 0);
    } else {
      assert Part(rank, same, q, 0) == [];
    }
  }

  /** From `s` to `t` every key equal to `k` gets that answer, and every other key keeps its own. */
  ghost predicate AnswersOnly<K(!new), V>(rank: K -> int, s: seq<Entry<K, V>>, t: seq<Entry<K, V>>, k: K,
      answer: Option<V>)
  {
    forall q :: Lookup(rank, t, q) == (if rank(q) == rank(k) then answer else Lookup(rank, s, q))
  }

  lemma StoreAnswers<K(!new), V>(rank: K -> int, s: seq<Entry<K, V>>, k: K, v: V)
    requires StrictlySorted(rank, s)
    ensures AnswersOnly(rank, s, Store(rank, s, k, v), k, Some(v))
  {
    forall q
      ensures Lookup(rank, Store(rank, s, k, v), q) == if rank(q) == rank(k) then Some(v) else Lookup(rank, s, q)
    {
      DictionaryLaws(rank, s, k, v, q);
    }
  }

  lemma EraseAnswers<K(!new), V>(rank: K -> int, s: seq<Entry<K, V>>, k: K)
    requires StrictlySorted(rank, s)
    ensures AnswersOnly(rank, s, Erase(rank, s, k), k, None)
  {
    forall q
      ensures Lookup(rank, Erase(rank, s, k), q) == if rank(q) == rank(k) then None else Lookup(rank, s, q)
    {
      if s != [] {
        DictionaryLaws(rank, s, k, s[0].value, q);
      }
    }
  }
}
