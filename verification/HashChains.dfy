/** The bucket array of one hash base (base_hash.c) as a value: a chain of pairs per bucket.

    A key is what the caller's comparison function sees of it, so keys that compare as equal are
    equal here, and the hash function is a function of that.
 */
module HashChains {
  import opened Sequences

  datatype Pair<K, V> = Pair(key: K, value: V)

  type Chains<K, V> = seq<seq<Pair<K, V>>>

  ghost function Bucket<K, V>(hash: K -> nat, es: Chains<K, V>, k: K): (b: nat)
    requires es != []
    ensures b < |es|
  {
    hash(k) % |es|
  }

  /** Every pair sits in its key's bucket and says what `m` says. */
  ghost predicate Sound<K, V>(hash: K -> nat, es: Chains<K, V>, m: map<K, V>) {
    forall b, j :: 0 <= b < |es| && 0 <= j < |es[b]| ==>
      Bucket(hash, es, es[b][j].key) == b && es[b][j].key in m && m[es[b][j].key] == es[b][j].value
  }

  /** No chain holds a key twice. */
  ghost predicate Unique<K, V>(es: Chains<K, V>) {
    forall b, i, j :: 0 <= b < |es| && 0 <= i < j < |es[b]| ==> es[b][i].key != es[b][j].key
  }

  ghost predicate InChain<K, V>(c: seq<Pair<K, V>>, k: K) {
    exists j :: 0 <= j < |c| && c[j].key == k
  }

  /** Every key of `m` is in its bucket. */
  ghost predicate Complete<K, V>(hash: K -> nat, es: Chains<K, V>, m: map<K, V>) {
    forall k :: k in m ==> es != [] && InChain(es[Bucket(hash, es, k)], k)
  }

  /** The chains hold exactly the map `m`, each key once and where a lookup expects it. */
  ghost predicate Holds<K, V>(hash: K -> nat, es: Chains<K, V>, m: map<K, V>) {
    Sound(hash, es, m) && Unique(es) && Complete(hash, es, m)
  }

  /** How far a walk along a chain comes before it meets `k`. */
  ghost function Position<K, V>(c: seq<Pair<K, V>>, k: K): (j: nat)
    ensures j <= |c| && (j < |c| ==> c[j].key == k)
    ensures forall i :: 0 <= i < j ==> c[i].key != k
  {
    if c == [] || c[0].key == k then 0 else 1 + Position(c[1..], k)
  }

  /** A lookup of `k` walks one chain: it meets `k` there exactly when `k` is in the map, once, with
      the map's value. */
  lemma LookupIsExact<K, V>(hash: K -> nat, es: Chains<K, V>, m: map<K, V>, k: K)
    requires Holds(hash, es, m) && es != []
    ensures var c := es[Bucket(hash, es, k)];
      && (InChain(c, k) <==> k in m)
      && (forall j :: 0 <= j < |c| && c[j].key == k ==> c[j].value == m[k])
  {
  }

  /** A pair put at the head of its chain. */
  lemma Added<K, V>(hash: K -> nat, es: Chains<K, V>, m: map<K, V>, k: K, v: V)
    requires Holds(hash, es, m) && es != [] && k !in m
    ensures var b := Bucket(hash, es, k); Holds(hash, es[b := [Pair(k, v)] + es[b]], m[k := v])
  {
    var b := Bucket(hash, es, k);
    var c := [Pair(k, v)] + es[b];
    var fs := es[b := c];
    forall q | q in m[k := v] ensures InChain(fs[Bucket(hash, fs, q)], q) {
      if q == k {
        assert c[0].key == k;
      } else {
        var j :| 0 <= j < |es[Bucket(hash, es, q)]| && es[Bucket(hash, es, q)][j].key == q;
        if Bucket(hash, es, q) == b { assert c[j + 1].key == q; }
      }
    }
  }

  /** The pair at position `j` of chain `b` unlinked. */
  lemma Dropped<K, V>(hash: K -> nat, es: Chains<K, V>, m: map<K, V>, b: nat, j: nat)
    requires Holds(hash, es, m) && b < |es| && j < |es[b]|
    ensures es[b][j].key in m && Holds(hash, es[b := Without(es[b], j)], m - {es[b][j].key})
  {
    var k := es[b][j].key;
    var c := Without(es[b], j);
    var fs := es[b := c];
    assert forall i :: 0 <= i < |c| ==> c[i] == es[b][if i < j then i else i + 1];
    forall q | q in m - {k} ensures InChain(fs[Bucket(hash, fs, q)], q) {
      var i :| 0 <= i < |es[Bucket(hash, es, q)]| && es[Bucket(hash, es, q)][i].key == q;
      if Bucket(hash, es, q) == b { assert c[if i < j then i else i - 1].key == q; }
    }
  }

  /** The value at position `j` of chain `b` replaced. */
  lemma Replaced<K, V>(hash: K -> nat, es: Chains<K, V>, m: map<K, V>, b: nat, j: nat, v: V)
    requires Holds(hash, es, m) && b < |es| && j < |es[b]|
    ensures var k := es[b][j].key; Holds(hash, es[b := es[b][j := Pair(k, v)]], m[k := v])
  {
    var k := es[b][j].key;
    var c := es[b][j := Pair(k, v)];
    var fs := es[b := c];
    forall q | q in m[k := v] ensures InChain(fs[Bucket(hash, fs, q)], q) {
      var i :| 0 <= i < |es[Bucket(hash, es, q)]| && es[Bucket(hash, es, q)][i].key == q;
      if Bucket(hash, es, q) == b { assert c[i].key == q; }
    }
  }

  lemma EmptyChains<K, V>(hash: K -> nat, es: Chains<K, V>)
    requires forall b :: 0 <= b < |es| ==> es[b] == []
    ensures Holds(hash, es, map[])
  {
  }

  lemma NoPairs<K, V>(hash: K -> nat, es: Chains<K, V>, m: map<K, V>)
    requires Holds(hash, es, m)
    ensures m == map[] <==> forall b :: 0 <= b < |es| ==> es[b] == []
  {
    if b :| 0 <= b < |es| && es[b] != [] {
      assert es[b][0].key in m;
    }
    if k :| k in m {
      assert InChain(es[Bucket(hash, es, k)], k);
    }
  }

  // ---- counting ----

  ghost function Total<K, V>(es: Chains<K, V>): nat {
    if es == [] then 0 else |es[0]| + Total(es[1..])
  }

  lemma {:induction false} TotalAfter<K, V>(es: Chains<K, V>, b: nat, c: seq<Pair<K, V>>)
    requires b < |es|
    ensures Total(es[b := c]) == Total(es) - |es[b]| + |c|
  {
    if b > 0 {
      assert es[b := c][1..] == es[1..][b - 1 := c];
      TotalAfter(es[1..], b - 1, c);
    } else {
      assert es[b := c][1..] == es[1..];
    }
  }

  lemma {:induction false} TotalOfNone<K, V>(es: Chains<K, V>)
    requires forall b :: 0 <= b < |es| ==> es[b] == []
    ensures Total(es) == 0
  {
    if es != [] { TotalOfNone(es[1..]); }
  }

  /** The chain lengths add up to the number of keys. */
  lemma {:induction false} TotalIsSize<K, V>(hash: K -> nat, es: Chains<K, V>, m: map<K, V>)
    requires Holds(hash, es, m)
    ensures Total(es) == |m|
    decreases |m|
  {
    NoPairs(hash, es, m);
    if m == map[] {
      TotalOfNone(es);
    } else {
      var b :| 0 <= b < |es| && es[b] != [];
      Dropped(hash, es, m, b, 0);
      var k := es[b][0].key;
      assert |m - {k}| == |m| - 1 by { MapMinus(m, k); }
      TotalIsSize(hash, es[b := Without(es[b], 0)], m - {k});
      TotalAfter(es, b, Without(es[b], 0));
    }
  }

  lemma MapMinus<K, V>(m: map<K, V>, k: K)
    requires k in m
    ensures |m - {k}| == |m| - 1
  {
    assert (m - {k}).Keys == m.Keys - {k};
  }

  // ---- maps with disjoint keys, one per base ----

  /** Moving a pair from one map to the other does not change their union. */
  lemma MovedBetween<K, V>(m: map<K, V>, n: map<K, V>, k: K)
    requires k in m && m.Keys !! n.Keys
    ensures (m - {k}) + n[k := m[k]] == m + n && (m - {k}).Keys !! n[k := m[k]].Keys
  {
  }

  lemma UnionPlus<K, V>(m: map<K, V>, n: map<K, V>, k: K, v: V)
    requires k !in m && k !in n
    ensures m[k := v] + n == (m + n)[k := v] && m + n[k := v] == (m + n)[k := v]
  {
  }

  lemma UnionSize<K, V>(m: map<K, V>, n: map<K, V>, k: K, v: V)
    requires k !in m
    ensures |m[k := v]| == |m| + 1 && |m| <= |m + n|
  {
    assert m[k := v].Keys == m.Keys + {k};
    Subset(m.Keys, (m + n).Keys);
  }

  lemma {:induction false} Subset<T>(a: set<T>, b: set<T>)
    requires a <= b
    ensures |a| <= |b|
  {
    if x :| x in a { Subset(a - {x}, b - {x}); }
  }

  lemma UnionMinus<K, V>(m: map<K, V>, n: map<K, V>, k: K)
    requires m.Keys !! n.Keys
    ensures k in m ==> (m - {k}) + n == (m + n) - {k}
    ensures k in n ==> m + (n - {k}) == (m + n) - {k}
  {
  }

  lemma UnionSet<K, V>(m: map<K, V>, n: map<K, V>, k: K, v: V)
    requires m.Keys !! n.Keys
    ensures k in m ==> m[k := v] + n == (m + n)[k := v] && m[k := v].Keys == m.Keys
    ensures k in n ==> m + n[k := v] == (m + n)[k := v] && n[k := v].Keys == n.Keys
  {
  }
}
