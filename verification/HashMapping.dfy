/** mapHashTable of base_hash.c as a value: which pairs the caller's function meets, and how often.

    The caller's function fails on some pairs and not on others: `good` says on which it does not.
 */
module HashMapping {
  import opened Sequences
  import opened HashChains
  import opened HashSpec

  /** The pairs met along a chain: a failure that is not ignored ends the chain. */
  function ChainVisits<K, V>(c: seq<Pair<K, V>>, good: Pair<K, V> -> bool, ignore: bool): (v: seq<Pair<K, V>>) {
    if c == [] then [] else if ignore || good(c[0]) then [c[0]] + ChainVisits(c[1..], good, ignore) else [c[0]]
  }

  /** The pairs met in a bucket array: a failure does not keep it from the next chain. */
  ghost function ArrayVisits<K, V>(es: Chains<K, V>, good: Pair<K, V> -> bool, ignore: bool): (v: seq<Pair<K, V>>) {
    if es == [] then [] else ChainVisits(es[0], good, ignore) + ArrayVisits(es[1..], good, ignore)
  }

  /** `error` after these calls of the caller's function: what the last of them said. */
  predicate NoError<K, V>(v: seq<Pair<K, V>>, good: Pair<K, V> -> bool, ignore: bool) {
    ignore || v == [] || good(v[|v| - 1])
  }

  /** A base that counts no items is passed over. */
  ghost function BaseVisits<K, V>(b: Base<K, V>, good: Pair<K, V> -> bool, ignore: bool): (v: seq<Pair<K, V>>) {
    if b.items > 0 then ArrayVisits(b.chains, good, ignore) else []
  }

  /** The current base and, once a rehash has begun, the one that takes insertions. */
  ghost function Visits<K, V>(t: Table<K, V>, good: Pair<K, V> -> bool, ignore: bool): (r: (seq<Pair<K, V>>, bool)) {
    var first := BaseVisits(Current(t), good, ignore);
    if !t.rehashing || !NoError(first, good, ignore) then (first, NoError(first, good, ignore))
    else
      var second := BaseVisits(t.base2, good, ignore);
      (first + second, NoError(second, good, ignore))
  }

  // ---- which pairs are met ----

  ghost function PairsOf<K(!new), V>(m: map<K, V>): multiset<Pair<K, V>> {
    multiset(set k | k in m :: Pair(k, m[k]))
  }

  /** Nothing stops the mapping. */
  ghost predicate Unhindered<K(!new), V(!new)>(good: Pair<K, V> -> bool, ignore: bool) {
    ignore || forall p :: good(p)
  }

  lemma {:induction false} WholeChain<K(!new), V(!new)>(c: seq<Pair<K, V>>, good: Pair<K, V> -> bool, ignore: bool)
    requires Unhindered(good, ignore)
    ensures ChainVisits(c, good, ignore) == c
  {
    if c != [] {
      WholeChain(c[1..], good, ignore);
    }
  }

  lemma VisitsHead<K(!new), V(!new)>(es: Chains<K, V>, good: Pair<K, V> -> bool, ignore: bool)
    requires Unhindered(good, ignore) && es != []
    ensures multiset(ArrayVisits(es, good, ignore)) == multiset(es[0]) + multiset(ArrayVisits(es[1..], good, ignore))
  {
    hide Unhindered;
    WholeChain(es[0], good, ignore);
  }

  lemma {:induction false} VisitsAfter<K(!new), V(!new)>(es: Chains<K, V>, b: nat, c: seq<Pair<K, V>>,
      good: Pair<K, V> -> bool, ignore: bool)
    requires Unhindered(good, ignore) && b < |es|
    ensures multiset(ArrayVisits(es[b := c], good, ignore)) + multiset(es[b])
         == multiset(ArrayVisits(es, good, ignore)) + multiset(c)
  {
    hide Unhindered, ArrayVisits;
    VisitsHead(es, good, ignore);
    VisitsHead(es[b := c], good, ignore);
    if b > 0 {
      assert es[b := c][1..] == es[1..][b - 1 := c];
      VisitsAfter(es[1..], b - 1, c, good, ignore);
      Swapped(multiset(es[0]), multiset(ArrayVisits(es[b := c][1..], good, ignore)), multiset(es[b]),
        multiset(ArrayVisits(es[1..], good, ignore)), multiset(c));
    } else {
      assert es[b := c][1..] == es[1..];
    }
  }

  lemma Swapped<T>(a: multiset<T>, u: multiset<T>, x: multiset<T>, v: multiset<T>, y: multiset<T>)
    requires u + x == v + y
    ensures a + u + x == a + v + y
  {
    assert a + u + x == a + (u + x) && a + v + y == a + (v + y);
  }

  lemma Cancelled<T>(u: multiset<T>, p: multiset<T>, x: multiset<T>, v: multiset<T>)
    requires u + (p + x) == v + x
    ensures v == u + p
  {
    assert forall e :: (u + (p + x))[e] == u[e] + p[e] + x[e] && (v + x)[e] == v[e] + x[e];
  }

  lemma {:induction false} NoVisits<K, V>(es: Chains<K, V>, good: Pair<K, V> -> bool, ignore: bool)
    requires forall b :: 0 <= b < |es| ==> es[b] == []
    ensures ArrayVisits(es, good, ignore) == []
  {
    if es != [] {
      NoVisits(es[1..], good, ignore);
    }
  }

  lemma PairsMinus<K(!new), V>(m: map<K, V>, k: K)
    requires k in m
    ensures PairsOf(m) == PairsOf(m - {k}) + multiset{Pair(k, m[k])}
  {
    var p, n := Pair(k, m[k]), m - {k};
    var s, r := (set q | q in m :: Pair(q, m[q])), (set q | q in n :: Pair(q, n[q]));
    forall x ensures x in s <==> x in r || x == p {
      if x in s && x != p { assert x.key in n && n[x.key] == x.value; }
      if x in r { assert x.key in m && m[x.key] == x.value; }
    }
    assert s == r + {p} && p !in r;
  }

  lemma NoPairsOf<K(!new), V>()
    ensures PairsOf<K, V>(map[]) == multiset{}
  {
  }

  lemma SaysTheMap<K, V>(hash: K -> nat, es: Chains<K, V>, m: map<K, V>, b: nat, j: nat)
    requires Holds(hash, es, m) && b < |es| && j < |es[b]|
    ensures es[b][j].key in m && es[b][j] == Pair(es[b][j].key, m[es[b][j].key])
  {
  }

  /** A walk through all the chains meets every pair of the map once. */
  lemma {:induction false} EachOnce<K(!new), V(!new)>(hash: K -> nat, es: Chains<K, V>, m: map<K, V>,
      good: Pair<K, V> -> bool, ignore: bool)
    requires Holds(hash, es, m) && Unhindered(good, ignore)
    ensures multiset(ArrayVisits(es, good, ignore)) == PairsOf(m)
    decreases |m|
  {
    hide Unhindered, PairsOf, Holds, ArrayVisits;
    NoPairs(hash, es, m);
    if m == map[] {
      NoVisits(es, good, ignore);
      NoPairsOf<K, V>();
    } else {
      var b :| 0 <= b < |es| && es[b] != [];
      var k, rest := es[b][0].key, Without(es[b], 0);
      Dropped(hash, es, m, b, 0);
      SaysTheMap(hash, es, m, b, 0);
      MapMinus(m, k);
      assert es[b] == [Pair(k, m[k])] + rest;
      EachOnce(hash, es[b := rest], m - {k}, good, ignore);
      VisitsAfter(es, b, rest, good, ignore);
      PairsMinus(m, k);
      var p := Pair(k, m[k]);
      assert multiset(es[b]) == multiset{p} + multiset(rest);
      Cancelled(PairsOf(m - {k}), multiset{p}, multiset(rest), multiset(ArrayVisits(es, good, ignore)));
    }
  }

  lemma BaseMet<K(!new), V(!new)>(hash: K -> nat, b: Base<K, V>, good: Pair<K, V> -> bool, ignore: bool)
    requires BaseOk(hash, b) && Unhindered(good, ignore)
    ensures multiset(BaseVisits(b, good, ignore)) == if b.items > 0 then PairsOf(b.model) else multiset{}
    ensures NoError(BaseVisits(b, good, ignore), good, ignore)
  {
    hide Holds;
    EachOnce(hash, b.chains, b.model, good, ignore);
  }

  /** When nothing stops it, the mapping meets every pair of the first base once, and every pair of the
      second base once if that base counts any items; after the switch it meets the second base twice
      or not at all. */
  lemma MappingMeets<K(!new), V(!new)>(hash: K -> nat, t: Table<K, V>, good: Pair<K, V> -> bool, ignore: bool)
    requires Inv(hash, t) && Unhindered(good, ignore)
    ensures var (v, ok) := Visits(t, good, ignore);
      var second := if t.base2.items > 0 then PairsOf(t.base2.model) else multiset{};
      ok && multiset(v) == if t.onSecond then second + second else PairsOf(t.base1.model) + second
  {
    hide BaseOk, Unhindered, BaseVisits, PairsOf;
    BaseMet(hash, t.base1, good, ignore);
    BaseMet(hash, t.base2, good, ignore);
    NoPairsOf<K, V>();
  }

  lemma PairsOfUnion<K(!new), V>(m: map<K, V>, n: map<K, V>)
    requires m.Keys !! n.Keys
    ensures PairsOf(m + n) == PairsOf(m) + PairsOf(n)
  {
    var u := m + n;
    var s, a, b := (set q | q in u :: Pair(q, u[q])), (set q | q in m :: Pair(q, m[q])), (set q | q in n :: Pair(q, n[q]));
    forall x ensures x in s <==> x in a || x in b {
      if x in a || x in b { assert x.key in u && u[x.key] == x.value; }
    }
    assert a !! b;
    DisjointUnion(s, a, b);
  }

  lemma DisjointUnion<T>(s: set<T>, a: set<T>, b: set<T>)
    requires a !! b && forall x :: x in s <==> x in a || x in b
    ensures multiset(s) == multiset(a) + multiset(b)
  {
  }

  lemma SomePair<K(!new), V>(m: map<K, V>, k: K)
    requires k in m
    ensures PairsOf(m)[Pair(k, m[k])] == 1
  {
    assert Pair(k, m[k]) in set q | q in m :: Pair(q, m[q]);
  }

  /** It meets every pair of the table exactly once if and only if the bases have not been switched and
      the second base is empty or counts items, or the table is empty. */
  lemma MappingIsRightExactly<K(!new), V(!new)>(hash: K -> nat, t: Table<K, V>, good: Pair<K, V> -> bool, ignore: bool)
    requires Inv(hash, t) && Unhindered(good, ignore)
    ensures multiset(Visits(t, good, ignore).0) == PairsOf(Contents(t)) <==>
      if t.onSecond then Contents(t) == map[] else t.base2.model == map[] || t.base2.items > 0
  {
    hide BaseOk, Unhindered, Visits, PairsOf;
    var m, n := t.base1.model, t.base2.model;
    MappingMeets(hash, t, good, ignore);
    PairsOfUnion(m, n);
    NoPairsOf<K, V>();
    assert t.onSecond ==> m + n == n;
    if k :| k in n {
      SomePair(n, k);
      var p := Pair(k, n[k]);
      assert (PairsOf(n) + PairsOf(n))[p] == 2 && (PairsOf(m) + PairsOf(n))[p] == PairsOf(m)[p] + 1;
    } else {
      assert n == map[];
    }
  }

  // ---- which errors come back ----

  /** The error that comes back is that of the last call of the caller's function. */
  lemma ErrorIsTheLast<K, V>(t: Table<K, V>, good: Pair<K, V> -> bool, ignore: bool)
    ensures var (v, ok) := Visits(t, good, ignore); ok <==> ignore || v == [] || good(v[|v| - 1])
  {
    hide BaseVisits;
    var first, second := BaseVisits(Current(t), good, ignore), BaseVisits(t.base2, good, ignore);
    assert second == [] ==> first + second == first;
    assert second != [] ==> (first + second)[|first + second| - 1] == second[|second| - 1];
  }

  lemma {:induction false} VisitsConcat<K, V>(a: Chains<K, V>, b: Chains<K, V>, good: Pair<K, V> -> bool, ignore: bool)
    ensures ArrayVisits(a + b, good, ignore) == ArrayVisits(a, good, ignore) + ArrayVisits(b, good, ignore)
  {
    if a == [] {
      assert a + b == b;
    } else {
      assert (a + b)[1..] == a[1..] + b;
      VisitsConcat(a[1..], b, good, ignore);
      Assoc(ChainVisits(a[0], good, ignore), ArrayVisits(a[1..], good, ignore), ArrayVisits(b, good, ignore));
    }
  }

  lemma OnePair<K, V>(p: Pair<K, V>, good: Pair<K, V> -> bool)
    ensures ArrayVisits([[p]], good, false) == [p]
  {
    assert ChainVisits([p], good, false) == [p] by {
      if good(p) { assert ChainVisits([p][1..], good, false) == []; }
    }
    assert ArrayVisits([[p]][1..], good, false) == [];
  }

  /** So an error is lost when the pairs met after it in another chain are good: `bad` is met first,
      fails, is not ignored, and no error comes back. */
  lemma ErrorCanBeLost<K, V>(t: Table<K, V>, bad: Pair<K, V>, last: Pair<K, V>, good: Pair<K, V> -> bool)
    requires !t.rehashing && !t.onSecond && t.base1.items > 0 && t.base1.chains == [[bad], [last]]
    requires !good(bad) && good(last)
    ensures Visits(t, good, false) == ([bad, last], true)
  {
    VisitsConcat([[bad]], [[last]], good, false);
    assert [[bad]] + [[last]] == t.base1.chains;
    OnePair(bad, good);
    OnePair(last, good);
    assert [bad] + [last] == [bad, last];
  }

  // ---- what runs come to ----

  lemma {:induction false} StepsKeepSecondCount<K, V>(hash: K -> nat, t: Table<K, V>, n: nat)
    requires t.rehashing
    ensures var r := Steps(hash, t, n); r.base2.items == t.base2.items && (t.onSecond ==> r.onSecond)
    decreases n
  {
    if n > 0 && t.pos < |Current(t).chains| && t.base2.chains != [] {
      hide Bucket;
      StepsKeepSecondCount(hash, Turn(hash, t, AllFree), n - 1);
    }
  }

  lemma {:induction false} TurnsKeepSecondCount<K, V>(hash: K -> nat, t: Table<K, V>, lucks: seq<Luck>)
    ensures var r := Turns(hash, t, lucks); r.base2.items == t.base2.items && (t.onSecond ==> r.onSecond)
  {
    if lucks != [] {
      TurnsKeepSecondCount(hash, t, lucks[..|lucks| - 1]);
    }
  }

  /** A migration never counts, in the base they go to, the nodes it moves, and never switches back. */
  lemma VisitKeepsSecondCount<K, V>(hash: K -> nat, t: Table<K, V>, v: Visit)
    ensures var r := Visited(hash, t, v); r.base2.items == t.base2.items && (t.onSecond ==> r.onSecond)
  {
    hide Steps, Turns;
    if t.rehashing && v.Undisturbed? {
      StepsKeepSecondCount(hash, Entered(t), REHASH_STEPS);
    } else if t.rehashing && v.Disturbed? {
      TurnsKeepSecondCount(hash, Entered(t), v.lucks);
    }
  }

  lemma WhichBase<K, V>(hash: K -> nat, t: Table<K, V>, k: K)
    requires Inv(hash, t)
    ensures var p := Where(hash, t, k); p.At? ==> (p.second <==> k in t.base2.model)
  {
    hide Holds, PlaceIn;
    PlaceIsExact(hash, t.base1, false, k);
    PlaceIsExact(hash, t.base2, true, k);
  }

  lemma InsertionIsCounted<K, V>(hash: K -> nat, t: Table<K, V>, c: Call<K, V>)
    requires Inv(hash, t) && t.rehashing && c.Insert?
    ensures var (r, status) := Do(hash, t, c); r.base2.items == if status == Done then Inc(t.base2.items) else t.base2.items
  {
    hide Visited, Where, Bucket, BaseOk;
    var u := Visited(hash, t, c.first);
    var w := Visited(hash, u, c.second);
    VisitKeepsSecondCount(hash, t, c.first);
    VisitKeepsSecondCount(hash, u, c.second);
    VisitKeepsSecondCount(hash, w, c.third);
    VisitedKeepsInv(hash, t, c.first);
    VisitedKeepsInv(hash, u, c.second);
    VisitedKeepsInv(hash, w, c.third);
    hide Inv;
  }

  /** While a rehash is under way, the second base counts the insertions and what is removed from it,
      and no key that came by migration. */
  lemma SecondCountIs<K, V>(hash: K -> nat, t: Table<K, V>, c: Call<K, V>)
    requires Inv(hash, t) && t.rehashing
    ensures var (r, status) := Do(hash, t, c);
      r.base2.items ==
        if c.Insert? && status == Done then Inc(t.base2.items)
        else if c.Remove? && status == Done && c.key in Visited(hash, t, c.visit).base2.model then Dec(t.base2.items)
        else t.base2.items
  {
    if c.Insert? {
      InsertionIsCounted(hash, t, c);
    } else {
      VisitKeepsSecondCount(hash, t, c.visit);
      VisitedKeepsInv(hash, t, c.visit);
      WhichBase(hash, Visited(hash, t, c.visit), c.key);
      hide Visited, Where, Bucket, Inv;
    }
  }

  lemma CallKeepsSwitched<K, V>(hash: K -> nat, t: Table<K, V>, c: Call<K, V>)
    requires t.onSecond
    ensures Do(hash, t, c).0.onSecond
  {
    hide Visited, Where;
    match c
    case Insert(k, x, nodes, arrays, lock, v1, v2, v3) =>
      VisitKeepsSecondCount(hash, t, v1);
      VisitKeepsSecondCount(hash, Visited(hash, t, v1), v2);
      VisitKeepsSecondCount(hash, Visited(hash, Visited(hash, t, v1), v2), v3);
    case _ =>
      VisitKeepsSecondCount(hash, t, c.visit);
  }

  /** Once the bases have been switched, no run makes the mapping right again, but by emptying the table. */
  lemma {:induction false} NeverRightAgain<K(!new), V(!new)>(hash: K -> nat, t: Table<K, V>, calls: seq<Call<K, V>>,
      good: Pair<K, V> -> bool, ignore: bool)
    requires Inv(hash, t) && t.onSecond && Unhindered(good, ignore) && |Contents(t)| + |calls| < WORD
    ensures var r := Run(hash, t, calls);
      multiset(Visits(r, good, ignore).0) == PairsOf(Contents(r)) <==> Contents(r) == map[]
    decreases |calls|
  {
    hide Do, BaseOk, Unhindered, Visits, PairsOf;
    EveryRunIsAMap(hash, t, calls);
    SwitchedStays(hash, t, calls);
    MappingIsRightExactly(hash, Run(hash, t, calls), good, ignore);
  }

  lemma {:induction false} SwitchedStays<K, V>(hash: K -> nat, t: Table<K, V>, calls: seq<Call<K, V>>)
    requires t.onSecond
    ensures Run(hash, t, calls).onSecond
    decreases |calls|
  {
    hide Do;
    if calls != [] {
      CallKeepsSwitched(hash, t, calls[0]);
      SwitchedStays(hash, Do(hash, t, calls[0]).0, calls[1..]);
    }
  }

  /** Searches that carry a migration on come to the switch, and count nothing in the second base. */
  lemma {:induction false} FindsSwitch(hash: nat -> nat, t: Table<nat, bool>, b: nat, n: nat)
    requires Inv(hash, t) && t.rehashing && !t.onSecond && EndsAt(t, b) && REHASH_STEPS * n >= Left(t) + REHASH_STEPS
    ensures var r := Run(hash, t, Finds(n));
      Inv(hash, r) && r.onSecond && r.base2.items == t.base2.items && Contents(r) == Contents(t)
    decreases n
  {
    hide BaseOk, Contents, EndsAt, Steps, Where;
    var u, rest := Entered(t), Finds(n)[1..];
    assert rest == Finds(n - 1);
    EnteredKeepsInv(hash, t);
    EnteredKeepsEnd(t, b);
    StepsAdvance(hash, u, REHASH_STEPS, b);
    VisitKeepsSecondCount(hash, t, Undisturbed);
    var r := Visited(hash, t, Undisturbed);
    assert Run(hash, t, Finds(n)) == Run(hash, r, rest);
    if r.onSecond {
      FindsStay(hash, r, n - 1);
    } else {
      FindsSwitch(hash, r, b, n - 1);
    }
  }

  lemma {:induction false} FindsStay(hash: nat -> nat, t: Table<nat, bool>, n: nat)
    requires Inv(hash, t) && t.onSecond
    ensures var r := Run(hash, t, Finds(n));
      Inv(hash, r) && r.onSecond && r.base2.items == t.base2.items && Contents(r) == Contents(t)
    decreases n
  {
    hide BaseOk, Contents, Visited, Where;
    if n > 0 {
      VisitedKeepsInv(hash, t, Undisturbed);
      VisitKeepsSecondCount(hash, t, Undisturbed);
      assert Finds(n)[1..] == Finds(n - 1);
      FindsStay(hash, Visited(hash, t, Undisturbed), n - 1);
    }
  }

  /** In a table of any size: 101 insertions, a removal, an insertion that begins a rehash, and searches
      until it has ended. The table holds keys and the mapping meets none of them. */
  lemma MappingCanMissEverything(size: nat, good: Pair<nat, bool> -> bool, ignore: bool) returns (n: nat)
    requires size > 0
    ensures var t := Run(Constant(size), Created<nat, bool>(size), FailingRun(n));
      Contents(t) != map[] && Visits(t, good, ignore) == ([], true)
  {
    hide BaseOk, Constant, Do, Put, Prefix, Contents, EndsAt;
    var hash, start := Constant(size), Created<nat, bool>(size);
    CrowdedInsert(size, true);
    var t := Run(hash, start, Prefix());
    var u := Put(hash, t, 0, true);
    var w := Begin(u);
    BeginKeepsInv(hash, u);
    BeginEndsAt(u, size);
    n := size / REHASH_STEPS + 4;
    FindsSwitch(hash, w, size - 1, n);
    RunConcat(hash, start, Prefix(), [PlainInsert(0, true)] + Finds(n));
    RunConcat(hash, t, [PlainInsert(0, true)], Finds(n));
    RunOne(hash, t, PlainInsert(0, true));
      var r := Run(hash, start, FailingRun(n));
    assert r.base2.items == 0 && 0 in Contents(r);
    var none: seq<Pair<nat, bool>> := [];
    assert none + none == none && Visits(r, good, ignore) == (none + none, true);
  }
}
