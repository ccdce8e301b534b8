/** Red-black trees over whole runs: the tree is a dictionary, and it stays shallow. */
module RbRuns {
  import opened Options
  import opened Comparators
  import opened SortedLists
  import opened RbSpec
  import opened RbProofs

  /** Insertion stores exactly one entry. */
  lemma {:induction false} InsertStores<K, V>(rank: K -> int, t: Tree<K, V>, k: K, v: V)
    requires Ordered(rank, t)
    ensures InOrder(InsertNode(rank, t, k, v)) == Store(rank, InOrder(t), k, v)
  {
    if t.Node? {
      var l, x, r := InOrder(t.left), Entry(t.key, t.value), InOrder(t.right);
      ChildKeys(rank, t);
      if rank(k) < rank(t.key) {
        InsertStores(rank, t.left, k, v);
        OperationsLeft(rank, l, x, r, k, v);
        FixUpKeepsOrder(t.(left := InsertNode(rank, t.left, k, v)));
      } else if rank(k) > rank(t.key) {
        InsertStores(rank, t.right, k, v);
        OperationsRight(rank, l, x, r, k, v);
        FixUpKeepsOrder(t.(right := InsertNode(rank, t.right, k, v)));
      } else {
        OperationsHere(rank, l, x, r, k, v);
        FixUpKeepsOrder(t.(value := v));
      }
    }
  }

  lemma InsertWorks<K(!new), V>(rank: K -> int, t: Tree<K, V>, k: K, v: V)
    requires Legal(t) && Ordered(rank, t)
    ensures var u := Insert(rank, t, k, v);
      && Legal(u) && Ordered(rank, u) && InOrder(u) == Store(rank, InOrder(t), k, v)
      && AnswersOnly(rank, InOrder(t), InOrder(u), k, Some(v))
  {
    hide Legal, InOrder, InsertNode, Store, AnswersOnly;
    InsertKeepsLegal(rank, t, k, v);
    InsertStores(rank, t, k, v);
    StoreEraseSorted(rank, InOrder(t), k, v);
    StoreAnswers(rank, InOrder(t), k, v);
  }

  lemma RemoveAnswers<K(!new), V>(rank: K -> int, t: Tree<K, V>, k: K)
    requires Legal(t) && Ordered(rank, t)
    ensures var u := Remove(rank, t, k);
      && Deletable(rank, t, k)
      && Legal(u) && Ordered(rank, u) && InOrder(u) == Erase(rank, InOrder(t), k) && !IsRed(u)
      && AnswersOnly(rank, InOrder(t), InOrder(u), k, None)
  {
    hide Legal, InOrder, DeleteNode, Erase, Deletable, AnswersOnly;
    LegalIsDeletable(rank, t, k);
    RemoveWorks(rank, t, k);
    EraseAnswers(rank, InOrder(t), k);
  }

  // ---- search ----

  ghost function Search<K, V>(rank: K -> int, t: Tree<K, V>, k: K): Option<V> {
    if t.Leaf? then None
    else if rank(k) < rank(t.key) then Search(rank, t.left, k)
    else if rank(k) > rank(t.key) then Search(rank, t.right, k)
    else Some(t.value)
  }

  /** The number of comparisons that search makes. */
  ghost function Comparisons<K, V>(rank: K -> int, t: Tree<K, V>, k: K): nat {
    if t.Leaf? then 0
    else if rank(k) < rank(t.key) then 1 + Comparisons(rank, t.left, k)
    else if rank(k) > rank(t.key) then 1 + Comparisons(rank, t.right, k)
    else 1
  }

  lemma {:induction false} SearchIsLookup<K, V>(rank: K -> int, t: Tree<K, V>, k: K)
    requires Ordered(rank, t)
    ensures Search(rank, t, k) == Lookup(rank, InOrder(t), k)
  {
    if t.Node? {
      var l, x, r := InOrder(t.left), Entry(t.key, t.value), InOrder(t.right);
      ChildKeys(rank, t);
      if rank(k) < rank(t.key) {
        SearchIsLookup(rank, t.left, k);
        OperationsLeft(rank, l, x, r, k, t.value);
      } else if rank(k) > rank(t.key) {
        SearchIsLookup(rank, t.right, k);
        OperationsRight(rank, l, x, r, k, t.value);
      } else {
        OperationsHere(rank, l, x, r, k, t.value);
      }
    }
  }

  // ---- runs ----

  datatype Op<K, V> = Put(key: K, value: V) | Del(key: K)

  ghost function Run<K, V>(rank: K -> int, ops: seq<Op<K, V>>): Tree<K, V> {
    if ops == [] then Leaf
    else
      var t := Run(rank, ops[..|ops| - 1]);
      match ops[|ops| - 1]
      case Put(k, v) => Insert(rank, t, k, v)
      case Del(k) => Remove(rank, t, k)
  }

  /** What the operations say about `q`: the value last put under an equal key, unless deleted since. */
  ghost function LastWrite<K, V>(rank: K -> int, ops: seq<Op<K, V>>, q: K): Option<V> {
    if ops == [] then None
    else
      var last := ops[|ops| - 1];
      if rank(last.key) != rank(q) then LastWrite(rank, ops[..|ops| - 1], q)
      else if last.Put? then Some(last.value) else None
  }

  /** Whatever is inserted and removed, in whatever order: the tree is legal, its keys increase
      strictly from left to right, and search answers with the last value written. */
  lemma {:induction false} EveryRunIsADictionary<K, V>(rank: K -> int, ops: seq<Op<K, V>>, q: K)
    ensures Legal(Run(rank, ops)) && Ordered(rank, Run(rank, ops))
    ensures Search(rank, Run(rank, ops), q) == LastWrite(rank, ops, q)
  {
    if ops != [] {
      var before, last := ops[..|ops| - 1], ops[|ops| - 1];
      var t := Run(rank, before);
      EveryRunIsADictionary(rank, before, q);
      SearchIsLookup(rank, t, q);
      var s := InOrder(t);
      match last
      case Put(k, v) =>
        InsertKeepsLegal(rank, t, k, v);
        InsertStores(rank, t, k, v);
        StoreEraseSorted(rank, s, k, v);
        DictionaryLaws(rank, s, k, v, q);
        SearchIsLookup(rank, Insert(rank, t, k, v), q);
      case Del(k) =>
        RemoveWorks(rank, t, k);
        if t.Node? { DictionaryLaws(rank, s, k, t.value, q); }
        SearchIsLookup(rank, Remove(rank, t, k), q);
    }
  }

  /** Legality must not ask about the root's colour: the first two keys, put in falling order, leave a
      red root over a red left child, because nothing ever paints the root black on insertion. */
  lemma RedRootOverRed<K, V>(rank: K -> int, low: K, high: K, v: V)
    requires rank(low) < rank(high)
    ensures var t := Run(rank, [Put(high, v), Put(low, v)]);
      t.Node? && t.red && t.left.Node? && t.left.red && Legal(t) && !Leaning(t)
  {
    var ops := [Put(high, v), Put(low, v)];
    assert ops[..1] == [Put(high, v)] && ops[..1][..0] == [];
    assert Run(rank, ops[..1]) == Insert(rank, Leaf, high, v);
    assert InsertNode(rank, Leaf, low, v) == Node(true, Leaf, low, v, Leaf);
  }

  // ---- height ----

  ghost function Height<K, V>(t: Tree<K, V>): nat {
    if t.Leaf? then 0
    else 1 + if Height(t.left) < Height(t.right) then Height(t.right) else Height(t.left)
  }

  ghost function Pow2(n: nat): (p: nat)
    ensures p > 0
  {
    if n == 0 then 1 else 2 * Pow2(n - 1)
  }

  lemma {:induction false} Pow2Monotone(m: nat, n: nat)
    requires m <= n
    ensures Pow2(m) <= Pow2(n)
  {
    if m < n { Pow2Monotone(m, n - 1); }
  }

  lemma {:induction false} Pow2Double(n: nat)
    ensures Pow2(2 * n) == Pow2(n) * Pow2(n)
  {
    if n > 0 {
      Pow2Double(n - 1);
      assert Pow2(2 * n) == 2 * (2 * Pow2(2 * n - 2));
    }
  }

  /** Below the root: black height bounds the height from above and the size from below. */
  lemma {:induction false} HeightAndSize<K, V>(t: Tree<K, V>)
    requires Balanced(t) && Leaning(t)
    ensures Height(t) <= 2 * BlackHeight(t) + if IsRed(t) then 1 else 0
    ensures Pow2(BlackHeight(t)) * (if IsRed(t) then 2 else 1) <= t.Size() + 1
  {
    if t.Node? {
      HeightAndSize(t.left);
      HeightAndSize(t.right);
    }
  }

  /** A legal tree of n entries and height h has 2^h <= (n + 1)^2, so a search makes at most
      2 * log2(n + 1) comparisons. */
  lemma SearchIsLogarithmic<K, V>(rank: K -> int, t: Tree<K, V>, k: K)
    requires Legal(t)
    ensures |InOrder(t)| == t.Size()
    ensures Pow2(Height(t)) <= (t.Size() + 1) * (t.Size() + 1)
    ensures Comparisons(rank, t, k) <= Height(t)
    ensures Logarithmic(Comparisons(rank, t, k), |InOrder(t)|)
  {
    ComparisonsBound(rank, t, k);
    Pow2Monotone(Comparisons(rank, t, k), Height(t));
    if t.Node? { RootHeightAndSize(t); }
  }

  lemma RootHeightAndSize<K, V>(t: Tree<K, V>)
    requires Legal(t) && t.Node?
    ensures Pow2(Height(t)) <= (t.Size() + 1) * (t.Size() + 1)
  {
    HeightAndSize(t.left);
    HeightAndSize(t.right);
    var b := BlackHeight(t.left);
    var p, n := Pow2(b), t.Size() + 1;
    assert Height(t) <= 2 * (b + 1) && 2 * p <= n;
    Pow2Monotone(Height(t), 2 * (b + 1));
    Pow2Double(b + 1);
    assert Pow2(b + 1) == 2 * p;
    Squares(2 * p, n);
  }

  /** At most 2 * log2(n + 1). */
  ghost predicate Logarithmic(comparisons: nat, n: nat) {
    Pow2(comparisons) <= (n + 1) * (n + 1)
  }

  lemma Squares(a: nat, b: nat)
    requires a <= b
    ensures a * a <= b * b
  {
    assert a * a <= a * b <= b * b;
  }

  lemma {:induction false} ComparisonsBound<K, V>(rank: K -> int, t: Tree<K, V>, k: K)
    ensures Comparisons(rank, t, k) <= Height(t)
    ensures |InOrder(t)| == t.Size()
  {
    if t.Node? {
      ComparisonsBound(rank, t.left, k);
      ComparisonsBound(rank, t.right, k);
    }
  }
}
