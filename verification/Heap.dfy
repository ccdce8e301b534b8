/** The binary heap of heap.c, and its sort in place.

    The value with the smallest rank is at the top. Sifting carries the value in hand past a hole;
    `s[hole := value]` is the array with the hole filled, which is what the invariants speak of.
 */
module Heap {
  import opened Options
  import opened Comparators

  function Parent(i: nat): (p: nat)
    requires i > 0
    ensures p < i
  {
    (i - 1) / 2
  }

  /** The first `n` values are in heap order. */
  ghost predicate Ordered<T>(rank: T -> int, s: seq<T>, n: nat)
    requires n <= |s|
  {
    forall i :: 1 <= i < n ==> rank(s[Parent(i)]) <= rank(s[i])
  }

  /** In heap order except that position `at` may be too large for its children. */
  ghost predicate OrderedAbove<T>(rank: T -> int, s: seq<T>, n: nat, at: nat)
    requires n <= |s|
  {
    && (forall i :: 1 <= i < n && Parent(i) != at ==> rank(s[Parent(i)]) <= rank(s[i]))
    && (forall i :: 1 <= i < n && Parent(i) == at && at > 0 ==> rank(s[Parent(at)]) <= rank(s[i]))
  }

  /** In heap order except that position `at` may be too small for its parent. */
  ghost predicate OrderedBelow<T>(rank: T -> int, s: seq<T>, n: nat, at: nat)
    requires n <= |s|
  {
    && (forall i :: 1 <= i < n && i != at ==> rank(s[Parent(i)]) <= rank(s[i]))
    && (forall i :: 1 <= i < n && Parent(i) == at && at > 0 ==> rank(s[Parent(at)]) <= rank(s[i]))
  }

  ghost function Swap<T>(s: seq<T>, i: nat, j: nat): (r: seq<T>)
    requires i < |s| && j < |s|
    ensures |r| == |s| && r[i] == s[j] && r[j] == s[i]
    ensures forall k :: 0 <= k < |s| && k != i && k != j ==> r[k] == s[k]
  {
    s[i := s[j]][j := s[i]]
  }

  /** `s` is `t` with its first `n` values permuted. */
  ghost predicate Permuted<T>(s: seq<T>, t: seq<T>, n: nat) {
    |s| == |t| && n <= |s| && s[n..] == t[n..] && multiset(s) == multiset(t)
  }

  lemma SwapPermutes<T>(s: seq<T>, t: seq<T>, n: nat, i: nat, j: nat)
    requires Permuted(s, t, n) && i < n && j < n
    ensures Permuted(Swap(s, i, j), t, n)
  {
  }

  /** One step down: the smaller child moves up into the hole. */
  lemma StepDown<T>(rank: T -> int, s: seq<T>, n: nat, at: nat, child: nat)
    requires n <= |s| && OrderedAbove(rank, s, n, at)
    requires 1 <= child < n && Parent(child) == at && rank(s[child]) <= rank(s[at])
    requires forall i :: 1 <= i < n && Parent(i) == at ==> rank(s[child]) <= rank(s[i])
    ensures OrderedAbove(rank, Swap(s, at, child), n, child)
  {
    var r := Swap(s, at, child);
    forall i | 1 <= i < n && Parent(i) != child ensures rank(r[Parent(i)]) <= rank(r[i]) {
      assert i == at ==> Parent(at) != at;
    }
  }

  /** One step up: the parent moves down into the hole. */
  lemma StepUp<T>(rank: T -> int, s: seq<T>, n: nat, at: nat)
    requires n <= |s| && 1 <= at < n && OrderedBelow(rank, s, n, at)
    requires rank(s[at]) <= rank(s[Parent(at)])
    ensures OrderedBelow(rank, Swap(s, at, Parent(at)), n, Parent(at))
  {
    var p := Parent(at);
    var r := Swap(s, at, p);
    forall i | 1 <= i < n && i != p ensures rank(r[Parent(i)]) <= rank(r[i]) {
    }
    forall i | 1 <= i < n && Parent(i) == p && p > 0 ensures rank(r[Parent(p)]) <= rank(r[i]) {
    }
  }

  /** Once the possibly misplaced value suits its parent, the whole is a heap. */
  lemma SiftedUp<T>(rank: T -> int, s: seq<T>, n: nat, at: nat)
    requires n <= |s| && OrderedBelow(rank, s, n, at) && at < n
    requires at > 0 ==> rank(s[Parent(at)]) <= rank(s[at])
    ensures Ordered(rank, s, n)
  {
  }

  lemma {:induction false} TopIsLeast<T>(rank: T -> int, s: seq<T>, n: nat, i: nat)
    requires i < n <= |s| && Ordered(rank, s, n)
    ensures rank(s[0]) <= rank(s[i])
  {
    if i > 0 { TopIsLeast(rank, s, n, Parent(i)); }
  }

  /** The smaller child of `cur`, or `length` when it has none. */
  method SmallerChild<T(!new)>(a: array<T>, length: nat, cur: nat, cmp: (T, T) -> int, ghost rank: T -> int)
    returns (child: nat)
    requires RankedBy(cmp, rank) && cur < length <= a.Length
    ensures child == length || (child < length && child > 0 && Parent(child) == cur)
    ensures forall i :: 1 <= i < length && Parent(i) == cur ==> child < length && rank(a[child]) <= rank(a[i])
  {
    var left, right := 2 * cur + 1, 2 * cur + 2;
    child := length;
    if left < length {
      child := left;
      if right < length && cmp(a[right], a[left]) < 0 {
        child := right;
      }
    }
  }

  /** ajustHeap: repairs a heap whose top may be too large. */
  method AdjustHeap<T(!new)>(a: array<T>, length: nat, cmp: (T, T) -> int, ghost rank: T -> int)
    requires RankedBy(cmp, rank) && length <= a.Length && OrderedAbove(rank, a[..], length, 0)
    modifies a
    ensures Ordered(rank, a[..], length)
    ensures Permuted(a[..], old(a[..]), length)
  {
    if length < 2 {
      return;
    }
    var cur := 0;
    var value := a[cur];
    ghost var s := a[..];
    while true
      invariant cur < length && |s| == a.Length && s[cur] == value
      invariant forall i :: 0 <= i < a.Length && i != cur ==> a[i] == s[i]
      invariant OrderedAbove(rank, s, length, cur) && Permuted(s, old(a[..]), length)
      decreases length - cur
    {
      var child := SmallerChild(a, length, cur, cmp, rank);
      if child >= length || cmp(value, a[child]) < 0 {
        break;
      }
      a[cur] := a[child];
      StepDown(rank, s, length, cur, child);
      SwapPermutes(s, old(a[..]), length, cur, child);
      s := Swap(s, cur, child);
      cur := child;
    }
    a[cur] := value;
    assert a[..] == s;
  }

  /** ajustHeapAppend: repairs a heap whose last value may be too small. */
  method AdjustHeapAppend<T(!new)>(a: array<T>, used: nat, cmp: (T, T) -> int, ghost rank: T -> int)
    requires RankedBy(cmp, rank) && used <= a.Length
    requires used > 0 ==> OrderedBelow(rank, a[..], used, used - 1)
    modifies a
    ensures Ordered(rank, a[..], used)
    ensures Permuted(a[..], old(a[..]), used)
  {
    if used < 2 {
      return;
    }
    hide OrderedBelow, Ordered, Permuted, Swap, Parent, RankedBy, Sign;
    var cur := used - 1;
    var value := a[cur];
    ghost var s := a[..];
    while cur > 0
      invariant cur < used && |s| == a.Length && s[cur] == value
      invariant forall i :: 0 <= i < a.Length && i != cur ==> a[i] == s[i]
      invariant OrderedBelow(rank, s, used, cur) && Permuted(s, old(a[..]), used)
    {
      var parent := Parent(cur);
      Compared(cmp, rank, a[parent], value);
      if cmp(a[parent], value) < 0 {
        SiftedUp(rank, s, used, cur);
        break;
      }
      a[cur] := a[parent];
      StepUp(rank, s, used, cur);
      SwapPermutes(s, old(a[..]), used, cur, parent);
      s := Swap(s, cur, parent);
      cur := parent;
    }
    if cur == 0 { SiftedUp(rank, s, used, cur); }
    a[cur] := value;
    assert a[..] == s;
  }

  // ---- sorting ----

  ghost predicate Ascending<T>(rank: T -> int, s: seq<T>, n: nat)
    requires n <= |s|
  {
    forall i, j :: 0 <= i < j < n ==> rank(s[i]) <= rank(s[j])
  }

  /** The heap has shrunk to `m` values; the rest are in descending order and not above them. */
  ghost predicate Sorting<T>(rank: T -> int, s: seq<T>, m: nat, n: nat)
    requires m <= n <= |s|
  {
    && Ordered(rank, s, m)
    && (forall i, j :: 0 <= i < m <= j < n ==> rank(s[j]) <= rank(s[i]))
    && (forall i, j :: m <= i < j < n ==> rank(s[j]) <= rank(s[i]))
  }

  /** A bound on the first `n` values survives their permutation. */
  lemma PermutedBound<T>(rank: T -> int, s: seq<T>, t: seq<T>, n: nat, lo: int)
    requires Permuted(s, t, n) && forall j :: 0 <= j < n ==> lo <= rank(t[j])
    ensures forall i :: 0 <= i < n ==> lo <= rank(s[i])
  {
    PermutedPrefix(s, t, n);
    forall i | 0 <= i < n ensures lo <= rank(s[i]) {
      assert s[..n][i] in multiset(t[..n]);
      var j :| 0 <= j < n && t[..n][j] == s[..n][i];
    }
  }

  /** One round: the top goes behind the heap, and the rest is a heap again. */
  lemma SortStep<T>(rank: T -> int, s: seq<T>, r: seq<T>, m: nat, n: nat)
    requires 1 <= m <= n <= |s| && Sorting(rank, s, m, n)
    requires Permuted(r, Swap(s, 0, m - 1), m - 1) && Ordered(rank, r, m - 1)
    ensures Sorting(rank, r, m - 1, n)
  {
    var t := Swap(s, 0, m - 1);
    forall i | 0 <= i < m ensures rank(s[0]) <= rank(s[i]) {
      TopIsLeast(rank, s, m, i);
    }
    PermutedBound(rank, r, t, m - 1, rank(s[0]));
    assert forall j :: m - 1 <= j < n ==> r[j] == t[j] by {
      assert forall j :: m - 1 <= j < n ==> r[j] == r[m - 1..][j - (m - 1)] && t[j] == t[m - 1..][j - (m - 1)];
    }
  }

  lemma PermutedTransitive<T>(s: seq<T>, t: seq<T>, u: seq<T>, m: nat, n: nat)
    requires m <= n <= |t| && Permuted(s, t, m) && Permuted(t, u, n)
    ensures Permuted(s, u, n)
  {
    assert s[n..] == s[m..][n - m..] && t[n..] == t[m..][n - m..];
  }

  /** heapSort: on a heap, an ascending arrangement of the same values, which is again a heap. */
  method HeapSort<T(!new)>(a: array<T>, used: nat, cmp: (T, T) -> int, ghost rank: T -> int)
    requires RankedBy(cmp, rank) && used <= a.Length && Ordered(rank, a[..], used)
    modifies a
    ensures Ascending(rank, a[..], used) && Ordered(rank, a[..], used)
    ensures Permuted(a[..], old(a[..]), used)
  {
    if used < 2 {
      return;
    }
    for i := 0 to used
      invariant Sorting(rank, a[..], used - i, used) && Permuted(a[..], old(a[..]), used)
    {
      Extract(a, used - 1 - i, used, cmp, rank);
    }
    ghost var s := a[..];
    ReverseFirst(a, used);
    Turning(rank, a[..], s, used);
  }

  /** The body of the sorting loop. */
  method Extract<T(!new)>(a: array<T>, end: nat, ghost used: nat, cmp: (T, T) -> int, ghost rank: T -> int)
    requires RankedBy(cmp, rank) && end < used <= a.Length && Sorting(rank, a[..], end + 1, used)
    modifies a
    ensures Sorting(rank, a[..], end, used) && Permuted(a[..], old(a[..]), used)
  {
    ghost var s := a[..];
    var value := a[0];
    a[0] := a[end];
    a[end] := value;
    ghost var t := a[..];
    assert t == Swap(s, 0, end);
    SwapPermutes(s, s, used, 0, end);
    AdjustHeap(a, end, cmp, rank);
    SortStep(rank, s, a[..], end + 1, used);
    PermutedTransitive(a[..], t, s, end, used);
  }

  /** The final loop: the values are turned round. */
  method ReverseFirst<T(!new)>(a: array<T>, used: nat)
    requires 2 <= used <= a.Length
    modifies a
    ensures forall k :: 0 <= k < used ==> a[k] == old(a[used - 1 - k])
    ensures Permuted(a[..], old(a[..]), used)
  {
    ghost var s := a[..];
    var i, end := 0, used - 1;
    assert Turned(a[..], s, i, used) && Permuted(a[..], s, used);
    hide Turned, Permuted, Swap;
    while i < end
      invariant 0 <= i <= end + 1 && end == used - 1 - i
      invariant Turned(a[..], s, i, used) && Permuted(a[..], s, used)
    {
      ghost var t := a[..];
      var value := a[i];
      a[i] := a[end];
      a[end] := value;
      assert a[..] == Swap(t, i, end);
      SwapPermutes(t, s, used, i, end);
      TurnStep(t, s, i, used);
      i := i + 1;
      end := end - 1;
    }
    AllTurned(a[..], s, i, used);
  }

  lemma AllTurned<T>(r: seq<T>, s: seq<T>, i: nat, n: nat)
    requires Turned(r, s, i, n) && n - 1 - i <= i
    ensures forall k :: 0 <= k < n ==> r[k] == s[n - 1 - k]
  {
    forall k | 0 <= k < n ensures r[k] == s[n - 1 - k] {
      if i <= k <= n - 1 - i { assert k == n - 1 - k; }
    }
  }

  /** Descending values turned round ascend, and ascending values are a heap. */
  lemma Turning<T>(rank: T -> int, r: seq<T>, s: seq<T>, n: nat)
    requires |r| == |s| && n <= |s| && Sorting(rank, s, 0, n)
    requires forall k :: 0 <= k < n ==> r[k] == s[n - 1 - k]
    ensures Ascending(rank, r, n) && Ordered(rank, r, n)
  {
  }

  /** The outer `i` values at either end have changed places. */
  ghost predicate Turned<T>(r: seq<T>, s: seq<T>, i: nat, n: nat) {
    && |r| == |s| && n <= |s|
    && (forall k :: i <= k <= n - 1 - i ==> r[k] == s[k])
    && (forall k :: 0 <= k < n && !(i <= k <= n - 1 - i) ==> r[k] == s[n - 1 - k])
  }

  lemma TurnStep<T>(r: seq<T>, s: seq<T>, i: nat, n: nat)
    requires Turned(r, s, i, n) && i < n - 1 - i
    ensures Turned(Swap(r, i, n - 1 - i), s, i + 1, n)
  {
    var j := n - 1 - i;
    assert r[i] == s[i] && r[j] == s[j];
  }

  // ---- the interface ----

  const LEAST_HEAP_SIZE := 128
  const EXPAND_RATIO := 1.1

  /** Much wider than what three roundings to a double, of the ratio, the size and their product, can make of `x`. */
  predicate Rounded(p: real, x: real) {
    x * (1.0 - 1.0 / 1099511627776.0) <= p <= x * (1.0 + 1.0 / 1099511627776.0)
  }

  /** The product of a size and EXPAND_RATIO in doubles, however it comes to be rounded. */
  method Enlarged(size: nat) returns (p: real)
    ensures Rounded(p, size as real * EXPAND_RATIO)
  {
    p := *;
    if !Rounded(p, size as real * EXPAND_RATIO) {
      p := size as real * EXPAND_RATIO;
    }
  }

  class Heap<T(0,!new)> {
    var base: array<T>
    var used: nat
    const cmp: (T, T) -> int
    ghost const rank: T -> int

    ghost predicate Valid()
      reads this, base
    {
      RankedBy(cmp, rank) && LEAST_HEAP_SIZE <= base.Length && used <= base.Length && Ordered(rank, base[..], used)
    }

    ghost function Contents(): multiset<T>
      reads this, base
      requires used <= base.Length
    {
      multiset(base[..used])
    }

    constructor (cmp: (T, T) -> int, capacity: int, ghost rank: T -> int)
      requires RankedBy(cmp, rank)
      ensures Valid() && fresh(base) && Contents() == multiset{} && this.cmp == cmp && this.rank == rank
      ensures base.Length == if capacity < 128 then 128 else capacity
    {
      var size := if capacity < LEAST_HEAP_SIZE then LEAST_HEAP_SIZE else capacity;
      this.cmp, this.rank, used := cmp, rank, 0;
      base := new T[size];
    }

    method Value(idx: nat) returns (value: Option<T>)
      requires Valid()
      ensures value == if idx < used then Some(base[idx]) else None
      ensures idx == 0 && value.Some? ==> forall x :: x in Contents() ==> rank(value.value) <= rank(x)
    {
      if used <= idx {
        return None;
      }
      ForEach(rank, base[..], used);
      value := Some(base[idx]);
    }

    /** expandHeap to 1.1 times the size, which makes room from the least size on, whatever the rounding. */
    method Expand()
      requires Valid()
      modifies this`base
      ensures Valid() && fresh(base) && base.Length > old(base.Length) && base[..used] == old(base[..used])
      ensures exists p :: Rounded(p, old(base.Length) as real * 1.1) && base.Length == p.Floor
    {
      var product := Enlarged(base.Length);
      var size := product.Floor;
      var grown := new T[size];
      for i := 0 to used
        invariant base == old(base) && fresh(grown) && grown.Length == size
        invariant forall k :: 0 <= k < i ==> grown[k] == base[k]
      {
        grown[i] := base[i];
      }
      base := grown;
      assert forall k :: 0 <= k < used ==> base[..][k] == old(base[..])[k];
      assert base[..used] == old(base[..used]);
    }

    /** addToHeap; `memory`: whether the larger array can be had if one is needed. */
    method Add(value: T, memory: bool) returns (ok: bool)
      requires Valid()
      modifies this, base
      ensures Valid() && if old(used) == old(base.Length) && memory then fresh(base) else base == old(base)
      ensures base.Length >= old(base.Length)
      ensures ok <==> memory || old(used) < old(base.Length)
      ensures Contents() == if ok then old(Contents()) + multiset{value} else old(Contents())
    {
      if used >= base.Length {
        if !memory {
          return false;
        }
        Expand();
      }
      assert base[..used] == old(base[..used]);
      base[used] := value;
      used := used + 1;
      assert base[..used] == old(base[..used]) + [value];
      ghost var s := base[..];
      AdjustHeapAppend(base, used, cmp, rank);
      PermutedPrefix(base[..], s, used);
      ok := true;
    }

    method ReplaceTop(value: T)
      requires Valid()
      modifies this, base
      ensures Valid() && base == old(base)
      ensures Contents()
        == (if old(used) == 0 then multiset{} else old(Contents()) - multiset{old(base[0])}) + multiset{value}
    {
      base[0] := value;
      if used < 1 {
        used := 1;
      }
      ghost var s := base[..];
      assert s[..used] == [value] + s[1..used];
      AdjustHeap(base, used, cmp, rank);
      PermutedPrefix(base[..], s, used);
    }

    /** The deleted value is a least one, and only it goes. */
    method DeleteTop() returns (value: Option<T>)
      requires Valid()
      modifies this, base
      ensures Valid() && base == old(base)
      ensures value == None <==> old(used) == 0
      ensures value.Some? ==>
        && value.value in old(Contents()) && Contents() == old(Contents()) - multiset{value.value}
        && forall x :: x in old(Contents()) ==> rank(value.value) <= rank(x)
      ensures value == None ==> Contents() == old(Contents())
    {
      hide Ordered, OrderedAbove, Permuted, RankedBy;
      if used < 1 {
        return None;
      }
      ghost var before, m := base[..], used;
      ForEach(rank, before, m);
      value := Some(base[0]);
      if used > 1 {
        base[0] := base[used - 1];
      }
      used := used - 1;
      ghost var s := base[..];
      assert s == if m > 1 then before[0 := before[m - 1]] else before;
      TopRemoved(rank, before, s, m);
      if used > 1 {
        AdjustHeap(base, used, cmp, rank);
        PermutedPrefix(base[..], s, used);
      }
    }

    method Sort()
      requires Valid()
      modifies base
      ensures Valid() && Ascending(rank, base[..], used) && Contents() == old(Contents())
    {
      HeapSort(base, used, cmp, rank);
      PermutedPrefix(base[..], old(base[..]), used);
    }
  }

  /** The last value replaces the top: the old top is gone, and only the new one may be out of order. */
  lemma TopRemoved<T>(rank: T -> int, s: seq<T>, r: seq<T>, m: nat)
    requires 1 <= m <= |s| && Ordered(rank, s, m) && r == if m > 1 then s[0 := s[m - 1]] else s
    ensures OrderedAbove(rank, r, m - 1, 0) && (m <= 2 ==> Ordered(rank, r, m - 1))
    ensures multiset(r[..m - 1]) == multiset(s[..m]) - multiset{s[0]} && s[0] in multiset(s[..m])
  {
    RemovedTop(s[..m], r[..m - 1]);
    assert s[..m][0] == s[0];
  }

  lemma ForEach<T>(rank: T -> int, s: seq<T>, n: nat)
    requires 0 < n <= |s| && Ordered(rank, s, n)
    ensures forall x :: x in multiset(s[..n]) ==> rank(s[0]) <= rank(x)
  {
    forall x | x in multiset(s[..n]) ensures rank(s[0]) <= rank(x) {
      var i :| 0 <= i < n && s[..n][i] == x;
      TopIsLeast(rank, s, n, i);
    }
  }

  lemma PermutedPrefix<T>(s: seq<T>, t: seq<T>, n: nat)
    requires Permuted(s, t, n)
    ensures multiset(s[..n]) == multiset(t[..n])
  {
    assert s == s[..n] + s[n..] && t == t[..n] + t[n..];
    var a, b, rest := multiset(s[..n]), multiset(t[..n]), multiset(t[n..]);
    assert multiset(s) == a + rest && multiset(t) == b + rest;
    assert a == a + rest - rest && b == b + rest - rest;
  }

  /** Taking away the first of several values by putting the last in its place. */
  lemma RemovedTop<T>(all: seq<T>, left: seq<T>)
    requires all != [] && |left| == |all| - 1
    requires left == if |all| == 1 then [] else [all[|all| - 1]] + all[1..|all| - 1]
    ensures multiset(left) == multiset(all) - multiset{all[0]}
  {
    if |all| > 1 {
      assert all == [all[0]] + all[1..|all| - 1] + [all[|all| - 1]];
    }
  }
}
