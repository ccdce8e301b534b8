/** The skip list of test_skiplist.cpp as a value.

    The nodes stand in order in one list; `top` is the sparsest level a node is on, and `level` if it is on
    none. Level `i` is then what is left of the list when only nodes with `top <= i` are kept, so
    level 0 is the sparsest and level `level - 1` holds every node.
 */
module SkipSpec {
  import opened Sequences

  /** What a node, or the list's head, holds for one level: a pointer to the next node, and a back
      link to the cell that holds this node. A cell is named by the link it is in. */
  class Link<T> {
    ghost const level: nat
    var next: Node?<T>
    var back: Link?<T>

    constructor (ghost level: nat)
      ensures this.level == level && next == null && back == null
    {
      this.level := level;
      next, back := null, null;
    }
  }

  class Node<T> {
    const value: T
    const links: seq<Link<T>>

    constructor (value: T, links: seq<Link<T>>)
      ensures this.value == value && this.links == links
    {
      this.value, this.links := value, links;
    }
  }

  datatype Item<T> = Item(node: Node<T>, top: nat)

  ghost function Tall<T>(items: seq<Item<T>>, i: nat): (nodes: seq<Node<T>>) {
    if items == [] then []
    else (if items[0].top <= i then [items[0].node] else []) + Tall(items[1..], i)
  }

  ghost predicate Sorted<T>(rank: T -> int, items: seq<Item<T>>) {
    forall j, k :: 0 <= j < k < |items| ==> rank(items[j].node.value) <= rank(items[k].node.value)
  }

  ghost predicate Distinct<T>(items: seq<Item<T>>) {
    forall j, k :: 0 <= j < k < |items| ==> items[j].node != items[k].node
  }

  ghost function Values<T>(nodes: seq<Node<T>>): (values: seq<T>)
    ensures |values| == |nodes| && forall k :: 0 <= k < |nodes| ==> values[k] == nodes[k].value
  {
    seq(|nodes|, k requires 0 <= k < |nodes| => nodes[k].value)
  }

  ghost function All<T>(items: seq<Item<T>>): (nodes: seq<Node<T>>)
    ensures |nodes| == |items| && forall k :: 0 <= k < |items| ==> nodes[k] == items[k].node
  {
    seq(|items|, k requires 0 <= k < |items| => items[k].node)
  }

  /** `a` is `b` with some entries left out. */
  ghost predicate Sublist<T>(a: seq<T>, b: seq<T>) {
    a == [] || (b != [] && ((a[0] == b[0] && Sublist(a[1..], b[1..])) || Sublist(a, b[1..])))
  }

  // ---- levels ----

  lemma {:induction false} TallConcat<T>(a: seq<Item<T>>, b: seq<Item<T>>, i: nat)
    ensures Tall(a + b, i) == Tall(a, i) + Tall(b, i)
  {
    if a == [] {
      assert a + b == b;
    } else {
      assert (a + b)[1..] == a[1..] + b;
      TallConcat(a[1..], b, i);
      var first := if a[0].top <= i then [a[0].node] else [];
      assert first + (Tall(a[1..], i) + Tall(b, i)) == first + Tall(a[1..], i) + Tall(b, i);
    }
  }

  lemma {:induction false} TallHas<T>(items: seq<Item<T>>, i: nat, k: nat)
    requires k < |items| && items[k].top <= i
    ensures items[k].node in Tall(items, i)
  {
    if k > 0 { TallHas(items[1..], i, k - 1); }
  }

  lemma {:induction false} TallFrom<T>(items: seq<Item<T>>, i: nat, n: Node<T>) returns (k: nat)
    requires n in Tall(items, i)
    ensures k < |items| && items[k].top <= i && items[k].node == n
  {
    if items[0].top <= i && items[0].node == n {
      k := 0;
    } else {
      k := TallFrom(items[1..], i, n);
      k := k + 1;
    }
  }

  lemma {:induction false} TallDistinct<T>(items: seq<Item<T>>, i: nat)
    requires Distinct(items)
    ensures forall j, k :: 0 <= j < k < |Tall(items, i)| ==> Tall(items, i)[j] != Tall(items, i)[k]
  {
    if items != [] {
      TallDistinct(items[1..], i);
      if items[0].node in Tall(items[1..], i) {
        var k := TallFrom(items[1..], i, items[0].node);
        assert false;
      }
    }
  }

  /** Every level is sorted. */
  lemma {:induction false} LevelSorted<T>(rank: T -> int, items: seq<Item<T>>, i: nat)
    requires Sorted(rank, items)
    ensures forall j, k :: 0 <= j < k < |Tall(items, i)| ==>
      rank(Tall(items, i)[j].value) <= rank(Tall(items, i)[k].value)
  {
    if items != [] {
      LevelSorted(rank, items[1..], i);
      forall n | n in Tall(items[1..], i) ensures rank(items[0].node.value) <= rank(n.value) {
        var k := TallFrom(items[1..], i, n);
        assert items[k + 1].node == n;
      }
    }
  }

  /** Every level is a sub-list of the next. */
  lemma {:induction false} LevelIsSublist<T>(items: seq<Item<T>>, i: nat)
    ensures Sublist(Tall(items, i), Tall(items, i + 1))
  {
    if items != [] {
      LevelIsSublist(items[1..], i);
      var a, b := Tall(items[1..], i), Tall(items[1..], i + 1);
      if items[0].top <= i {
        assert ([items[0].node] + a)[1..] == a && ([items[0].node] + b)[1..] == b;
      } else if items[0].top == i + 1 {
        assert Tall(items, i + 1)[1..] == b && Tall(items, i) == a;
      } else {
        assert Tall(items, i + 1) == b && Tall(items, i) == a;
      }
    }
  }

  /** The densest level holds every node that is on a level at all. */
  lemma {:induction false} BottomIsAll<T>(items: seq<Item<T>>, level: nat)
    requires level > 0 && forall k :: 0 <= k < |items| ==> items[k].top < level
    ensures Tall(items, level - 1) == All(items)
  {
    if items != [] {
      BottomIsAll(items[1..], level);
    }
  }

  // ---- one node on one level more or fewer ----

  ghost function WithTop<T>(items: seq<Item<T>>, k: nat, top: nat): (r: seq<Item<T>>)
    requires k < |items|
    ensures |r| == |items|
  {
    items[k := Item(items[k].node, top)]
  }

  lemma SplitTall<T>(items: seq<Item<T>>, k: nat, i: nat)
    requires k < |items|
    ensures Tall(items, i) ==
      Tall(items[..k], i) + (if items[k].top <= i then [items[k].node] else []) + Tall(items[k + 1..], i)
  {
    assert items == items[..k] + ([items[k]] + items[k + 1..]);
    TallConcat(items[..k], [items[k]] + items[k + 1..], i);
    assert ([items[k]] + items[k + 1..])[1..] == items[k + 1..];
  }

  /** Setting the top of entry `k` from `i + 1` to `i` or back changes level `i` and no other. */
  lemma OnlyLevel<T>(items: seq<Item<T>>, k: nat, i: nat, j: nat)
    requires k < |items|
    ensures j != i ==> Tall(WithTop(items, k, i), j) == Tall(WithTop(items, k, i + 1), j)
    ensures Tall(WithTop(items, k, i), i) == Tall(items[..k], i) + [items[k].node] + Tall(items[k + 1..], i)
    ensures Tall(WithTop(items, k, i + 1), i) == Tall(items[..k], i) + Tall(items[k + 1..], i)
  {
    var a, b := WithTop(items, k, i), WithTop(items, k, i + 1);
    assert a[..k] == items[..k] == b[..k] && a[k + 1..] == items[k + 1..] == b[k + 1..];
    SplitTall(a, k, j);
    SplitTall(b, k, j);
    SplitTall(a, k, i);
    SplitTall(b, k, i);
  }

  // ---- cells ----

  ghost predicate Unlike<T>(c: seq<Link<T>>) {
    forall j, k :: 0 <= j < k < |c| ==> c[j] != c[k]
  }

  /** The cells of a level: the head and then the link of each node. */
  ghost function Cells<T>(head: Link<T>, s: seq<Node<T>>, i: nat): (c: seq<Link<T>>)
    ensures |c| == |s| + 1 && c[0] == head
    ensures forall k, m :: 0 <= k < |s| && 0 <= m < |c| && m == k + 1 && i < |s[k].links| ==> c[m] == s[k].links[i]
  {
    [head] + seq(|s|, k requires 0 <= k < |s| => if i < |s[k].links| then s[k].links[i] else head)
  }

  /** No two nodes share a link, no node shares one with a head, and no link serves two levels. */
  ghost predicate Sound<T>(items: seq<Item<T>>, heads: seq<Link<T>>, level: nat) {
    && |heads| == level
    && (forall i :: 0 <= i < level ==> heads[i].level == i)
    && (forall k :: 0 <= k < |items| ==> |items[k].node.links| == level && items[k].top <= level)
    && (forall k, i :: 0 <= k < |items| && 0 <= i < level ==> Own(items[k].node, i, heads))
    && (forall j, k, i :: 0 <= j < k < |items| && 0 <= i < level ==> items[j].node.links[i] != items[k].node.links[i])
    && Distinct(items)
  }

  ghost predicate Own<T>(n: Node<T>, i: nat, heads: seq<Link<T>>)
    requires i < |heads|
  {
    i < |n.links| && n.links[i].level == i && n.links[i] != heads[i]
  }

  ghost function LevelCells<T>(items: seq<Item<T>>, heads: seq<Link<T>>, i: nat): (c: seq<Link<T>>)
    requires i < |heads|
    ensures |c| == |Tall(items, i)| + 1
  {
    Cells(heads[i], Tall(items, i), i)
  }

  /** A cell of a level that is not its head is the link of a node on it. */
  lemma CellFrom<T>(items: seq<Item<T>>, heads: seq<Link<T>>, level: nat, i: nat, x: nat) returns (k: nat)
    requires Sound(items, heads, level) && i < level && 1 <= x < |LevelCells(items, heads, i)|
    ensures k < |items| && items[k].top <= i && items[k].node == Tall(items, i)[x - 1]
    ensures LevelCells(items, heads, i)[x] == items[k].node.links[i]
  {
    k := TallFrom(items, i, Tall(items, i)[x - 1]);
  }

  lemma CellsAre<T>(items: seq<Item<T>>, heads: seq<Link<T>>, level: nat, i: nat)
    requires Sound(items, heads, level) && i < level
    ensures forall x :: x in LevelCells(items, heads, i) ==> x.level == i
    ensures Unlike(LevelCells(items, heads, i))
    ensures forall k :: 0 <= k < |items| && items[k].top > i ==> items[k].node.links[i] !in LevelCells(items, heads, i)
  {
    var c := LevelCells(items, heads, i);
    forall x | 0 <= x < |c| ensures c[x].level == i {
      if x > 0 { var k := CellFrom(items, heads, level, i, x); assert Own(items[k].node, i, heads); }
    }
    forall x, y | 0 <= x < y < |c| ensures c[x] != c[y] {
      var k := CellFrom(items, heads, level, i, y);
      assert Own(items[k].node, i, heads);
      if x > 0 {
        var j := CellFrom(items, heads, level, i, x);
        TallDistinct(items, i);
      }
    }
    forall k | 0 <= k < |items| && items[k].top > i ensures items[k].node.links[i] !in c {
      assert Own(items[k].node, i, heads);
      if items[k].node.links[i] in c {
        var x :| 0 <= x < |c| && c[x] == items[k].node.links[i];
        var j := CellFrom(items, heads, level, i, x);
      }
    }
  }

  /** The cells of `c` but the first are the links of the nodes of `s`. */
  ghost predicate Belong<T>(c: seq<Link<T>>, s: seq<Node<T>>, i: nat) {
    && (forall k :: 0 <= k < |s| ==> i < |s[k].links|)
    && (forall k, m :: 0 <= k < |s| && 0 <= m < |c| && m == k + 1 ==> c[m] == s[k].links[i])
  }

  lemma LevelBelongs<T>(items: seq<Item<T>>, heads: seq<Link<T>>, level: nat, i: nat)
    requires Sound(items, heads, level) && i < level
    ensures Belong(LevelCells(items, heads, i), Tall(items, i), i)
  {
    forall k | 0 <= k < |Tall(items, i)| ensures i < |Tall(items, i)[k].links| {
      var j := CellFrom(items, heads, level, i, k + 1);
    }
  }

  lemma OtherTop<T>(rank: T -> int, items: seq<Item<T>>, heads: seq<Link<T>>, level: nat, k: nat, top: nat)
    requires Sound(items, heads, level) && Sorted(rank, items) && k < |items| && top <= level
    ensures Sound(WithTop(items, k, top), heads, level) && Sorted(rank, WithTop(items, k, top))
  {
    var r := WithTop(items, k, top);
    assert forall j :: 0 <= j < |r| ==> r[j].node == items[j].node;
  }

  /** What a node's arrival on level `i` does to the nodes and cells of each level. */
  lemma Arrival<T>(items: seq<Item<T>>, heads: seq<Link<T>>, level: nat, k: nat, i: nat)
    requires Sound(items, heads, level) && k < |items| && i < level && items[k].top == i + 1
    ensures var r, p := WithTop(items, k, i), |Tall(items[..k], i)|;
      var s, c := Tall(items, i), LevelCells(items, heads, i);
      && p <= |s|
      && Tall(r, i) == s[..p] + [items[k].node] + s[p..]
      && LevelCells(r, heads, i) == c[..p + 1] + [items[k].node.links[i]] + c[p + 1..]
    ensures forall j :: 0 <= j < level && j != i ==>
      && Tall(WithTop(items, k, i), j) == Tall(items, j)
      && LevelCells(WithTop(items, k, i), heads, j) == LevelCells(items, heads, j)
  {
    assert WithTop(items, k, i + 1) == items;
    OnlyLevel(items, k, i, i);
    var r, p, node := WithTop(items, k, i), |Tall(items[..k], i)|, items[k].node;
    var s, c := Tall(items, i), LevelCells(items, heads, i);
    assert s[..p] == Tall(items[..k], i) && s[p..] == Tall(items[k + 1..], i);
    CellsSplice(heads[i], s, p, node, i);
    forall j | 0 <= j < level && j != i ensures Tall(r, j) == Tall(items, j) {
      OnlyLevel(items, k, i, j);
    }
  }

  lemma CellsSplice<T>(head: Link<T>, s: seq<Node<T>>, p: nat, node: Node<T>, i: nat)
    requires p <= |s| && i < |node.links|
    ensures Cells(head, s[..p] + [node] + s[p..], i) ==
      Cells(head, s, i)[..p + 1] + [node.links[i]] + Cells(head, s, i)[p + 1..]
  {
  }

  ghost function LastOf<T>(s: seq<Node<T>>): Node?<T> {
    if s == [] then null else s[|s| - 1]
  }

  /** The cell behind which entry `k` belongs on level `i`. */
  lemma PredCell<T>(items: seq<Item<T>>, heads: seq<Link<T>>, level: nat, k: nat, i: nat)
    requires Sound(items, heads, level) && k < |items| && i < level
    ensures var a, c := Tall(items[..k], i), LevelCells(items, heads, i);
      && |a| < |c|
      && (a == [] ==> c[|a|] == heads[i])
      && (a != [] ==> i < |a[|a| - 1].links| && c[|a|] == a[|a| - 1].links[i])
  {
    var a := Tall(items[..k], i);
    SplitTall(items, k, i);
    LevelBelongs(items, heads, level, i);
    if a != [] { assert a[|a| - 1] == Tall(items, i)[|a| - 1]; }
  }

  /** What a node's departure from level `i` does. */
  lemma Departure<T>(items: seq<Item<T>>, heads: seq<Link<T>>, level: nat, k: nat, i: nat)
    requires Sound(items, heads, level) && k < |items| && i < level && items[k].top == i
    ensures var r, p := WithTop(items, k, i + 1), |Tall(items[..k], i)|;
      var s, c := Tall(items, i), LevelCells(items, heads, i);
      && p < |s| && s[p] == items[k].node
      && Tall(r, i) == s[..p] + s[p + 1..]
      && LevelCells(r, heads, i) == c[..p + 1] + c[p + 2..]
    ensures forall j :: 0 <= j < level && j != i ==>
      && Tall(WithTop(items, k, i + 1), j) == Tall(items, j)
      && LevelCells(WithTop(items, k, i + 1), heads, j) == LevelCells(items, heads, j)
  {
    assert WithTop(items, k, i) == items;
    OnlyLevel(items, k, i, i);
    var r, p := WithTop(items, k, i + 1), |Tall(items[..k], i)|;
    var s, c := Tall(items, i), LevelCells(items, heads, i);
    assert s[..p] == Tall(items[..k], i) && s[p + 1..] == Tall(items[k + 1..], i);
    assert Cells(heads[i], s[..p] + s[p + 1..], i) == c[..p + 1] + c[p + 2..];
    forall j | 0 <= j < level && j != i ensures Tall(r, j) == Tall(items, j) {
      OnlyLevel(items, k, i, j);
    }
  }

  /** An entry that is on no level may be put in or left out. */
  lemma Bystander<T>(items: seq<Item<T>>, k: nat, j: nat)
    requires k < |items| && items[k].top > j
    ensures Tall(items, j) == Tall(items[..k] + items[k + 1..], j)
  {
    SplitTall(items, k, j);
    TallConcat(items[..k], items[k + 1..], j);
  }

  /** How many entries come before a value that is put in. */
  ghost function Below<T>(rank: T -> int, items: seq<Item<T>>, v: T): (p: nat)
    ensures p <= |items|
  {
    if items == [] || rank(items[0].node.value) >= rank(v) then 0 else 1 + Below(rank, items[1..], v)
  }

  lemma {:induction false} BelowSplits<T>(rank: T -> int, items: seq<Item<T>>, v: T)
    requires Sorted(rank, items)
    ensures var p := Below(rank, items, v);
      && (forall k :: 0 <= k < p ==> rank(items[k].node.value) < rank(v))
      && (forall k :: p <= k < |items| ==> rank(v) <= rank(items[k].node.value))
  {
    if items != [] && rank(items[0].node.value) < rank(v) {
      BelowSplits(rank, items[1..], v);
    }
  }

  /** `items` with a node put in at `p` that is on no level. */
  ghost function Admitted<T>(items: seq<Item<T>>, p: nat, node: Node<T>, level: nat): (r: seq<Item<T>>)
    requires p <= |items|
    ensures |r| == |items| + 1 && r[p] == Item(node, level)
    ensures forall k :: 0 <= k < p ==> r[k] == items[k]
    ensures forall k, m :: p < k < |r| && p <= m < |items| && m == k - 1 ==> r[k] == items[m]
  {
    items[..p] + [Item(node, level)] + items[p..]
  }

  lemma AdmittedKeeps<T>(rank: T -> int, items: seq<Item<T>>, heads: seq<Link<T>>, level: nat, p: nat, node: Node<T>)
    requires Sound(items, heads, level) && Sorted(rank, items) && p == Below(rank, items, node.value)
    requires |node.links| == level && level > 0 && forall i :: 0 <= i < level ==> Own(node, i, heads)
    requires forall k, i :: 0 <= k < |items| && 0 <= i < level ==> node.links[i] != items[k].node.links[i]
    ensures var r := Admitted(items, p, node, level); Sound(r, heads, level) && Sorted(rank, r)
    ensures forall j :: 0 <= j < level ==> Tall(Admitted(items, p, node, level), j) == Tall(items, j)
    ensures Admitted(items, p, node, level)[..p] == items[..p]
  {
    hide Tall, Sound, Sorted, Below;
    var r := Admitted(items, p, node, level);
    BelowSplits(rank, items, node.value);
    AdmittedSorted(rank, items, p, node, level);
    AdmittedSound(items, heads, level, p, node);
    forall j | 0 <= j < level ensures Tall(r, j) == Tall(items, j) {
      Bystander(r, p, j);
      assert r[..p] + r[p + 1..] == items;
    }
  }

  lemma AdmittedSorted<T>(rank: T -> int, items: seq<Item<T>>, p: nat, node: Node<T>, level: nat)
    requires Sorted(rank, items) && p <= |items|
    requires forall k :: 0 <= k < p ==> rank(items[k].node.value) < rank(node.value)
    requires forall k :: p <= k < |items| ==> rank(node.value) <= rank(items[k].node.value)
    ensures Sorted(rank, Admitted(items, p, node, level))
  {
    var r := Admitted(items, p, node, level);
    forall j, k | 0 <= j < k < |r| ensures rank(r[j].node.value) <= rank(r[k].node.value) {
      if j < p { assert r[j] == items[j]; } else if j > p { assert r[j] == items[j - 1]; }
      if k < p { assert r[k] == items[k]; } else if k > p { assert r[k] == items[k - 1]; }
    }
  }

  lemma AdmittedSound<T>(items: seq<Item<T>>, heads: seq<Link<T>>, level: nat, p: nat, node: Node<T>)
    requires Sound(items, heads, level) && p <= |items|
    requires |node.links| == level && level > 0 && forall i :: 0 <= i < level ==> Own(node, i, heads)
    requires forall k, i :: 0 <= k < |items| && 0 <= i < level ==> node.links[i] != items[k].node.links[i]
    ensures Sound(Admitted(items, p, node, level), heads, level)
  {
    var r := Admitted(items, p, node, level);
    forall k | 0 <= k < |r|
      ensures |r[k].node.links| == level && r[k].top <= level && forall i :: 0 <= i < level ==> Own(r[k].node, i, heads)
    {
      if k < p { assert r[k] == items[k]; } else if k > p { assert r[k] == items[k - 1]; }
    }
    forall j, k, i | 0 <= j < k < |r| && 0 <= i < level ensures r[j].node.links[i] != r[k].node.links[i] {
      if j < p { assert r[j] == items[j]; } else if j > p { assert r[j] == items[j - 1]; }
      if k < p { assert r[k] == items[k]; } else if k > p { assert r[k] == items[k - 1]; }
    }
    forall j, k | 0 <= j < k < |r| ensures r[j].node != r[k].node {
      assert r[j].node.links[0] != r[k].node.links[0];
    }
  }

  lemma TopDoesNotMatter<T>(items: seq<Item<T>>, k: nat, top: nat)
    requires k < |items|
    ensures Without(WithTop(items, k, top), k) == Without(items, k)
  {
  }

  lemma WithoutKeeps<T>(rank: T -> int, items: seq<Item<T>>, heads: seq<Link<T>>, level: nat, k: nat)
    requires Sound(items, heads, level) && Sorted(rank, items) && k < |items| && items[k].top == level
    ensures Sound(Without(items, k), heads, level) && Sorted(rank, Without(items, k))
    ensures forall j :: 0 <= j < level ==> Tall(Without(items, k), j) == Tall(items, j)
  {
    hide Tall, Sound, Sorted;
    WithoutSorted(rank, items, k);
    WithoutSound(items, heads, level, k);
    forall j | 0 <= j < level ensures Tall(Without(items, k), j) == Tall(items, j) {
      Bystander(items, k, j);
    }
  }

  lemma WithoutSorted<T>(rank: T -> int, items: seq<Item<T>>, k: nat)
    requires Sorted(rank, items) && k < |items|
    ensures Sorted(rank, Without(items, k))
  {
    var r := Without(items, k);
    forall i, j | 0 <= i < j < |r| ensures rank(r[i].node.value) <= rank(r[j].node.value) {
      assert r[i] == items[if i < k then i else i + 1] && r[j] == items[if j < k then j else j + 1];
    }
  }

  lemma WithoutSound<T>(items: seq<Item<T>>, heads: seq<Link<T>>, level: nat, k: nat)
    requires Sound(items, heads, level) && k < |items|
    ensures Sound(Without(items, k), heads, level)
  {
    hide Own;
    var r := Without(items, k);
    forall i | 0 <= i < |r|
      ensures |r[i].node.links| == level && r[i].top <= level && forall j :: 0 <= j < level ==> Own(r[i].node, j, heads)
    {
      assert r[i] == items[if i < k then i else i + 1];
    }
    forall i, j | 0 <= i < j < |r|
      ensures r[i].node != r[j].node && forall l :: 0 <= l < level ==> r[i].node.links[l] != r[j].node.links[l]
    {
      assert r[i] == items[if i < k then i else i + 1] && r[j] == items[if j < k then j else j + 1];
    }
  }

  /** Putting an entry in, or leaving one out, changes the values of the densest level by exactly that one. */
  lemma OneMoreOrFewer<T>(items: seq<Item<T>>, p: nat, x: Item<T>, level: nat)
    requires p <= |items| && x.top < level && forall k :: 0 <= k < |items| ==> items[k].top < level
    ensures var with := items[..p] + [x] + items[p..];
      && multiset(Values(Tall(with, level - 1))) == multiset(Values(Tall(items, level - 1))) + multiset{x.node.value}
      && Without(with, p) == items
  {
    var with := items[..p] + [x] + items[p..];
    BottomIsAll(items, level);
    BottomIsAll(with, level);
    var all := Values(All(items));
    assert Values(All(with)) == all[..p] + [x.node.value] + all[p..];
    assert all == all[..p] + all[p..];
    assert Without(with, p) == items;
  }

  lemma OneFewer<T>(items: seq<Item<T>>, k: nat, level: nat)
    requires k < |items| && level > 0 && forall j :: 0 <= j < |items| ==> items[j].top < level
    ensures multiset(Values(Tall(Without(items, k), level - 1)))
      == multiset(Values(Tall(items, level - 1))) - multiset{items[k].node.value}
  {
    var left := Without(items, k);
    assert items == left[..k] + [items[k]] + left[k..];
    OneMoreOrFewer(left, k, items[k], level);
  }

  ghost predicate NoneEqual<T>(rank: T -> int, s: seq<Node<T>>, v: T) {
    forall x :: 0 <= x < |s| ==> rank(s[x].value) != rank(v)
  }

  /** The same on one level. */
  lemma LevelSplits<T>(rank: T -> int, items: seq<Item<T>>, v: T, i: nat)
    requires Sorted(rank, items)
    ensures var s, a := Tall(items, i), Tall(items[..Below(rank, items, v)], i);
      && |a| <= |s| && s[..|a|] == a
      && (forall x :: 0 <= x < |a| ==> rank(s[x].value) < rank(v))
      && (forall x :: |a| <= x < |s| ==> rank(v) <= rank(s[x].value))
  {
    hide Tall, Below;
    var p := Below(rank, items, v);
    var s, a, b := Tall(items, i), Tall(items[..p], i), Tall(items[p..], i);
    BelowSplits(rank, items, v);
    assert items == items[..p] + items[p..];
    TallConcat(items[..p], items[p..], i);
    TallAll(items[..p], i, (n: Node<T>) => rank(n.value) < rank(v));
    TallAll(items[p..], i, (n: Node<T>) => rank(v) <= rank(n.value));
    assert forall x :: |a| <= x < |s| ==> s[x] == b[x - |a|];
  }

  lemma {:induction false} TallAll<T>(items: seq<Item<T>>, i: nat, holds: Node<T> -> bool)
    requires forall k :: 0 <= k < |items| ==> holds(items[k].node)
    ensures forall x :: 0 <= x < |Tall(items, i)| ==> holds(Tall(items, i)[x])
  {
    if items != [] { TallAll(items[1..], i, holds); }
  }

  /** The last node before the value on one level is before it on the next. */
  lemma HelpIsOnNext<T>(items: seq<Item<T>>, i: nat) returns (q: nat)
    requires Tall(items, i) != []
    ensures q < |Tall(items, i + 1)| && Tall(items, i + 1)[q] == LastOf(Tall(items, i))
  {
    var k := TallFrom(items, i, LastOf(Tall(items, i)));
    TallHas(items, i + 1, k);
    q :| 0 <= q < |Tall(items, i + 1)| && Tall(items, i + 1)[q] == items[k].node;
  }

  /** Where the coin flips stop: `stop(j)` is the flip after level `j`. */
  function Reached(stop: nat -> bool, i: nat): (top: nat)
    ensures top <= i && (top == 0 || stop(top)) && forall j :: top < j <= i ==> !stop(j)
  {
    if i == 0 || stop(i) then i else Reached(stop, i - 1)
  }
}
