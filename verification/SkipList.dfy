/** The skip list of test_skiplist.cpp, linked in place. */
module SkipLists {
  import opened Sequences
  import opened Comparators
  import opened SkipSpec

  /** One level: the cells of `c` hold the nodes of `s` in order, and the back link of each node names its cell. */
  ghost predicate Chained<T>(c: seq<Link<T>>, s: seq<Node<T>>)
    reads c
  {
    && |c| == |s| + 1
    && (forall k :: 0 <= k < |s| ==> c[k].next == s[k])
    && c[|s|].next == null
    && (forall k, m :: 0 <= k < m < |c| && m == k + 1 ==> c[m].back == c[k])
  }

  /** A node is put behind the cell `c[p]`. */
  method Splice<T>(cell: Link<T>, node: Node<T>, i: nat, ghost c: seq<Link<T>>, ghost s: seq<Node<T>>, ghost p: nat)
    requires Chained(c, s) && Unlike(c) && p < |c| && c[p] == cell
    requires Belong(c, s, i)
    requires i < |node.links| && node.links[i] !in c
    modifies c, node.links[i]
    ensures Chained(c[..p + 1] + [node.links[i]] + c[p + 1..], s[..p] + [node] + s[p..])
  {
    var link := node.links[i];
    assert cell.next == if p < |s| then s[p] else null;
    link.next := cell.next;
    if cell.next != null {
      assert cell.next.links[i] == c[p + 1];
      cell.next.links[i].back := link;
    }
    link.back := cell;
    cell.next := node;
    ghost var d, t := c[..p + 1] + [link] + c[p + 1..], s[..p] + [node] + s[p..];
    assert forall k :: 0 <= k <= p ==> d[k] == c[k];
    assert forall k :: p + 1 < k < |d| ==> d[k] == c[k - 1];
    assert forall k :: p + 1 <= k < |t| ==> t[k] == s[k - 1];
  }

  /** One level of the removal's loop: if the cell `c[p]` holds the node it is taken out, and a node
      whose link is unused is left alone. */
  method Unsplice<T>(node: Node<T>, i: nat, ghost linked: bool, ghost c: seq<Link<T>>, ghost s: seq<Node<T>>, ghost p: nat)
    requires i < |node.links|
    requires linked ==> Chained(c, s) && Unlike(c) && p < |s| && s[p] == node && Belong(c, s, i)
    requires !linked ==> Quiet(node.links[i])
    modifies c
    ensures if linked then Chained(c[..p + 1] + c[p + 2..], s[..p] + s[p + 1..]) else unchanged(c)
  {
    var link := node.links[i];
    assert linked ==> link == c[p + 1] && link.back == c[p];
    if link.next != null {
      assert link.next == s[p + 1] && s[p + 1].links[i] == c[p + 2];
      link.next.links[i].back := link.back;
    }
    if link.back != null {
      link.back.next := link.next;
    }
    if linked {
      ghost var d, t := c[..p + 1] + c[p + 2..], s[..p] + s[p + 1..];
      assert forall k :: 0 <= k <= p ==> d[k] == c[k];
      assert forall k :: p < k < |d| ==> d[k] == c[k + 1];
      assert forall k :: p <= k < |t| ==> t[k] == s[k + 1];
    }
  }

  ghost predicate Quiet<T>(l: Link<T>)
    reads l
  {
    l.next == null && l.back == null
  }

  lemma PassedAll<T>(rank: T -> int, s: seq<Node<T>>, v: T, q: nat)
    requires q <= |s| && forall j, k :: 0 <= j < k < |s| ==> rank(s[j].value) <= rank(s[k].value)
    requires forall x :: 0 <= x < q ==> rank(s[x].value) < rank(v)
    requires q < |s| ==> rank(v) < rank(s[q].value)
    ensures NoneEqual(rank, s, v)
  {
  }

  class SkipList<T(!new)> {
    const level: nat
    const heads: seq<Link<T>>
    var help: seq<Node?<T>>
    const cmp: (T, T) -> int
    ghost const rank: T -> int
    ghost var items: seq<Item<T>>
    ghost var repr: set<Link<T>>

    ghost predicate Shape()
      reads this`items, this`repr, repr
    {
      && level > 0 && RankedBy(cmp, rank)
      && Sound(items, heads, level) && Sorted(rank, items)
      && (forall i :: 0 <= i < level ==> heads[i] in repr)
      && (forall k, i :: 0 <= k < |items| && 0 <= i < level ==> items[k].node.links[i] in repr)
      && (forall i :: 0 <= i < level ==> LevelChained(i))
    }

    ghost predicate LevelChained(i: nat)
      requires i < |heads|
      reads this`items, this`repr, repr
    {
      var c := LevelCells(items, heads, i);
      (forall x :: 0 <= x < |c| ==> c[x] in repr) && Chained(c, Tall(items, i))
    }

    /** A node that is not on a level has no links there; node `but` may be on its way out. */
    ghost predicate QuietBut(but: int)
      reads this`items, this`repr, repr
    {
      forall k, i :: 0 <= k < |items| && k != but && 0 <= i < items[k].top ==> QuietAt(items[k].node, i)
    }

    ghost predicate QuietAt(node: Node<T>, i: nat)
      reads this`items, this`repr, repr
    {
      i < |node.links| && node.links[i] in repr ==> Quiet(node.links[i])
    }

    /** The values of the densest level. */
    ghost function Contents(): multiset<T>
      reads this`items
    {
      if level == 0 then multiset{} else multiset(Values(Tall(items, level - 1)))
    }

    ghost predicate Valid()
      reads this, repr
    {
      Shape() && QuietBut(-1) && |help| == level && forall k :: 0 <= k < |items| ==> items[k].top < level
    }

    /** A node goes onto one more level. */
    method Raise(i: nat, node: Node<T>, pred: Node?<T>, ghost k: nat)
      requires Shape() && QuietBut(-1) && k < |items| && items[k] == Item(node, i + 1) && i < level
      requires pred == LastOf(Tall(items[..k], i))
      modifies this`items, repr
      ensures Shape() && QuietBut(-1) && items == WithTop(old(items), k, i) && repr == old(repr)
    {
      hide Tall, LevelCells, Sorted, Chained, Unlike, Belong, Quiet, Distinct;
      ghost var c, s, p := LevelCells(items, heads, i), Tall(items, i), |Tall(items[..k], i)|;
      CellsAre(items, heads, level, i);
      LevelBelongs(items, heads, level, i);
      Arrival(items, heads, level, k, i);
      PredCell(items, heads, level, k, i);
      OtherTop(rank, items, heads, level, k, i);
      var cell := if pred == null then heads[i] else pred.links[i];
      assert LevelChained(i);
      Splice(cell, node, i, c, s, p);
      items := WithTop(items, k, i);
      forall j | 0 <= j < level && j != i ensures LevelChained(j) {
        assert old(LevelChained(j));
        CellsAre(old(items), heads, level, j);
        ghost var d := LevelCells(old(items), heads, j);
        assert forall x :: 0 <= x < |d| ==> d[x] in d;
        assert Own(node, i, heads);
      }
      forall m, j | 0 <= m < |items| && 0 <= j < items[m].top ensures QuietAt(items[m].node, j) {
        assert old(QuietAt(items[m].node, j));
        assert Own(items[m].node, j, heads) && Own(node, i, heads);
      }
    }

    /** A node leaves level `i`, or is left alone if it is not on it. */
    method Lower(i: nat, node: Node<T>, ghost k: nat)
      requires Shape() && QuietBut(k) && k < |items| && items[k].node == node && i < level
      requires items[k].top == i || (items[k].top > i && QuietAt(node, i))
      modifies this`items, repr
      ensures Shape() && QuietBut(k) && repr == old(repr)
      ensures items == WithTop(old(items), k, if old(items)[k].top == i then i + 1 else old(items)[k].top)
      ensures old(items)[k].top > i ==> unchanged(repr)
    {
      hide Tall, LevelCells, Sorted, Chained, Unlike, Belong, Quiet, Distinct;
      ghost var linked := items[k].top == i;
      ghost var c, s, p := LevelCells(items, heads, i), Tall(items, i), |Tall(items[..k], i)|;
      CellsAre(items, heads, level, i);
      LevelBelongs(items, heads, level, i);
      assert LevelChained(i) && Own(node, i, heads);
      if linked {
        Departure(items, heads, level, k, i);
        OtherTop(rank, items, heads, level, k, i + 1);
      }
      Unsplice(node, i, linked, c, s, p);
      if linked {
        items := WithTop(items, k, i + 1);
        assert LevelChained(i);
        forall j | 0 <= j < level && j != i ensures LevelChained(j) {
          assert old(LevelChained(j));
          CellsAre(old(items), heads, level, j);
          ghost var d := LevelCells(old(items), heads, j);
          assert forall x :: 0 <= x < |d| ==> d[x] in d;
        }
        forall m, j | 0 <= m < |items| && m != k && 0 <= j < items[m].top ensures QuietAt(items[m].node, j) {
          assert old(QuietAt(items[m].node, j));
          assert Own(items[m].node, j, heads);
        }
      }
    }

    /** One level of a search: on from `start`, past every node below `v`. */
    method Walk(i: nat, v: T, start: Node?<T>, exact: bool, ghost q0: nat) returns (found: Node?<T>)
      requires Shape() && i < level && |help| == level && help[i] == null
      requires q0 <= |Tall(items[..Below(rank, items, v)], i)| && (q0 > 0 ==> q0 < |Tall(items[..Below(rank, items, v)], i)|)
      requires start == if q0 < |Tall(items, i)| then Tall(items, i)[q0] else null
      modifies this`help
      ensures |help| == level && forall j :: 0 <= j < level && j != i ==> help[j] == old(help)[j]
      ensures !exact ==> found == null
      ensures found != null ==> found in Tall(items, i) && rank(found.value) == rank(v)
      ensures found == null ==> help[i] == LastOf(Tall(items[..Below(rank, items, v)], i))
      ensures found == null && exact ==> NoneEqual(rank, Tall(items, i), v)
    {
      hide Tall, Below, Sound, Belong, LevelCells, RankedBy, Sign, NoneEqual;
      ghost var s, a := Tall(items, i), Tall(items[..Below(rank, items, v)], i);
      LevelSplits(rank, items, v, i);
      LevelSorted(rank, items, i);
      LevelBelongs(items, heads, level, i);
      var node, q := start, q0;
      while node != null
        invariant |help| == level && forall j :: 0 <= j < level && j != i ==> help[j] == old(help)[j]
        invariant q <= |a| && node == if q < |s| then s[q] else null
        invariant if q == q0 then help[i] == null else q > 0 && help[i] == s[q - 1]
        decreases |s| - q
      {
        var r := cmp(v, node.value);
        Compared(cmp, rank, v, node.value);
        if r == 0 && exact {
          return node;
        } else if r <= 0 {
          break;
        }
        help := help[i := node];
        node, q := NextOn(node, i, q), q + 1;
      }
      assert q == |a|;
      if exact {
        PassedAll(rank, s, v, q);
      }
      found := null;
    }

    function NextOn(node: Node<T>, i: nat, ghost q: nat): (n: Node?<T>)
      requires Shape() && i < level && q < |Tall(items, i)| && Tall(items, i)[q] == node
      reads this`items, this`repr, repr
      ensures n == if q + 1 < |Tall(items, i)| then Tall(items, i)[q + 1] else null
    {
      ghost var c := LevelCells(items, heads, i);
      assert LevelChained(i);
      LevelBelongs(items, heads, level, i);
      assert c[q + 1] == node.links[i];
      node.links[i].next
    }

    /** All levels, from the sparsest: each starts from the last node passed on the one before. */
    method Descend(v: T, exact: bool) returns (found: Node?<T>)
      requires Valid()
      modifies this`help
      ensures |help| == level && (!exact ==> found == null)
      ensures found == null ==> forall j :: 0 <= j < level ==> help[j] == LastOf(Tall(items[..Below(rank, items, v)], j))
      ensures found != null ==> exists k :: 0 <= k < |items| && items[k].node == found && rank(found.value) == rank(v)
      ensures exact && found == null ==> forall k :: 0 <= k < |items| ==> rank(items[k].node.value) != rank(v)
    {
      hide Tall, Below, Sound, Sorted, LevelChained, QuietBut;
      ghost var p := Below(rank, items, v);
      help := seq(level, _ => null);
      for i := 0 to level
        invariant |help| == level && forall j :: i <= j < level ==> help[j] == null
        invariant forall j :: 0 <= j < i ==> help[j] == LastOf(Tall(items[..p], j))
        invariant exact && i > 0 ==> NoneEqual(rank, Tall(items, i - 1), v)
      {
        var start := First(i);
        ghost var q := 0;
        LevelSplits(rank, items, v, i);
        if i > 0 && help[i - 1] != null {
          start := help[i - 1];
          q := HelpIsOnNext(items[..p], i - 1);
        }
        found := Walk(i, v, start, exact, q);
        if found != null {
          ghost var k := TallFrom(items, i, found);
          return;
        }
      }
      BottomIsAll(items, level);
      found := null;
    }

    function First(i: nat): (n: Node?<T>)
      requires Shape() && i < level
      reads this`items, this`repr, repr
      ensures n == if Tall(items, i) == [] then null else Tall(items, i)[0]
    {
      ghost var c := LevelCells(items, heads, i);
      assert LevelChained(i);
      assert c[0] == heads[i];
      heads[i].next
    }

    /** skipListSearch */
    method Search(v: T) returns (found: bool)
      requires Valid()
      modifies this`help
      ensures Valid() && found <==> exists k :: 0 <= k < |items| && rank(items[k].node.value) == rank(v)
    {
      var node := Descend(v, true);
      found := node != null;
    }

    method NewNode(v: T) returns (node: Node<T>)
      ensures fresh(node) && node.value == v && |node.links| == level
      ensures forall i :: 0 <= i < level ==> fresh(node.links[i]) && node.links[i].level == i && Quiet(node.links[i])
    {
      var links: seq<Link<T>> := [];
      for i := 0 to level
        invariant |links| == i
        invariant forall j :: 0 <= j < i ==> fresh(links[j]) && links[j].level == j && Quiet(links[j])
      {
        var link := new Link(i);
        links := links + [link];
      }
      node := new Node(v, links);
    }

    /** skipListInsert. `stop(j)` is the coin flip after level `j`; the new node goes before its equals. */
    method Insert(v: T, stop: nat -> bool, memory: bool) returns (ok: bool)
      requires Valid()
      modifies this`help, this`items, this`repr, repr
      ensures Valid() && ok == memory && fresh(repr - old(repr))
      ensures !ok ==> items == old(items)
      ensures ok ==> var p := Below(rank, old(items), v);
        && |items| == |old(items)| + 1 && items[p].node.value == v && items[p].top == Reached(stop, level - 1)
        && items == old(items)[..p] + [items[p]] + old(items)[p..]
      ensures Contents() == if ok then old(Contents()) + multiset{v} else old(Contents())
    {
      hide Tall, Sound, Sorted, LevelChained, QuietBut, Quiet, Below, Reached;
      if !memory {
        return false;
      }
      var node := NewNode(v);
      var none := Descend(v, false);
      Admit(node, Below(rank, items, v));
      LinkUp(node, stop, Below(rank, old(items), v));
      OneMoreOrFewer(old(items), Below(rank, old(items), v), items[Below(rank, old(items), v)], level);
      ok := true;
    }

    /** The new node takes its place in the order, though it is on no level yet. */
    ghost method Admit(node: Node<T>, p: nat)
      requires Valid() && p == Below(rank, items, node.value) && |node.links| == level
      requires forall i :: 0 <= i < level ==> node.links[i].level == i && node.links[i] !in repr && Quiet(node.links[i])
      modifies this`items, this`repr
      ensures Shape() && QuietBut(-1) && items == Admitted(old(items), p, node, level) && items[..p] == old(items)[..p]
      ensures repr == old(repr) + set l | l in node.links
    {
      hide Tall, Sorted, Below, Quiet, Admitted;
      ghost var was := items;
      forall i | 0 <= i < level ensures Own(node, i, heads) {
      }
      AdmittedKeeps(rank, was, heads, level, p, node);
      items := Admitted(was, p, node, level);
      repr := repr + set l | l in node.links;
      forall j | 0 <= j < level ensures LevelChained(j) {
        assert old(LevelChained(j));
      }
      forall k, i | 0 <= k < |items| && 0 <= i < level ensures items[k].node.links[i] in repr {
        if k < p { assert items[k] == was[k]; } else if k > p { assert items[k] == was[k - 1]; }
      }
      forall k, i | 0 <= k < |items| && 0 <= i < items[k].top ensures QuietAt(items[k].node, i) {
        if k < p {
          assert old(QuietAt(was[k].node, i));
        } else if k > p {
          assert items[k] == was[k - 1] && old(QuietAt(was[k - 1].node, i));
        }
      }
    }

    /** The loop that links the new node, from the densest level up as far as the coin allows. */
    method LinkUp(node: Node<T>, stop: nat -> bool, ghost p: nat)
      requires Shape() && QuietBut(-1) && p < |items| && items[p] == Item(node, level) && |help| == level
      requires forall j :: 0 <= j < level ==> help[j] == LastOf(Tall(items[..p], j))
      requires forall k :: 0 <= k < |items| && k != p ==> items[k].top < level
      modifies this`items, repr
      ensures Valid() && items == WithTop(old(items), p, Reached(stop, level - 1)) && repr == old(repr)
    {
      hide Tall, Sound, Sorted, LevelChained, QuietBut;
      var i := level - 1;
      Raise(i, node, help[i], p);
      while !stop(i) && i > 0
        invariant 0 <= i < level && Shape() && QuietBut(-1) && repr == old(repr)
        invariant items == WithTop(old(items), p, i) && items[..p] == old(items)[..p]
        invariant Reached(stop, level - 1) == Reached(stop, i)
      {
        i := i - 1;
        Raise(i, node, help[i], p);
      }
    }

    /** skipListRemove: one node that compares equal goes, if there is any. */
    method Remove(v: T) returns (removed: bool)
      requires Valid()
      modifies this`help, this`items, repr
      ensures Valid() && repr == old(repr)
      ensures removed <==> exists k :: 0 <= k < |old(items)| && rank(old(items)[k].node.value) == rank(v)
      ensures !removed ==> items == old(items)
      ensures removed ==> exists k ::
        && 0 <= k < |old(items)| && rank(old(items)[k].node.value) == rank(v) && items == Without(old(items), k)
        && Contents() == old(Contents()) - multiset{old(items)[k].node.value}
      ensures !removed ==> Contents() == old(Contents())
    {
      hide Tall, Sound, Sorted, LevelChained, Quiet, RankedBy;
      var node := Descend(v, true);
      if node == null {
        return false;
      }
      ghost var k :| 0 <= k < |items| && items[k].node == node;
      LinkOut(node, k);
      OneFewer(old(items), k, level);
      removed := true;
    }

    method LinkOut(node: Node<T>, ghost k: nat)
      requires Valid() && k < |items| && items[k].node == node
      modifies this`items, repr
      ensures Valid() && repr == old(repr) && items == Without(old(items), k)
    {
      hide Tall, Sorted, LevelChained, Quiet, RankedBy, Without;
      ghost var was, top := items, items[k].top;
      forall j | 0 <= j < top ensures QuietAt(node, j) {
        assert QuietAt(items[k].node, j);
      }
      for i := 0 to level
        invariant Shape() && QuietBut(k) && repr == old(repr)
        invariant items == WithTop(was, k, if i < top then top else i)
        invariant forall j :: i <= j < top ==> QuietAt(node, j)
      {
        Lower(i, node, k);
      }
      assert items == WithTop(was, k, level);
      TopDoesNotMatter(was, k, level);
      Expel(k);
    }

    /** The node that is on no level any more is forgotten. */
    ghost method Expel(k: nat)
      requires Shape() && QuietBut(k) && |help| == level && k < |items| && items[k].top == level
      requires forall m :: 0 <= m < |items| && m != k ==> items[m].top < level
      modifies this`items
      ensures Valid() && items == Without(old(items), k)
    {
      hide Tall, Sorted, Quiet, RankedBy, Without, LevelCells;
      ghost var was := items;
      WithoutKeeps(rank, was, heads, level, k);
      items := Without(was, k);
      assert forall j :: 0 <= j < k ==> items[j] == was[j];
      assert forall j :: k <= j < |items| ==> items[j] == was[j + 1];
      forall m, j | 0 <= m < |items| && 0 <= j < items[m].top ensures QuietAt(items[m].node, j) {
        assert items[m] == was[if m < k then m else m + 1];
        assert old(QuietAt(was[if m < k then m else m + 1].node, j));
      }
      forall j | 0 <= j < level ensures LevelChained(j) {
        assert old(LevelChained(j));
        assert LevelCells(items, heads, j) == LevelCells(was, heads, j) by { SameCells(was, items, heads, j); }
      }
    }

    /** skipListInit */
    constructor (level: nat, cmp: (T, T) -> int, ghost rank: T -> int)
      requires level > 0 && RankedBy(cmp, rank)
      ensures Valid() && items == [] && fresh(repr) && this.level == level && this.cmp == cmp && this.rank == rank
    {
      var cells: seq<Link<T>> := [];
      for i := 0 to level
        invariant |cells| == i
        invariant forall j :: 0 <= j < i ==> fresh(cells[j]) && cells[j].level == j && Quiet(cells[j])
      {
        var link := new Link(i);
        cells := cells + [link];
      }
      this.level, this.cmp, this.rank := level, cmp, rank;
      heads, help, items := cells, seq(level, _ => null), [];
      repr := set l | l in cells;
    }
  }

  lemma SameCells<T>(was: seq<Item<T>>, now: seq<Item<T>>, heads: seq<Link<T>>, j: nat)
    requires j < |heads| && Tall(was, j) == Tall(now, j)
    ensures LevelCells(was, heads, j) == LevelCells(now, heads, j)
  {
  }
}
