/** The red-black tree of rbtree.c: nodes linked by pointers and changed in place.

    Every routine is proved to turn the tree hanging from its argument into the value RbSpec gives
    for it, so what RbProofs and RbRuns prove about those values holds of the linked nodes.
 */
module RbTree {
  import opened Options
  import opened Comparators
  import opened SortedLists
  import Spec = RbSpec
  import Proofs = RbProofs
  import Runs = RbRuns

  class RBNode<K, V> {
    var isRed: bool
    var left: RBNode?<K, V>
    var right: RBNode?<K, V>
    var key: K
    var value: V

    ghost var repr: set<RBNode<K, V>>
    ghost var tree: Spec.Tree<K, V>

    /** The nodes below are disjoint, `repr` holds all of them, and `tree` is what they spell. */
    ghost predicate Valid()
      reads this, repr
      ensures Valid() ==> this in repr && tree.Node?
      decreases repr
    {
      && this in repr
      && tree.Node? && tree.red == isRed && tree.key == key && tree.value == value
      && (left == null ==> tree.left == Spec.Leaf)
      && (left != null ==>
            && left in repr && left.repr <= repr && this !in left.repr
            && left.Valid() && tree.left == left.tree)
      && (right == null ==> tree.right == Spec.Leaf)
      && (right != null ==>
            && right in repr && right.repr <= repr && this !in right.repr
            && right.Valid() && tree.right == right.tree)
      && (left != null && right != null ==> left.repr !! right.repr)
    }

    /** A detached red node, as allocRBNode hands it out. */
    constructor (k: K, v: V)
      ensures Valid() && fresh(repr) && repr == {this}
      ensures tree == Spec.Node(true, Spec.Leaf, k, v, Spec.Leaf)
      ensures key == k && value == v
    {
      isRed, left, right, key, value := true, null, null, k, v;
      repr := {this};
      tree := Spec.Node(true, Spec.Leaf, k, v, Spec.Leaf);
    }
  }

  ghost function TreeOf<K, V>(n: RBNode?<K, V>): Spec.Tree<K, V>
    reads n
  {
    if n == null then Spec.Leaf else n.tree
  }

  ghost function ReprOf<K, V>(n: RBNode?<K, V>): set<RBNode<K, V>>
    reads n
  {
    if n == null then {} else n.repr
  }

  ghost predicate ValidOrNull<K, V>(n: RBNode?<K, V>)
    reads n, ReprOf(n)
  {
    n != null ==> n.Valid()
  }

  predicate IsRed<K, V>(n: RBNode?<K, V>)
    reads n
  {
    n != null && n.isRed
  }

  /** The colours the routines test are those of the tree. */
  lemma Colours<K, V>(n: RBNode<K, V>)
    requires n.Valid()
    ensures n.left == null <==> n.tree.left.Leaf?
    ensures n.right == null <==> n.tree.right.Leaf?
    ensures IsRed(n.left) == Spec.IsRed(n.tree.left) && IsRed(n.right) == Spec.IsRed(n.tree.right)
    ensures n.left != null ==> IsRed(n.left.left) == Spec.IsRed(n.tree.left.left)
    ensures n.right != null ==> IsRed(n.right.left) == Spec.IsRed(n.tree.right.left)
  {
    ChildColours(n);
    if n.left != null { ChildColours(n.left); }
    if n.right != null { ChildColours(n.right); }
  }

  lemma ChildColours<K, V>(n: RBNode<K, V>)
    requires n.Valid()
    ensures n.left == null <==> n.tree.left.Leaf?
    ensures n.right == null <==> n.tree.right.Leaf?
    ensures IsRed(n.left) == Spec.IsRed(n.tree.left) && IsRed(n.right) == Spec.IsRed(n.tree.right)
  {
  }

  // ---- rotations and colours ----

  method RotateLeft<K, V>(n: RBNode<K, V>) returns (r: RBNode<K, V>)
    requires n.Valid() && n.right != null
    modifies n, n.right
    ensures r.Valid() && r.repr == old(n.repr) && r.tree == Spec.RotateLeft(old(n.tree))
  {
    r := n.right;
    n.right := r.left;
    r.left := n;
    r.isRed := n.isRed;
    n.isRed := true;

    ghost var whole := n.repr;
    n.repr := {n} + ReprOf(n.left) + ReprOf(n.right);
    n.tree := n.tree.(red := true, right := TreeOf(n.right));
    r.repr := whole;
    r.tree := r.tree.(red := r.isRed, left := n.tree);
  }

  method RotateRight<K, V>(n: RBNode<K, V>) returns (l: RBNode<K, V>)
    requires n.Valid() && n.left != null
    modifies n, n.left
    ensures l.Valid() && l.repr == old(n.repr) && l.tree == Spec.RotateRight(old(n.tree))
  {
    l := n.left;
    n.left := l.right;
    l.right := n;
    l.isRed := n.isRed;
    n.isRed := true;

    ghost var whole := n.repr;
    n.repr := {n} + ReprOf(n.left) + ReprOf(n.right);
    n.tree := n.tree.(red := true, left := TreeOf(n.left));
    l.repr := whole;
    l.tree := l.tree.(red := l.isRed, right := n.tree);
  }

  method ColorFlip<K, V>(n: RBNode<K, V>)
    requires n.Valid()
    modifies n.repr
    ensures n.Valid() && n.repr == old(n.repr) && n.tree == Spec.ColorFlip(old(n.tree))
  {
    n.isRed := !n.isRed;
    n.tree := Spec.ColorFlip(n.tree);
    if n.left != null {
      FlipNode(n.left);
    }
    if n.right != null {
      FlipNode(n.right);
    }
  }

  method FlipNode<K, V>(n: RBNode<K, V>)
    requires n.Valid()
    modifies n
    ensures n.Valid() && n.repr == old(n.repr) && n.tree == Spec.Flip(old(n.tree))
  {
    n.isRed := !n.isRed;
    n.tree := Spec.Flip(n.tree);
  }

  /** The tail shared by insertion and fixUp: undo two reds in a row, then split a 4-node. */
  method SplitReds<K, V>(n: RBNode<K, V>) returns (r: RBNode<K, V>)
    requires n.Valid()
    modifies n.repr
    ensures r.Valid() && r.repr == old(n.repr) && r.tree == Spec.SplitReds(old(n.tree))
  {
    r := n;
    Colours(r);
    if IsRed(r.left) && IsRed(r.left.left) {
      r := RotateRight(r);
    }
    Colours(r);
    if IsRed(r.left) && IsRed(r.right) {
      ColorFlip(r);
    }
  }

  method FixUp<K, V>(n: RBNode<K, V>) returns (r: RBNode<K, V>)
    requires n.Valid()
    modifies n.repr
    ensures r.Valid() && r.repr == old(n.repr) && r.tree == Spec.FixUp(old(n.tree))
  {
    r := n;
    Colours(r);
    if IsRed(r.right) {
      r := RotateLeft(r);
    }
    r := SplitReds(r);
  }

  // ---- hanging a changed subtree back ----

  /** `n` without regard to its children: the rest of it still agrees with its tree. */
  ghost predicate Standing<K, V>(n: RBNode<K, V>)
    reads n
  {
    n.tree.Node? && n.tree.red == n.isRed && n.tree.key == n.key && n.tree.value == n.value
  }

  ghost predicate Apart<K, V>(n: RBNode<K, V>, l: RBNode?<K, V>, r: RBNode?<K, V>)
    reads l, ReprOf(l), r, ReprOf(r)
  {
    ValidOrNull(l) && ValidOrNull(r) && ReprOf(l) !! ReprOf(r) && n !in ReprOf(l) && n !in ReprOf(r)
  }

  method SetLeft<K, V>(n: RBNode<K, V>, l: RBNode?<K, V>)
    requires Standing(n) && Apart(n, l, n.right) && n.tree.right == TreeOf(n.right)
    modifies n
    ensures n.Valid() && n.left == l && n.right == old(n.right) && n.repr == {n} + ReprOf(l) + ReprOf(n.right)
    ensures n.tree == old(n.tree).(left := TreeOf(l))
  {
    n.left := l;
    n.repr := {n} + ReprOf(l) + ReprOf(n.right);
    n.tree := n.tree.(left := TreeOf(l));
  }

  method SetRight<K, V>(n: RBNode<K, V>, r: RBNode?<K, V>)
    requires Standing(n) && Apart(n, n.left, r) && n.tree.left == TreeOf(n.left)
    modifies n
    ensures n.Valid() && n.right == r && n.left == old(n.left) && n.repr == {n} + ReprOf(n.left) + ReprOf(r)
    ensures n.tree == old(n.tree).(right := TreeOf(r))
  {
    n.right := r;
    n.repr := {n} + ReprOf(n.left) + ReprOf(r);
    n.tree := n.tree.(right := TreeOf(r));
  }

  // ---- insertion ----

  method InsertNode<K(!new), V>(n: RBNode?<K, V>, newNode: RBNode<K, V>, cmp: (K, K) -> int, ghost rank: K -> int)
    returns (r: RBNode<K, V>)
    requires RankedBy(cmp, rank)
    requires ValidOrNull(n) && newNode.Valid() && newNode !in ReprOf(n)
    requires newNode.repr == {newNode} && newNode.tree == Spec.Node(true, Spec.Leaf, newNode.key, newNode.value, Spec.Leaf)
    modifies ReprOf(n) + {newNode}
    ensures r.Valid() && r.repr <= old(ReprOf(n)) + {newNode}
    ensures r.tree == old(Spec.InsertNode(rank, TreeOf(n), newNode.key, newNode.value))
    decreases TreeOf(n), 1
  {
    if n == null {
      return newNode;
    }
    InsertBelow(n, newNode, cmp, rank);
    r := InsertFix(n);
  }

  method InsertBelow<K(!new), V>(n: RBNode<K, V>, newNode: RBNode<K, V>, cmp: (K, K) -> int, ghost rank: K -> int)
    requires RankedBy(cmp, rank)
    requires n.Valid() && newNode.Valid() && newNode !in n.repr
    requires newNode.repr == {newNode} && newNode.tree == Spec.Node(true, Spec.Leaf, newNode.key, newNode.value, Spec.Leaf)
    modifies n.repr, newNode
    ensures n.Valid() && n.repr <= old(n.repr) + {newNode}
    ensures old(Spec.InsertNode(rank, n.tree, newNode.key, newNode.value)) == Spec.InsertFix(n.tree)
    decreases n.tree, 0
  {
    var c := cmp(newNode.key, n.key);
    if c == 0 {
      n.value := newNode.value;
      n.tree := n.tree.(value := n.value);
    } else if c <= 0 {
      var l := InsertNode(n.left, newNode, cmp, rank);
      SetLeft(n, l);
    } else {
      var x := InsertNode(n.right, newNode, cmp, rank);
      SetRight(n, x);
    }
  }

  method InsertFix<K, V>(n: RBNode<K, V>) returns (r: RBNode<K, V>)
    requires n.Valid()
    modifies n.repr
    ensures r.Valid() && r.repr == old(n.repr) && r.tree == Spec.InsertFix(old(n.tree))
  {
    r := n;
    Colours(r);
    if !IsRed(r.left) && IsRed(r.right) {
      r := RotateLeft(r);
    }
    r := SplitReds(r);
  }

  // ---- deletion ----

  method GetMin<K, V>(n: RBNode<K, V>) returns (m: RBNode<K, V>)
    requires n.Valid()
    ensures m in n.repr && Entry(m.key, m.value) == Spec.Min(n.tree)
  {
    m := n;
    while m.left != null
      invariant m.Valid() && m in n.repr && m.repr <= n.repr
      invariant Spec.Min(m.tree) == Spec.Min(n.tree)
      decreases m.repr
    {
      m := m.left;
    }
  }

  method RotateChildRight<K, V>(n: RBNode<K, V>)
    requires n.Valid() && n.tree.right.Node? && n.tree.right.left.Node?
    modifies n.repr
    ensures n.Valid() && n.repr <= old(n.repr)
    ensures n.tree == old(n.tree.(right := Spec.RotateRight(n.tree.right)))
  {
    Colours(n);
    ChildColours(n.right);
    var x := RotateRight(n.right);
    SetRight(n, x);
  }

  method MoveRedLeft<K, V>(n: RBNode<K, V>) returns (r: RBNode<K, V>)
    requires n.Valid() && n.left != null
    modifies n.repr
    ensures r.Valid() && r.repr <= old(n.repr) && r.tree == Spec.MoveRedLeft(old(n.tree))
  {
    r := n;
    ColorFlip(r);
    Colours(r);
    if r.right != null && IsRed(r.right.left) {
      RotateChildRight(r);
      r := RotateLeft(r);
      ColorFlip(r);
    }
  }

  method MoveRedRight<K, V>(n: RBNode<K, V>) returns (r: RBNode<K, V>)
    requires n.Valid() && n.right != null
    modifies n.repr
    ensures r.Valid() && r.repr == old(n.repr) && r.tree == Spec.MoveRedRight(old(n.tree))
  {
    r := n;
    Colours(r);
    if r.left != null && r.right != null {
      ColorFlip(r);
      Colours(r);
      if r.left != null && IsRed(r.left.left) {
        r := RotateRight(r);
        ColorFlip(r);
      }
    }
  }

  method DeleteMin<K, V>(n: RBNode<K, V>) returns (r: RBNode?<K, V>)
    requires n.Valid()
    modifies n.repr
    ensures ValidOrNull(r) && ReprOf(r) <= old(n.repr)
    ensures TreeOf(r) == Spec.DeleteMin(old(n.tree))
    decreases n.tree.Size(), 1
  {
    Colours(n);
    if n.left == null {
      return null;
    }
    var u := n;
    if !IsRed(n.left) && !IsRed(n.left.left) {
      u := MoveRedLeft(n);
    }
    Colours(u);
    DeleteMinLeft(u);
    r := FixUp(u);
  }

  method DeleteMinLeft<K, V>(n: RBNode<K, V>)
    requires n.Valid() && n.left != null
    modifies n.repr
    ensures n.Valid() && n.repr <= old(n.repr)
    ensures n.tree == old(n.tree.(left := Spec.DeleteMin(n.tree.left)))
    decreases n.tree.Size(), 0
  {
    var l := DeleteMin(n.left);
    SetLeft(n, l);
  }

  /** Deletes `key` from the subtree at `n`. The precondition holds of every legal tree at its root
      and is what the descent passes on; it is why the node freed below has no left child. */
  method DeleteNode<K(!new), V>(n: RBNode?<K, V>, key: K, cmp: (K, K) -> int, ghost rank: K -> int)
    returns (r: RBNode?<K, V>)
    requires RankedBy(cmp, rank)
    requires ValidOrNull(n) && Proofs.Deletable(rank, TreeOf(n), key)
    modifies ReprOf(n)
    ensures ValidOrNull(r) && ReprOf(r) <= old(ReprOf(n))
    ensures TreeOf(r) == old(Spec.DeleteNode(rank, TreeOf(n), key))
    decreases TreeOf(n).Size(), 2
  {
    r := n;
    if n != null {
      Colours(n);
      Proofs.DeletableBelow(rank, n.tree, key);
      var u := n;
      if cmp(key, u.key) < 0 {
        if u.left != null && !IsRed(u.left) && !IsRed(u.left.left) {
          u := MoveRedLeft(u);
        }
        DeleteFromLeft(u, key, cmp, rank);
      } else {
        if IsRed(u.left) {
          u := RotateRight(u);
        }
        Colours(u);
        if cmp(key, u.key) == 0 && u.right == null {
          assert u.left == null;
          return null;
        }
        if u.right != null {
          if !IsRed(u.right) && !IsRed(u.right.left) {
            u := MoveRedRight(u);
          }
          Colours(u);
          if cmp(key, u.key) == 0 {
            ReplaceBySuccessor(u);
          } else {
            DeleteFromRight(u, key, cmp, rank);
          }
        }
      }
      r := FixUp(u);
    }
  }

  method DeleteFromLeft<K(!new), V>(n: RBNode<K, V>, key: K, cmp: (K, K) -> int, ghost rank: K -> int)
    requires RankedBy(cmp, rank)
    requires n.Valid() && Proofs.Deletable(rank, n.tree.left, key)
    modifies n.repr
    ensures n.Valid() && n.repr <= old(n.repr)
    ensures n.tree == old(n.tree.(left := Spec.DeleteNode(rank, n.tree.left, key)))
    decreases n.tree.Size(), 1
  {
    var l := DeleteNode(n.left, key, cmp, rank);
    SetLeft(n, l);
  }

  method DeleteFromRight<K(!new), V>(n: RBNode<K, V>, key: K, cmp: (K, K) -> int, ghost rank: K -> int)
    requires RankedBy(cmp, rank)
    requires n.Valid() && Proofs.Deletable(rank, n.tree.right, key)
    modifies n.repr
    ensures n.Valid() && n.repr <= old(n.repr)
    ensures n.tree == old(n.tree.(right := Spec.DeleteNode(rank, n.tree.right, key)))
    decreases n.tree.Size(), 1
  {
    var x := DeleteNode(n.right, key, cmp, rank);
    SetRight(n, x);
  }

  method ReplaceBySuccessor<K, V>(n: RBNode<K, V>)
    requires n.Valid() && n.right != null && n.tree.right.Node?
    modifies n.repr
    ensures n.Valid() && n.repr <= old(n.repr)
    ensures n.tree == old(var m := Spec.Min(n.tree.right);
      Spec.Node(n.tree.red, n.tree.left, m.key, m.value, Spec.DeleteMin(n.tree.right)))
  {
    var m := GetMin(n.right);
    n.key := m.key;
    n.value := m.value;
    n.tree := n.tree.(key := n.key, value := n.value);
    var x := DeleteMin(n.right);
    SetRight(n, x);
  }

  // ---- the library's interface ----

  method Descend<K(!new), V>(root: RBNode?<K, V>, key: K, cmp: (K, K) -> int, ghost rank: K -> int)
    returns (found: Option<V>, ghost comparisons: nat)
    requires RankedBy(cmp, rank) && ValidOrNull(root)
    ensures found == Runs.Search(rank, TreeOf(root), key)
    ensures comparisons == Runs.Comparisons(rank, TreeOf(root), key)
  {
    comparisons := 0;
    var n := root;
    while n != null
      invariant ValidOrNull(n)
      invariant Runs.Search(rank, TreeOf(n), key) == Runs.Search(rank, TreeOf(root), key)
      invariant comparisons + Runs.Comparisons(rank, TreeOf(n), key) == Runs.Comparisons(rank, TreeOf(root), key)
      decreases TreeOf(n)
    {
      var c := cmp(key, n.key);
      comparisons := comparisons + 1;
      if c < 0 {
        n := n.left;
      } else if c > 0 {
        n := n.right;
      } else {
        return Some(n.value), comparisons;
      }
    }
    found := None;
  }

  class RBTree<K(!new), V> {
    var root: RBNode?<K, V>
    const cmp: (K, K) -> int
    ghost const rank: K -> int

    ghost predicate Valid()
      reads this, root, ReprOf(root)
    {
      && RankedBy(cmp, rank) && ValidOrNull(root)
      && Spec.Legal(TreeOf(root)) && Spec.Ordered(rank, TreeOf(root))
    }

    /** The entries of the tree in increasing order of key. */
    ghost function Contents(): seq<Entry<K, V>>
      reads this, root
    {
      Spec.InOrder(TreeOf(root))
    }

    constructor (cmp: (K, K) -> int, ghost rank: K -> int)
      requires RankedBy(cmp, rank)
      ensures Valid() && root == null && Contents() == [] && this.cmp == cmp && this.rank == rank
    {
      this.cmp, this.rank := cmp, rank;
      root := null;
    }

    method Search(key: K) returns (found: Option<V>, ghost comparisons: nat)
      requires Valid()
      ensures found == Lookup(rank, Contents(), key)
      ensures Runs.Logarithmic(comparisons, |Contents()|)
    {
      found, comparisons := Descend(root, key, cmp, rank);
      Runs.SearchIsLookup(rank, TreeOf(root), key);
      Runs.SearchIsLogarithmic(rank, TreeOf(root), key);
    }

    /** The node is allocated before the tree is looked at, so without memory (`memory` says whether
        there is any) even an equal key keeps its value. */
    method Insert(key: K, value: V, memory: bool) returns (ok: bool)
      requires Valid()
      modifies this, ReprOf(root)
      ensures Valid() && fresh(ReprOf(root) - old(ReprOf(root)))
      ensures ok <==> memory
      ensures Contents() == if memory then Store(rank, old(Contents()), key, value) else old(Contents())
      ensures memory ==> AnswersOnly(rank, old(Contents()), Contents(), key, Some(value))
    {
      hide AnswersOnly, Store, Spec.Legal, Spec.Ordered, Spec.InOrder, Spec.InsertNode;
      ok := memory;
      if memory {
        Runs.InsertWorks(rank, TreeOf(root), key, value);
        var n := new RBNode(key, value);
        root := InsertNode(root, n, cmp, rank);
        assert TreeOf(root) == old(Spec.InsertNode(rank, TreeOf(root), key, value));
      }
    }

    method Remove(key: K)
      requires Valid()
      modifies this, ReprOf(root)
      ensures Valid() && ReprOf(root) <= old(ReprOf(root)) && !IsRed(root)
      ensures Contents() == Erase(rank, old(Contents()), key)
      ensures AnswersOnly(rank, old(Contents()), Contents(), key, None)
    {
      hide AnswersOnly, Erase, Spec.Legal, Spec.Ordered, Spec.InOrder, Spec.DeleteNode, Proofs.Deletable;
      Runs.RemoveAnswers(rank, TreeOf(root), key);
      root := DeleteNode(root, key, cmp, rank);
      if root != null {
        root.isRed := false;
        root.tree := root.tree.(red := false);
      }
    }
  }
}
