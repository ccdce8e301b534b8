/** Left-leaning red-black trees as values (rbtree.c, default 2-3 build).

    Each function is the value a C routine computes on the tree hanging from its argument; the
    pointer version in RbTree.dfy is proved to compute exactly these.
 */
module RbSpec {
  import opened Options
  import opened Comparators
  import opened SortedLists

  datatype Tree<K, V> =
    | Leaf
    | Node(red: bool, left: Tree<K, V>, key: K, value: V, right: Tree<K, V>)
  {
    ghost function Size(): nat {
      if Leaf? then 0 else left.Size() + 1 + right.Size()
    }
  }

  predicate IsRed<K, V>(t: Tree<K, V>) {
    t.Node? && t.red
  }

  // ---- colour changes and rotations ----

  ghost function Flip<K, V>(t: Tree<K, V>): Tree<K, V> {
    if t.Leaf? then t else t.(red := !t.red)
  }

  ghost function ColorFlip<K, V>(t: Tree<K, V>): (u: Tree<K, V>)
    requires t.Node?
    ensures u.Size() == t.Size()
  {
    Node(!t.red, Flip(t.left), t.key, t.value, Flip(t.right))
  }

  ghost function RotateLeft<K, V>(t: Tree<K, V>): (u: Tree<K, V>)
    requires t.Node? && t.right.Node?
    ensures u.Size() == t.Size()
  {
    var r := t.right;
    Node(t.red, Node(true, t.left, t.key, t.value, r.left), r.key, r.value, r.right)
  }

  ghost function RotateRight<K, V>(t: Tree<K, V>): (u: Tree<K, V>)
    requires t.Node? && t.left.Node?
    ensures u.Size() == t.Size()
  {
    var l := t.left;
    Node(t.red, l.left, l.key, l.value, Node(true, l.right, t.key, t.value, t.right))
  }

  ghost function LeanLeft<K, V>(t: Tree<K, V>): (u: Tree<K, V>)
    requires t.Node?
    ensures u.Node? && u.Size() == t.Size()
  {
    if IsRed(t.right) then RotateLeft(t) else t
  }

  ghost function SplitReds<K, V>(t: Tree<K, V>): (u: Tree<K, V>)
    requires t.Node?
    ensures u.Node? && u.Size() == t.Size()
  {
    var u := if IsRed(t.left) && IsRed(t.left.left) then RotateRight(t) else t;
    if IsRed(u.left) && IsRed(u.right) then ColorFlip(u) else u
  }

  ghost function FixUp<K, V>(t: Tree<K, V>): (u: Tree<K, V>)
    requires t.Node?
    ensures u.Node? && u.Size() == t.Size()
  {
    SplitReds(LeanLeft(t))
  }

  // ---- insertion ----

  /** The rebalancing at the end of insertion; unlike FixUp it leans left only when the left
      child is not red already. */
  ghost function InsertFix<K, V>(t: Tree<K, V>): Tree<K, V>
    requires t.Node?
  {
    SplitReds(if !IsRed(t.left) && IsRed(t.right) then RotateLeft(t) else t)
  }

  ghost function InsertNode<K, V>(rank: K -> int, t: Tree<K, V>, k: K, v: V): Tree<K, V> {
    if t.Leaf? then Node(true, Leaf, k, v, Leaf)
    else if rank(k) == rank(t.key) then InsertFix(t.(value := v))
    else if rank(k) < rank(t.key) then InsertFix(t.(left := InsertNode(rank, t.left, k, v)))
    else InsertFix(t.(right := InsertNode(rank, t.right, k, v)))
  }

  // ---- deletion ----

  ghost function MoveRedLeft<K, V>(t: Tree<K, V>): (u: Tree<K, V>)
    requires t.Node? && t.left.Node?
    ensures u.Node? && u.left.Node? && u.Size() == t.Size()
  {
    var u := ColorFlip(t);
    if u.right.Node? && IsRed(u.right.left)
    then ColorFlip(RotateLeft(u.(right := RotateRight(u.right))))
    else u
  }

  ghost function MoveRedRight<K, V>(t: Tree<K, V>): (u: Tree<K, V>)
    requires t.Node? && t.right.Node?
    ensures u.Node? && u.right.Node? && u.Size() == t.Size()
  {
    if t.left.Leaf? then t
    else
      var u := ColorFlip(t);
      if IsRed(u.left.left) then ColorFlip(RotateRight(u)) else u
  }

  /** What is done to a node before the deletion descends into its left child. */
  ghost function PrepareLeft<K, V>(t: Tree<K, V>): (u: Tree<K, V>)
    requires t.Node?
    ensures u.Node? && u.Size() == t.Size() && (t.left.Node? ==> u.left.Node?)
  {
    if t.left.Node? && !IsRed(t.left) && !IsRed(t.left.left) then MoveRedLeft(t) else t
  }

  ghost function LeanRight<K, V>(t: Tree<K, V>): (u: Tree<K, V>)
    requires t.Node?
    ensures u.Node? && u.Size() == t.Size()
  {
    if IsRed(t.left) then RotateRight(t) else t
  }

  /** What is done to a node before the deletion descends into its right child. */
  ghost function PrepareRight<K, V>(t: Tree<K, V>): (u: Tree<K, V>)
    requires t.Node? && t.right.Node?
    ensures u.Node? && u.right.Node? && u.Size() == t.Size()
  {
    if !IsRed(t.right) && !IsRed(t.right.left) then MoveRedRight(t) else t
  }

  ghost function Min<K, V>(t: Tree<K, V>): (e: Entry<K, V>)
    requires t.Node?
  {
    if t.left.Leaf? then Entry(t.key, t.value) else Min(t.left)
  }

  ghost function DeleteMin<K, V>(t: Tree<K, V>): Tree<K, V>
    requires t.Node?
    decreases t.Size()
  {
    if t.left.Leaf? then Leaf
    else
      var u := PrepareLeft(t);
      FixUp(u.(left := DeleteMin(u.left)))
  }

  ghost function DeleteNode<K, V>(rank: K -> int, t: Tree<K, V>, k: K): Tree<K, V>
    decreases t.Size()
  {
    if t.Leaf? then Leaf
    else if rank(k) < rank(t.key) then
      var u := PrepareLeft(t);
      FixUp(u.(left := DeleteNode(rank, u.left, k)))
    else
      var u := LeanRight(t);
      if u.right.Leaf? then
        if rank(k) == rank(u.key) then Leaf else FixUp(u)
      else
        var w := PrepareRight(u);
        if rank(k) == rank(w.key) then
          var m := Min(w.right);
          FixUp(Node(w.red, w.left, m.key, m.value, DeleteMin(w.right)))
        else
          FixUp(w.(right := DeleteNode(rank, w.right, k)))
  }

  // ---- the public operations ----

  ghost function Insert<K, V>(rank: K -> int, t: Tree<K, V>, k: K, v: V): Tree<K, V> {
    InsertNode(rank, t, k, v)
  }

  ghost function Remove<K, V>(rank: K -> int, t: Tree<K, V>, k: K): Tree<K, V> {
    var u := DeleteNode(rank, t, k);
    if u.Leaf? then u else u.(red := false)
  }

  // ---- what a tree means, and when it is legal ----

  ghost function InOrder<K, V>(t: Tree<K, V>): seq<Entry<K, V>> {
    if t.Leaf? then [] else InOrder(t.left) + [Entry(t.key, t.value)] + InOrder(t.right)
  }

  /** Black nodes on the leftmost path; Balanced says that every other path has as many. */
  ghost function BlackHeight<K, V>(t: Tree<K, V>): nat {
    if t.Leaf? then 0 else BlackHeight(t.left) + if t.red then 0 else 1
  }

  ghost predicate Balanced<K, V>(t: Tree<K, V>) {
    t.Node? ==> Balanced(t.left) && Balanced(t.right) && BlackHeight(t.left) == BlackHeight(t.right)
  }

  /** No red right child and no red node with a red child. */
  ghost predicate Leaning<K, V>(t: Tree<K, V>) {
    t.Node? ==> Leaning(t.left) && Leaning(t.right) && !IsRed(t.right) && !(t.red && IsRed(t.left))
  }

  /** Legal when the colour of the root is ignored: the only liberty is a red root over a red
      left child. This is what every insertion and removal keeps. */
  ghost predicate Legal<K, V>(t: Tree<K, V>) {
    Balanced(t) && (t.Node? ==> Leaning(t.left) && Leaning(t.right) && !IsRed(t.right))
  }

  ghost predicate Ordered<K, V>(rank: K -> int, t: Tree<K, V>) {
    StrictlySorted(rank, InOrder(t))
  }
}
