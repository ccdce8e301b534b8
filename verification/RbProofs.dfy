/** What insertion and removal keep: colours, black heights, contents, and height. */
module RbProofs {
  import opened Comparators
  import opened SortedLists
  import opened RbSpec

  // ---- insertion: shape ----

  /** The repair after an insertion below `u`: one side is as it was, the other is red at worst,
      and only an already red left side may have come back as two reds in a row. */
  lemma InsertFixLegal<K, V>(u: Tree<K, V>)
    requires u.Node? && Balanced(u) && Legal(u.left) && Leaning(u.right)
    requires !Leaning(u.left) ==> !IsRed(u.right)
    ensures Legal(InsertFix(u))
    ensures !u.red ==> Leaning(InsertFix(u))
    ensures !u.red || !IsRed(u.left) || (Leaning(u.left) && !IsRed(u.right)) ==> BlackHeight(InsertFix(u)) == BlackHeight(u)
  {
    if !Leaning(u.left) {
      var w := RotateRight(u);
      assert Balanced(w) && Leaning(w.left) && Leaning(w.right);
      FlipSame(w.left);
      FlipSame(w.right);
    } else if IsRed(u.left) && IsRed(u.right) {
      FlipSame(u.left);
      FlipSame(u.right);
    }
  }

  lemma FlipSame<K, V>(t: Tree<K, V>)
    requires t.Node? && t.red && Leaning(t) && Balanced(t)
    ensures Leaning(Flip(t)) && Balanced(Flip(t)) && BlackHeight(Flip(t)) == BlackHeight(t) + 1
  {
  }

  /** Insertion never breaks legality. Below the root it keeps the black height, and a black
      subtree comes back with no two reds in a row. */
  lemma {:induction false} InsertKeepsLegal<K, V>(rank: K -> int, t: Tree<K, V>, k: K, v: V)
    requires Legal(t)
    ensures Legal(InsertNode(rank, t, k, v))
    ensures Leaning(t) ==> BlackHeight(InsertNode(rank, t, k, v)) == BlackHeight(t)
    ensures Leaning(t) && !IsRed(t) ==> Leaning(InsertNode(rank, t, k, v))
  {
    if t.Node? {
      if rank(k) < rank(t.key) {
        InsertKeepsLegal(rank, t.left, k, v);
        InsertFixLegal(t.(left := InsertNode(rank, t.left, k, v)));
      } else if rank(k) > rank(t.key) {
        InsertKeepsLegal(rank, t.right, k, v);
        InsertFixLegal(t.(right := InsertNode(rank, t.right, k, v)));
      } else {
        InsertFixLegal(t.(value := v));
      }
    }
  }

  // ---- deletion: shape ----

  /** What a deletion needs of the subtree it enters, so that it can take a node away without
      changing the black height: a red to spare, at the subtree's root or at its left child. A red
      right child does when the key to delete is not smaller than the root's (`right`). */
  ghost predicate Descendable<K, V>(t: Tree<K, V>, right: bool) {
    t.Node? ==>
      && Balanced(t) && Leaning(t.left) && Leaning(t.right)
      && (|| (t.red && !IsRed(t.left) && !IsRed(t.right))
          || (!t.red && IsRed(t.left) && !IsRed(t.right))
          || (right && !t.red && !IsRed(t.left) && IsRed(t.right)))
  }

  /** A node whose child may now be replaced by a smaller tree of the same black height. */
  ghost predicate Prepared<K, V>(t: Tree<K, V>, u: Tree<K, V>) {
    && u.Node? && t.Node?
    && Balanced(u) && BlackHeight(u) == BlackHeight(t)
    && (u.red ==> t.red && !IsRed(u.left) && !IsRed(u.right))
    && (IsRed(u.left) && IsRed(u.right) ==> t.red)
  }

  /** What a deletion gives back for `t`. */
  ghost predicate Shrunk<K, V>(t: Tree<K, V>, r: Tree<K, V>) {
    Balanced(r) && Leaning(r) && BlackHeight(r) == BlackHeight(t) && (IsRed(r) ==> IsRed(t))
  }

  /** Turning a black node red takes one from its black height. */
  lemma FlipToRed<K, V>(t: Tree<K, V>)
    requires t.Node? && !t.red && Leaning(t) && Balanced(t)
    ensures Balanced(Flip(t)) && BlackHeight(Flip(t)) == BlackHeight(t) - 1
    ensures Leaning(Flip(t)) <==> !IsRed(t.left)
  {
  }

  lemma PrepareLeftShape<K, V>(t: Tree<K, V>)
    requires t.Node? && Descendable(t, false)
    ensures Prepared(t, PrepareLeft(t)) && Leaning(PrepareLeft(t).right) && Descendable(PrepareLeft(t).left, false)
  {
    if t.left.Node? && !IsRed(t.left) && !IsRed(t.left.left) {
      assert t.red && BlackHeight(t.left) > 0;
      assert t.right.Node?;
      FlipToRed(t.left);
      FlipToRed(t.right);
      if IsRed(t.right.left) {
        var l, r := Flip(t.left), t.right;
        var rl := r.left;
        assert Balanced(rl) && Leaning(rl);
        assert PrepareLeft(t) == Node(true, Node(false, l, t.key, t.value, rl.left), rl.key, rl.value,
                                      Node(false, rl.right, r.key, r.value, r.right));
        assert Balanced(PrepareLeft(t).left) && Balanced(PrepareLeft(t).right);
        assert Leaning(PrepareLeft(t).left) && Leaning(PrepareLeft(t).right);
      }
    }
  }

  /** When the right child is only descendable because of its red right child, the node above it
      used to be the left child, so its key is below the one to delete. */
  lemma PrepareRightShape<K, V>(t: Tree<K, V>)
    requires t.Node? && Descendable(t, true)
    ensures LeanRight(t).right.Leaf? ==> LeanRight(t) == t && t.left.Leaf?
    ensures LeanRight(t).right.Node? ==>
      var w := PrepareRight(LeanRight(t));
      && Prepared(t, w) && Leaning(w.left)
      && (w.key == t.key || (t.left.Node? && w.key == t.left.key))
      && (|| Descendable(w.right, false)
          || (t.left.Node? && w.key == t.left.key && w.right.key == t.key && Descendable(w.right, true)))
  {
    var u, l := LeanRight(t), t.left;
    if IsRed(l) {
      assert Balanced(l) && Leaning(l) && !IsRed(l.left) && !IsRed(l.right);
      assert u == Node(false, l.left, l.key, l.value, Node(true, l.right, t.key, t.value, t.right));
      assert Balanced(u.right) && Leaning(u.right);
      assert PrepareRight(u) == u;
    } else if t.right.Node? && !IsRed(t.right) && !IsRed(t.right.left) {
      assert t.red && BlackHeight(t.right) > 0;
      assert t.left.Node?;
      FlipToRed(t.left);
      FlipToRed(t.right);
      assert Balanced(l) && Leaning(l);
      if IsRed(l.left) {
        FlipSame(l.left);
        assert PrepareRight(u)
          == Node(true, Flip(l.left), l.key, l.value, Node(false, l.right, t.key, t.value, Flip(t.right)));
        assert Balanced(PrepareRight(u).right);
      } else {
        assert PrepareRight(u) == ColorFlip(t);
      }
    } else if t.right.Leaf? {
      assert t.left.Leaf?;
    }
  }

  lemma FixUpShape<K, V>(w: Tree<K, V>)
    requires w.Node? && Balanced(w) && Leaning(w.left) && Leaning(w.right)
    requires w.red ==> !IsRed(w.left) && !IsRed(w.right)
    ensures Balanced(FixUp(w)) && Leaning(FixUp(w)) && BlackHeight(FixUp(w)) == BlackHeight(w)
    ensures IsRed(FixUp(w)) ==> w.red || (IsRed(w.left) && IsRed(w.right))
  {
  }

  // ---- deletion: contents ----

  lemma Regroup<T>(a: seq<T>, x: seq<T>, b: seq<T>, y: seq<T>, c: seq<T>)
    ensures a + x + (b + y + c) == a + x + b + y + c
  {
  }

  lemma FlipKeepsOrder<K, V>(t: Tree<K, V>)
    ensures InOrder(Flip(t)) == InOrder(t)
    ensures t.Node? ==> InOrder(ColorFlip(t)) == InOrder(t)
  {
    if t.Node? {
      assert InOrder(Flip(t.left)) == InOrder(t.left);
      assert InOrder(Flip(t.right)) == InOrder(t.right);
    }
  }

  lemma RotationsKeepOrder<K, V>(t: Tree<K, V>)
    requires t.Node?
    ensures t.right.Node? ==> InOrder(RotateLeft(t)) == InOrder(t)
    ensures t.left.Node? ==> InOrder(RotateRight(t)) == InOrder(t)
  {
    var x := [Entry(t.key, t.value)];
    if t.right.Node? {
      var r := t.right;
      Regroup(InOrder(t.left), x, InOrder(r.left), [Entry(r.key, r.value)], InOrder(r.right));
    }
    if t.left.Node? {
      var l := t.left;
      Regroup(InOrder(l.left), [Entry(l.key, l.value)], InOrder(l.right), x, InOrder(t.right));
    }
  }

  lemma FixUpKeepsOrder<K, V>(t: Tree<K, V>)
    requires t.Node?
    ensures InOrder(SplitReds(t)) == InOrder(t)
    ensures InOrder(FixUp(t)) == InOrder(t) && InOrder(InsertFix(t)) == InOrder(t) && InOrder(LeanRight(t)) == InOrder(t)
  {
    RotationsKeepOrder(t);
    SplitRedsKeepsOrder(t);
    if t.right.Node? { SplitRedsKeepsOrder(RotateLeft(t)); }
  }

  lemma SplitRedsKeepsOrder<K, V>(t: Tree<K, V>)
    requires t.Node?
    ensures InOrder(SplitReds(t)) == InOrder(t)
  {
    RotationsKeepOrder(t);
    FlipKeepsOrder(t);
    if IsRed(t.left) && IsRed(t.left.left) { FlipKeepsOrder(RotateRight(t)); }
  }

  lemma PrepareLeftKeepsOrder<K, V>(t: Tree<K, V>)
    requires t.Node?
    ensures InOrder(PrepareLeft(t)) == InOrder(t)
  {
    FlipKeepsOrder(t);
    var u := ColorFlip(t);
    if u.right.Node? && IsRed(u.right.left) {
      var w := u.(right := RotateRight(u.right));
      RotationsKeepOrder(u.right);
      assert InOrder(w) == InOrder(u);
      RotationsKeepOrder(w);
      FlipKeepsOrder(RotateLeft(w));
    }
  }

  lemma PrepareRightKeepsOrder<K, V>(t: Tree<K, V>)
    requires t.Node? && t.right.Node?
    ensures InOrder(PrepareRight(t)) == InOrder(t)
  {
    if t.left.Node? {
      FlipKeepsOrder(t);
      var u := ColorFlip(t);
      assert u.left.Node?;
      if IsRed(u.left.left) {
        RotationsKeepOrder(u);
        FlipKeepsOrder(RotateRight(u));
      }
    }
  }

  /** deleteMin takes away exactly the first entry. */
  lemma {:induction false} DeleteMinWorks<K, V>(t: Tree<K, V>)
    requires t.Node? && Descendable(t, false)
    ensures Shrunk(t, DeleteMin(t))
    ensures InOrder(t) == [Min(t)] + InOrder(DeleteMin(t))
    decreases t.Size()
  {
    if t.left.Leaf? {
      assert t.right.Leaf?;
    } else {
      var u := PrepareLeft(t);
      PrepareLeftShape(t);
      DeleteMinWorks(u.left);
      var l := DeleteMin(u.left);
      FixUpShape(u.(left := l));
      DeleteMinOrder(t, u, l);
    }
  }

  lemma Regroup4<T>(a: seq<T>, b: seq<T>, c: seq<T>, d: seq<T>)
    ensures a + (b + c + d) == a + b + c + d
  {
  }

  lemma DeleteMinOrder<K, V>(t: Tree<K, V>, u: Tree<K, V>, l: Tree<K, V>)
    requires t.Node? && t.left.Node? && u == PrepareLeft(t)
    requires InOrder(u.left) == [Min(u.left)] + InOrder(l)
    ensures InOrder(t) == [Min(t)] + InOrder(FixUp(u.(left := l)))
  {
    PrepareLeftKeepsOrder(t);
    FixUpKeepsOrder(u.(left := l));
    MinIsFirst(t);
    Regroup4([Min(u.left)], InOrder(l), [Entry(u.key, u.value)], InOrder(u.right));
    assert InOrder(u.(left := l)) == InOrder(l) + [Entry(u.key, u.value)] + InOrder(u.right);
  }

  lemma {:induction false} MinIsFirst<K, V>(t: Tree<K, V>)
    requires t.Node?
    ensures InOrder(t) != [] && Min(t) == InOrder(t)[0]
  {
    if t.left.Node? { MinIsFirst(t.left); }
  }

  /** Replacing an entry by its successor and removing the successor below removes the entry. */
  lemma SuccessorCopy<K, V>(l: seq<Entry<K, V>>, m: Entry<K, V>, r: seq<Entry<K, V>>, rest: seq<Entry<K, V>>)
    requires r == [m] + rest
    ensures l + [m] + rest == l + r
  {
  }

  /** Deleting from a descendable subtree removes exactly the entries equal to `k`, keeps the black
      height, leaves a legal shape and makes no black root red. */
  lemma {:induction false} DeleteNodeWorks<K, V>(rank: K -> int, t: Tree<K, V>, k: K)
    requires Ordered(rank, t)
    requires t.Node? ==> Descendable(t, rank(k) >= rank(t.key))
    ensures Shrunk(t, DeleteNode(rank, t, k))
    ensures InOrder(DeleteNode(rank, t, k)) == Erase(rank, InOrder(t), k)
    decreases t.Size()
  {
    if t.Leaf? {
    } else if rank(k) < rank(t.key) {
      DeleteLeft(rank, t, k);
    } else {
      DeleteRight(rank, t, k);
    }
  }

  lemma {:induction false} DeleteLeft<K, V>(rank: K -> int, t: Tree<K, V>, k: K)
    requires t.Node? && Ordered(rank, t) && Descendable(t, false) && rank(k) < rank(t.key)
    ensures Shrunk(t, DeleteNode(rank, t, k))
    ensures InOrder(DeleteNode(rank, t, k)) == Erase(rank, InOrder(t), k)
    decreases t.Size(), 0
  {
    var u := PrepareLeft(t);
    PrepareLeftShape(t);
    PrepareLeftKeepsOrder(t);
    ChildKeys(rank, u);
    assert rank(k) < rank(u.key) by { ChildKeys(rank, t); }
    DeleteNodeWorks(rank, u.left, k);
    EraseLeft(rank, u, DeleteNode(rank, u.left, k), k);
    FinishLeft(t, u, DeleteNode(rank, u.left, k));
  }

  lemma EraseLeft<K, V>(rank: K -> int, u: Tree<K, V>, l: Tree<K, V>, k: K)
    requires u.Node? && Ordered(rank, u) && rank(k) < rank(u.key)
    requires InOrder(l) == Erase(rank, InOrder(u.left), k)
    ensures InOrder(u.(left := l)) == Erase(rank, InOrder(u), k)
  {
    OperationsLeft(rank, InOrder(u.left), Entry(u.key, u.value), InOrder(u.right), k, u.value);
  }

  lemma EraseRight<K, V>(rank: K -> int, u: Tree<K, V>, r: Tree<K, V>, k: K)
    requires u.Node? && Ordered(rank, u) && rank(k) > rank(u.key)
    requires InOrder(r) == Erase(rank, InOrder(u.right), k)
    ensures InOrder(u.(right := r)) == Erase(rank, InOrder(u), k)
  {
    OperationsRight(rank, InOrder(u.left), Entry(u.key, u.value), InOrder(u.right), k, u.value);
  }

  lemma EraseRoot<K, V>(rank: K -> int, u: Tree<K, V>, m: Entry<K, V>, rest: Tree<K, V>, k: K)
    requires u.Node? && Ordered(rank, u) && rank(k) == rank(u.key)
    requires InOrder(u.right) == [m] + InOrder(rest)
    ensures InOrder(Node(u.red, u.left, m.key, m.value, rest)) == Erase(rank, InOrder(u), k)
  {
    OperationsHere(rank, InOrder(u.left), Entry(u.key, u.value), InOrder(u.right), k, u.value);
    SuccessorCopy(InOrder(u.left), m, InOrder(u.right), InOrder(rest));
  }

  lemma FinishLeft<K, V>(t: Tree<K, V>, u: Tree<K, V>, l: Tree<K, V>)
    requires Prepared(t, u) && Leaning(u.right) && Shrunk(u.left, l)
    ensures Shrunk(t, FixUp(u.(left := l))) && InOrder(FixUp(u.(left := l))) == InOrder(u.(left := l))
  {
    FixUpShape(u.(left := l));
    FixUpKeepsOrder(u.(left := l));
  }

  lemma {:induction false} DeleteRight<K, V>(rank: K -> int, t: Tree<K, V>, k: K)
    requires t.Node? && Ordered(rank, t) && Descendable(t, true) && rank(k) >= rank(t.key)
    ensures Shrunk(t, DeleteNode(rank, t, k))
    ensures InOrder(DeleteNode(rank, t, k)) == Erase(rank, InOrder(t), k)
    decreases t.Size(), 1
  {
    var u := LeanRight(t);
    PrepareRightShape(t);
    FixUpKeepsOrder(t);
    if u.right.Leaf? {
      assert InOrder(t) == [] + [Entry(t.key, t.value)] + [];
      if rank(k) == rank(t.key) {
        OperationsHere(rank, [], Entry(t.key, t.value), [], k, t.value);
      } else {
        EraseRight(rank, u, Leaf, k);
        FinishRight(t, u, u);
      }
    } else {
      DeleteRightDeep(rank, t, k);
    }
  }

  lemma {:induction false} DeleteRightDeep<K, V>(rank: K -> int, t: Tree<K, V>, k: K)
    requires t.Node? && Ordered(rank, t) && Descendable(t, true) && rank(k) >= rank(t.key)
    requires LeanRight(t).right.Node? && InOrder(LeanRight(t)) == InOrder(t)
    ensures Shrunk(t, DeleteNode(rank, t, k))
    ensures InOrder(DeleteNode(rank, t, k)) == Erase(rank, InOrder(t), k)
    decreases t.Size(), 0
  {
    hide Erase, Shrunk, Prepared, Leaning;
    var w := PrepareRight(LeanRight(t));
    PrepareRightShape(t);
    PrepareRightKeepsOrder(LeanRight(t));
    ChildKeys(rank, t);
    ChildKeys(rank, w);
    if rank(k) == rank(w.key) {
      DeleteMinWorks(w.right);
      var m, rest := Min(w.right), DeleteMin(w.right);
      EraseRoot(rank, w, m, rest, k);
      FinishRight(t, w, Node(w.red, w.left, m.key, m.value, rest));
    } else {
      DeleteNodeWorks(rank, w.right, k);
      EraseRight(rank, w, DeleteNode(rank, w.right, k), k);
      FinishRight(t, w, w.(right := DeleteNode(rank, w.right, k)));
    }
  }

  lemma FinishRight<K, V>(t: Tree<K, V>, w: Tree<K, V>, done: Tree<K, V>)
    requires Prepared(t, w) && Leaning(w.left)
    requires done.Node? && done.red == w.red && done.left == w.left && Shrunk(w.right, done.right)
    ensures Shrunk(t, FixUp(done)) && InOrder(FixUp(done)) == InOrder(done)
  {
    FixUpShape(done);
    FixUpKeepsOrder(done);
  }

  lemma ChildKeys<K, V>(rank: K -> int, t: Tree<K, V>)
    requires t.Node? && Ordered(rank, t)
    ensures Ordered(rank, t.left) && Ordered(rank, t.right)
    ensures t.left.Node? ==> rank(t.left.key) < rank(t.key)
    ensures t.right.Node? && t.right.left.Node? ==> rank(t.key) < rank(t.right.left.key)
  {
    var l, x, r := InOrder(t.left), [Entry(t.key, t.value)], InOrder(t.right);
    SortedConcat(rank, l + x, r);
    SortedConcat(rank, l, x);
    var s := l + x + r;
    assert s[|l|] == x[0];
    if t.left.Node? {
      RootInOrder(t.left);
      var i := |InOrder(t.left.left)|;
      assert s[i] == l[i];
    }
    if t.right.Node? && t.right.left.Node? {
      RootInOrder(t.right.left);
      var i := |InOrder(t.right.left.left)|;
      assert r[i] == InOrder(t.right.left)[i];
      assert s[|l| + 1 + i] == r[i];
    }
  }

  lemma RootInOrder<K, V>(t: Tree<K, V>)
    requires t.Node?
    ensures |InOrder(t.left)| < |InOrder(t)| && InOrder(t)[|InOrder(t.left)|] == Entry(t.key, t.value)
  {
  }

  // ---- deletion at the root ----

  /** The colour of the root takes no part in a deletion: starting from the other colour gives the
      same tree with the other root colour. */
  lemma DeleteIgnoresRootColour<K, V>(rank: K -> int, t: Tree<K, V>, k: K)
    ensures DeleteNode(rank, Flip(t), k) == Flip(DeleteNode(rank, t, k))
  {
    if t.Node? {
      var f := Flip(t);
      if rank(k) < rank(t.key) {
        assert PrepareLeft(f) == Flip(PrepareLeft(t));
        FixUpIgnoresRootColour(PrepareLeft(t).(left := DeleteNode(rank, PrepareLeft(t).left, k)));
      } else {
        var u := LeanRight(t);
        assert LeanRight(f) == Flip(u);
        if u.right.Leaf? {
          FixUpIgnoresRootColour(u);
        } else {
          var w := PrepareRight(u);
          assert PrepareRight(Flip(u)) == Flip(w);
          if rank(k) == rank(w.key) {
            var m := Min(w.right);
            FixUpIgnoresRootColour(Node(w.red, w.left, m.key, m.value, DeleteMin(w.right)));
          } else {
            FixUpIgnoresRootColour(w.(right := DeleteNode(rank, w.right, k)));
          }
        }
      }
    }
  }

  lemma FixUpIgnoresRootColour<K, V>(t: Tree<K, V>)
    requires t.Node?
    ensures FixUp(Flip(t)) == Flip(FixUp(t))
  {
  }

  /** Removing any key, present or not, from a legal tree gives a fully legal tree with a black
      root that holds exactly the other entries. */
  lemma RemoveWorks<K, V>(rank: K -> int, t: Tree<K, V>, k: K)
    requires Legal(t) && Ordered(rank, t)
    ensures var r := Remove(rank, t, k);
      Legal(r) && Leaning(r) && !IsRed(r) && Ordered(rank, r) && InOrder(r) == Erase(rank, InOrder(t), k)
  {
    if t.Node? {
      // whichever root colour makes the tree descendable
      var s := t.(red := !IsRed(t.left));
      assert s == t || s == Flip(t);
      FlipKeepsOrder(t);
      DeleteIgnoresRootColour(rank, t, k);
      FlipKeepsOrder(DeleteNode(rank, t, k));
      DeleteNodeWorks(rank, s, k);
      FlipKeepsOrder(DeleteNode(rank, s, k));
      StoreEraseSorted(rank, InOrder(t), k, t.value);
    }
  }

  // ---- what the pointer version needs on its way down ----

  /** A subtree a deletion of `k` may enter, whatever the colour of its root. */
  ghost predicate Deletable<K, V>(rank: K -> int, t: Tree<K, V>, k: K) {
    && Ordered(rank, t)
    && (t.Node? ==>
          var right := rank(k) >= rank(t.key);
          Descendable(t, right) || Descendable(Flip(t), right))
  }

  lemma LegalIsDeletable<K, V>(rank: K -> int, t: Tree<K, V>, k: K)
    requires Legal(t) && Ordered(rank, t)
    ensures Deletable(rank, t, k)
  {
  }

  /** The child a deletion enters is deletable again, and a node without a right child that is to
      be deleted is a leaf. */
  lemma DeletableBelow<K, V>(rank: K -> int, t: Tree<K, V>, k: K)
    requires t.Node? && Deletable(rank, t, k)
    ensures rank(k) < rank(t.key) ==> Deletable(rank, PrepareLeft(t).left, k)
    ensures rank(k) >= rank(t.key) && LeanRight(t).right.Leaf? ==> LeanRight(t).left.Leaf?
    ensures rank(k) >= rank(t.key) && LeanRight(t).right.Node? ==>
      var w := PrepareRight(LeanRight(t));
      rank(k) == rank(w.key) || Deletable(rank, w.right, k)
  {
    var right := rank(k) >= rank(t.key);
    var s := if Descendable(t, right) then t else Flip(t);
    ChildKeys(rank, t);
    if !right {
      assert PrepareLeft(s).left == PrepareLeft(t).left;
      PrepareLeftShape(s);
      PrepareLeftKeepsOrder(t);
      ChildKeys(rank, PrepareLeft(t));
    } else {
      PrepareRightShape(s);
      FixUpKeepsOrder(t);
      if LeanRight(t).right.Node? {
        var w := PrepareRight(LeanRight(t));
        assert PrepareRight(LeanRight(s)).right == w.right;
        PrepareRightKeepsOrder(LeanRight(t));
        ChildKeys(rank, w);
      }
    }
  }
}
