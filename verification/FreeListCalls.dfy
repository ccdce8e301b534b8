/** What a call on the free list comes to: alone, and among other threads.

    FreeList.dfy proves what no step can break. Here it is proved what a call achieves: undisturbed,
    an allocation takes the first node in five steps and a free puts its node in front in four;
    disturbed by any other threads, a call comes back in these ways and in no other.
 */
module FreeListCalls {
  import opened FreeList

  /** Thread `t` goes on for `n` steps. */
  ghost function Going(t: Tid, n: nat): (acts: seq<Action>)
    ensures |acts| == n && forall i :: 0 <= i < n ==> acts[i] == Action(t, Go)
  {
    if n == 0 then [] else [Action(t, Go)] + Going(t, n - 1)
  }

  lemma Then(s: State, a: Action, rest: seq<Action>)
    requires Can(s, a.thread, a.choice) && Allowed(Exec(s, a.thread, a.choice), rest)
    ensures Allowed(s, [a] + rest) && After(s, [a] + rest) == After(Exec(s, a.thread, a.choice), rest)
  {
    assert ([a] + rest)[1..] == rest;
  }

  lemma {:induction false} Both(s: State, acts: seq<Action>, rest: seq<Action>)
    requires Allowed(s, acts) && Allowed(After(s, acts), rest)
    ensures Allowed(s, acts + rest) && After(s, acts + rest) == After(After(s, acts), rest)
    decreases |acts|
  {
    if acts == [] {
      assert acts + rest == rest;
    } else {
      var a := acts[0];
      Both(Exec(s, a.thread, a.choice), acts[1..], rest);
      Then(s, a, acts[1..] + rest);
      assert [a] + (acts[1..] + rest) == acts + rest;
    }
  }

  /** One more step of `t` in front of a run. */
  lemma GoThen(s: State, t: Tid, n: nat)
    requires Can(s, t, Go) && Allowed(Exec(s, t, Go), Going(t, n))
    ensures Allowed(s, Going(t, n + 1)) && After(s, Going(t, n + 1)) == After(Exec(s, t, Go), Going(t, n))
  {
    Then(s, Action(t, Go), Going(t, n));
  }

  // ---- undisturbed calls ----

  /** The thread can go from `s` to `r` in `n` steps of its own. */
  ghost predicate Reaches(s: State, t: Tid, n: nat, r: State) {
    Allowed(s, Going(t, n)) && After(s, Going(t, n)) == r
  }

  lemma Here(s: State, t: Tid)
    ensures Reaches(s, t, 0, s)
  {
  }

  lemma Ahead(s: State, t: Tid, n: nat, r: State)
    requires Can(s, t, Go) && Reaches(Exec(s, t, Go), t, n, r)
    ensures Reaches(s, t, n + 1, r)
  {
    GoThen(s, t, n);
  }

  lemma AllocSteps(s: State, t: Tid)
    requires MemoryOk(s) && t in s.pcs && s.pcs[t] == Allocating(ReadHead) && !s.head.marked && s.list != []
    ensures Reaches(s, t, 4, s.(pcs := s.pcs[t := Idle], head := Head(Link(s.list, 1), false),
                                owner := s.owner[s.list[0] := t], list := s.list[1..]))
  {
    hide Allowed, After, Reaches, Going, Partition;
    var a, after := s.list[0], Link(s.list, 1);
    var s1 := To(s, t, Allocating(SetMark(s.head)));
    var s2 := To(s1.(head := Head(At(a), true)), t, Allocating(ReadNext(a)));
    var s3 := To(s2, t, Allocating(SwapOut(a, after)));
    var r := To(s3.(head := Head(after, false), owner := s.owner[a := t], list := s.list[1..]), t, Idle);
    assert s.head == Head(At(a), false) && s.next[a] == after;
    assert r.pcs == s.pcs[t := Idle];
    Here(r, t);
    Ahead(s3, t, 0, r);
    Ahead(s2, t, 1, r);
    Ahead(s1, t, 2, r);
    Ahead(s, t, 3, r);
  }

  lemma StillMemoryOk(s: State, t: Tid)
    requires Inv(s) && t in s.pcs && s.pcs[t].Idle?
    ensures MemoryOk(Exec(s, t, CallAlloc))
  {
  }

  /** Alone, an allocation takes the first node, for this thread and nobody else, and touches
      nothing more. */
  lemma AllocAloneTakesTheFirst(s: State, t: Tid)
    requires Inv(s) && t in s.pcs && s.pcs[t].Idle? && !s.head.marked && s.list != []
    ensures var acts := [Action(t, CallAlloc)] + Going(t, 4);
      && Allowed(s, acts)
      && After(s, acts) == s.(head := Head(Link(s.list, 1), false), owner := s.owner[s.list[0] := t], list := s.list[1..])
  {
    hide Inv, Allowed, After, Going, Link, Partition, Spells;
    var s0 := Exec(s, t, CallAlloc);
    StillMemoryOk(s, t);
    AllocSteps(s0, t);
    Then(s, Action(t, CallAlloc), Going(t, 4));
    assert s0.pcs[t := Idle] == s.pcs;
  }

  /** Alone on an empty list it comes back at once with nothing. */
  lemma AllocAloneFindsNothing(s: State, t: Tid)
    requires Inv(s) && t in s.pcs && s.pcs[t].Idle? && !s.head.marked && s.list == []
    ensures var acts := [Action(t, CallAlloc)] + Going(t, 1);
      Allowed(s, acts) && After(s, acts) == s
  {
    var s0 := Exec(s, t, CallAlloc);
    Here(s, t);
    assert s0.pcs[t := Idle] == s.pcs;
    assert Exec(s0, t, Go) == s;
    Ahead(s0, t, 0, s);
    Then(s, Action(t, CallAlloc), Going(t, 1));
  }

  lemma FreeSteps(s: State, t: Tid, a: Addr)
    requires t in s.pcs && s.pcs[t] == Linking([a], Free, LookUp) && !s.head.marked
    ensures Reaches(s, t, 3, s.(pcs := s.pcs[t := Idle], head := Head(At(a), false), next := s.next[a := s.head.p],
                                owner := s.owner - {a}, list := [a] + s.list))
  {
    hide Allowed, After, Reaches, Going;
    var p := s.head.p;
    var s1 := To(s, t, Linking([a], Free, WriteLast(p)));
    var s2 := To(WriteNext(s1, a, p), t, Linking([a], Free, SwapIn(p)));
    var r := To(s2.(head := Head(At(a), false), owner := s.owner - {a}, list := [a] + s.list), t, Idle);
    assert Push(s2, [a]).owner == s.owner - {a};
    assert Exec(s2, t, Go) == r;
    assert r == s.(pcs := s.pcs[t := Idle], head := Head(At(a), false), next := s.next[a := p],
                   owner := s.owner - {a}, list := [a] + s.list);
    Here(r, t);
    Ahead(s2, t, 0, r);
    Ahead(s1, t, 1, r);
    Ahead(s, t, 2, r);
  }

  /** Alone, freeing a node puts it in front and takes it from its owner. */
  lemma FreeAlonePutsInFront(s: State, t: Tid, a: Addr)
    requires Inv(s) && t in s.pcs && s.pcs[t].Idle? && !s.head.marked && a in s.owner && s.owner[a] == t
    ensures var acts := [Action(t, CallFree(a))] + Going(t, 3);
      && Allowed(s, acts)
      && After(s, acts) == s.(head := Head(At(a), false), next := s.next[a := s.head.p],
                              owner := s.owner - {a}, list := [a] + s.list)
  {
    var s0 := Exec(s, t, CallFree(a));
    FreeSteps(s0, t, a);
    Then(s, Action(t, CallFree(a)), Going(t, 3));
    assert s0.pcs[t := Idle] == s.pcs;
  }

  /** A node handed over can be freed by the thread that got it. */
  lemma FreedByTheOther(s: State, t: Tid, u: Tid, a: Addr)
    requires Inv(s) && t in s.pcs && u in s.pcs && s.pcs[t].Idle? && s.pcs[u].Idle?
    requires !s.head.marked && a in s.owner && s.owner[a] == t
    ensures var acts := [Action(t, HandOver(a, u))] + ([Action(u, CallFree(a))] + Going(u, 3));
      && Allowed(s, acts)
      && After(s, acts).list == [a] + s.list && After(s, acts).owner == s.owner - {a} && After(s, acts).pcs == s.pcs
  {
    var s0 := Exec(s, t, HandOver(a, u));
    EveryStepKeepsInv(s, t, HandOver(a, u));
    FreeAlonePutsInFront(s0, u, a);
    Then(s, Action(t, HandOver(a, u)), [Action(u, CallFree(a))] + Going(u, 3));
    assert s0.owner - {a} == s.owner - {a};
  }

  ghost function Popped(s: State, t: Tid): State
    requires s.list != []
  {
    s.(head := Head(Link(s.list, 1), false), owner := s.owner[s.list[0] := t], list := s.list[1..])
  }

  ghost function PushedBack(s: State, a: Addr): State {
    s.(head := Head(At(a), false), next := s.next[a := s.head.p], owner := s.owner - {a}, list := [a] + s.list)
  }

  lemma PushUndoesPop(s: State, t: Tid)
    requires s.list != [] && s.head == Head(At(s.list[0]), false)
    requires s.list[0] in s.next && s.next[s.list[0]] == Link(s.list, 1) && s.list[0] !in s.owner
    ensures PushedBack(Popped(s, t), s.list[0]) == s
  {
    hide Link;
    var a, r := s.list[0], Popped(s, t);
    assert r.owner - {a} == s.owner;
    assert [a] + r.list == s.list;
    assert r.next[a := r.head.p] == s.next;
  }

  /** A node taken and given back at once leaves everything as it was. */
  lemma AllocThenFree(s: State, t: Tid)
    requires Inv(s) && t in s.pcs && s.pcs[t].Idle? && !s.head.marked && s.list != []
    ensures var acts := [Action(t, CallAlloc)] + Going(t, 4) + ([Action(t, CallFree(s.list[0]))] + Going(t, 3));
      Allowed(s, acts) && After(s, acts) == s
  {
    var a := s.list[0];
    var first, second := [Action(t, CallAlloc)] + Going(t, 4), [Action(t, CallFree(a))] + Going(t, 3);
    AllocAloneTakesTheFirst(s, t);
    EveryInterleaving(s, first, 0);
    assert a in s.list && s.next[a] == Link(s.list, 1);
    hide Allowed, After, Going, Inv, Link;
    PushUndoesPop(s, t);
    FreeAlonePutsInFront(After(s, first), t, a);
    Both(s, first, second);
  }

  // ---- undisturbed expansion ----

  lemma Further(s: State, t: Tid, m: nat, u: State, n: nat, r: State)
    requires Reaches(s, t, m, u) && Reaches(u, t, n, r)
    ensures Reaches(s, t, m + n, r)
  {
    Both(s, Going(t, m), Going(t, n));
    GoingAdds(t, m, n);
  }

  lemma {:induction false} GoingAdds(t: Tid, m: nat, n: nat)
    ensures Going(t, m) + Going(t, n) == Going(t, m + n)
  {
  }

  /** The loop that links the new nodes writes nothing but their `next` words. */
  lemma {:induction false} BuildSteps(s: State, t: Tid, chain: seq<Addr>, i: nat, use: Use) returns (next: map<Addr, Ptr>)
    requires t in s.pcs && i < |chain| && s.pcs[t] == InBlock(Build(chain, i, use))
    ensures Reaches(s, t, |chain| - i, s.(pcs := s.pcs[t := Linking(chain, use, LookUp)], next := next))
    decreases |chain| - i
  {
    hide Reaches;
    var s1 := Exec(s, t, Go);
    if i + 1 < |chain| {
      next := BuildSteps(s1, t, chain, i + 1, use);
      var r := s.(pcs := s.pcs[t := Linking(chain, use, LookUp)], next := next);
      assert s1.pcs[t := Linking(chain, use, LookUp)] == r.pcs;
      assert r == s1.(pcs := r.pcs, next := next);
      Ahead(s, t, |chain| - i - 1, r);
    } else {
      next := s1.next;
      Here(s1, t);
      Ahead(s, t, 0, s1);
    }
  }

  /** How many steps the link takes: the marking one has one more. */
  ghost function LinkLength(use: Use): nat {
    if use == MarkingExpand then 4 else 3
  }

  lemma LinkSteps(s: State, t: Tid, chain: seq<Addr>, use: Use)
    requires t in s.pcs && chain != [] && use != Free && s.pcs[t] == Linking(chain, use, LookUp) && !s.head.marked
    ensures Reaches(s, t, LinkLength(use) + 1,
              Push(s, chain).(pcs := s.pcs[t := Idle], next := s.next[Last(chain) := s.head.p], lock := false))
  {
    hide Allowed, After, Reaches, Going, Last;
    var p := s.head.p;
    var s1 := if use == MarkingExpand then To(s, t, Linking(chain, use, MarkSeen(p))) else s;
    var marked := Head(p, use == MarkingExpand);
    var s2 := To(s.(head := marked), t, Linking(chain, use, WriteLast(p)));
    var s3 := To(WriteNext(s2, Last(chain), p), t, Linking(chain, use, SwapIn(p)));
    var s4 := To(Push(s3, chain), t, InBlock(Unlock));
    var r := Push(s, chain).(pcs := s.pcs[t := Idle], next := s.next[Last(chain) := p], lock := false);
    assert Exec(s4, t, Go) == r by {
      assert s4.pcs[t := Idle] == r.pcs;
    }
    Here(r, t);
    Ahead(s4, t, 0, r);
    assert Exec(s3, t, Go) == s4;
    Ahead(s3, t, 1, r);
    assert Exec(s2, t, Go) == s3;
    Ahead(s2, t, 2, r);
    if use == MarkingExpand {
      assert Exec(s1, t, Go) == s2;
      Ahead(s1, t, 3, r);
      assert Exec(s, t, Go) == s1;
      Ahead(s, t, 4, r);
    } else {
      assert s2 == Exec(s, t, Go);
      Ahead(s, t, 3, r);
    }
  }

  /** The block lock is taken, and the head looked at again under it. */
  lemma LockAndTest(s: State, t: Tid)
    requires t in s.pcs && s.pcs[t] == WaitingForBlockLock && !s.lock
    ensures Reaches(s, t, 2, s.(pcs := s.pcs[t := InBlock(if s.head == Head(Null, false) then AskMalloc else Unlock)],
                                lock := true))
  {
    hide Allowed, After, Reaches, Going;
    var s1 := To(s.(lock := true), t, InBlock(Test));
    var r := To(s1, t, InBlock(if s.head == Head(Null, false) then AskMalloc else Unlock));
    assert r.pcs == s.pcs[t := r.pcs[t]];
    Here(r, t);
    Ahead(s1, t, 0, r);
    Ahead(s, t, 1, r);
  }

  /** Alone, with nodes on the list, an expansion does nothing: another thread has refilled it. */
  lemma ExpandAloneFindsNodes(s: State, t: Tid)
    requires Inv(s) && t in s.pcs && s.pcs[t].Idle? && !s.lock && s.head != Head(Null, false)
    ensures var acts := [Action(t, CallExpand)] + Going(t, 3);
      Allowed(s, acts) && After(s, acts) == s
  {
    hide Inv, Allowed, After, Going, Reaches;
    var s1 := Exec(s, t, CallExpand);
    LockAndTest(s1, t);
    var s3 := s.(pcs := s1.pcs[t := InBlock(Unlock)], lock := true);
    assert s3.pcs[t := Idle] == s.pcs;
    assert Exec(s3, t, Go) == s;
    Here(s, t);
    Ahead(s3, t, 0, s);
    Further(s1, t, 2, s3, 1, s);
    Then(s, Action(t, CallExpand), Going(t, 3));
  }

  /** Without memory it leaves the empty list as it was. */
  lemma ExpandAloneFails(s: State, t: Tid)
    requires Inv(s) && t in s.pcs && s.pcs[t].Idle? && !s.lock && s.head == Head(Null, false)
    ensures var acts := [Action(t, CallExpand)] + (Going(t, 2) + ([Action(t, MallocFails)] + Going(t, 1)));
      Allowed(s, acts) && After(s, acts) == s
  {
    var s1 := Exec(s, t, CallExpand);
    LockAndTest(s1, t);
    var s3 := s.(pcs := s1.pcs[t := InBlock(AskMalloc)], lock := true);
    var s4 := Exec(s3, t, MallocFails);
    assert s4.pcs[t := Idle] == s.pcs;
    Here(s, t);
    Ahead(s4, t, 0, s);
    var rest := [Action(t, MallocFails)] + Going(t, 1);
    Then(s3, Action(t, MallocFails), Going(t, 1));
    Both(s1, Going(t, 2), rest);
    Then(s, Action(t, CallExpand), Going(t, 2) + rest);
  }

  lemma OwnersBack(owner: map<Addr, Tid>, chain: seq<Addr>, t: Tid)
    requires forall a :: a in owner ==> a !in chain
    ensures owner + (map a | a in chain :: t) - (set a | a in chain) == owner
  {
  }

  /** From the answer of malloc to the end of the call. */
  lemma MallocToUnlock(s: State, t: Tid, chain: seq<Addr>, use: Use) returns (r: State)
    requires MemoryOk(s) && t in s.pcs && s.pcs[t] == InBlock(AskMalloc) && s.head == Head(Null, false)
    requires Can(s, t, Malloc(chain, use))
    ensures var acts := [Action(t, Malloc(chain, use))] + Going(t, |chain| + LinkLength(use) + 1);
      Allowed(s, acts) && After(s, acts) == r
    ensures r == s.(head := Head(At(chain[0]), false), list := chain, pcs := s.pcs[t := Idle], lock := false, next := r.next)
  {
    hide Allowed, After, Reaches, Going, Last;
    var s1 := Exec(s, t, Malloc(chain, use));
    var next := BuildSteps(s1, t, chain, 0, use);
    var s2 := s1.(pcs := s1.pcs[t := Linking(chain, use, LookUp)], next := next);
    LinkSteps(s2, t, chain, use);
    r := Push(s2, chain).(pcs := s2.pcs[t := Idle], next := next[Last(chain) := s2.head.p], lock := false);
    Further(s1, t, |chain|, s2, LinkLength(use) + 1, r);
    Then(s, Action(t, Malloc(chain, use)), Going(t, |chain| + LinkLength(use) + 1));
    assert s.list == [] && chain + [] == chain;
    assert forall a :: a in s.owner ==> a !in chain;
    OwnersBack(s.owner, chain, t);
    assert s2.pcs[t := Idle] == s.pcs[t := Idle];
  }

  /** Alone on an empty list, either way of expanding leaves exactly the new nodes on the list, in
      their order, and nobody owns them. */
  lemma ExpandAloneLinksTheBlock(s: State, t: Tid, chain: seq<Addr>, use: Use) returns (r: State)
    requires Inv(s) && t in s.pcs && s.pcs[t].Idle? && !s.lock && s.head == Head(Null, false)
    requires use != Free && chain != [] && Distinct(chain) && forall a :: a in chain ==> a !in s.next
    ensures var acts := [Action(t, CallExpand)]
        + (Going(t, 2) + ([Action(t, Malloc(chain, use))] + Going(t, |chain| + LinkLength(use) + 1)));
      Allowed(s, acts) && After(s, acts) == r
    ensures r == s.(head := Head(At(chain[0]), false), list := chain, next := r.next)
    ensures Inv(r) && Walk(r.head.p, r.next, |chain|) == chain
  {
    assert MemoryOk(s);
    hide Inv, Allowed, After, Going, Reaches, Partition, Spells, Walk, Distinct, LinkLength;
    var s1 := Exec(s, t, CallExpand);
    LockAndTest(s1, t);
    var s3 := s.(pcs := s1.pcs[t := InBlock(AskMalloc)], lock := true);
    var rest := [Action(t, Malloc(chain, use))] + Going(t, |chain| + LinkLength(use) + 1);
    r := MallocToUnlock(s3, t, chain, use);
    assert s3.pcs[t := Idle] == s.pcs;
    Both(s1, Going(t, 2), rest);
    Then(s, Action(t, CallExpand), Going(t, 2) + rest);
    EveryInterleaving(s, [Action(t, CallExpand)] + (Going(t, 2) + rest), |chain|);
  }

  // ---- calls among other threads ----

  /** What a step of an allocating thread comes to: it goes on allocating and nothing is taken; or it
      comes back, with the first node if there is one, and otherwise with nothing. */
  ghost predicate AllocationGoesOnOrEnds(p: State, r: State, t: Tid) {
    t in r.pcs &&
    if r.pcs[t].Idle? then
      if p.list == [] then p.head == Head(Null, false) && r.list == [] && r.owner == p.owner
      else r.list == p.list[1..] && r.owner == p.owner[p.list[0] := t]
    else r.pcs[t].Allocating? && r.list == p.list && r.owner == p.owner
  }

  lemma AllocatingCase(p: State, t: Tid, pc: AllocPc)
    requires t in p.pcs && p.pcs[t] == Allocating(pc) && p.head.p == Link(p.list, 0)
    requires pc.SwapOut? ==> p.head == Head(At(pc.node), true)
    ensures AllocationGoesOnOrEnds(p, ExecAlloc(p, t, pc), t)
  {
  }

  lemma AllocatingStep(p: State, t: Tid, c: Choice)
    requires Inv(p) && Can(p, t, c) && p.pcs[t].Allocating?
    ensures AllocationGoesOnOrEnds(p, Exec(p, t, c), t)
  {
    assert ThreadOk(p, t) && MemoryOk(p);
    hide Inv, Link, ExecAlloc, AllocationGoesOnOrEnds;
    AllocatingCase(p, t, p.pcs[t].alloc);
  }

  /** What a step of a thread that links a chain comes to: it goes on and nothing is put on the list,
      or the whole chain goes in front and the thread owns it no longer. */
  ghost predicate LinkGoesOnOrEnds(p: State, r: State, t: Tid, chain: seq<Addr>, use: Use) {
    t in r.pcs &&
    if r.pcs[t].Linking? then r.pcs[t].chain == chain && r.pcs[t].use == use && r.list == p.list && r.owner == p.owner
    else
      && r.pcs[t] == (if use == Free then Idle else InBlock(Unlock))
      && r.list == chain + p.list && r.owner == p.owner - (set a | a in chain)
  }

  lemma LinkingCase(p: State, t: Tid, chain: seq<Addr>, use: Use, pc: LinkPc)
    requires t in p.pcs && p.pcs[t] == Linking(chain, use, pc) && chain != []
    requires use == MarkingExpand && pc.SwapIn? ==> p.head == Head(pc.seen, true)
    ensures LinkGoesOnOrEnds(p, ExecLink(p, t, chain, use, pc), t, chain, use)
  {
  }

  lemma LinkingStep(p: State, t: Tid, c: Choice)
    requires Inv(p) && Can(p, t, c) && p.pcs[t].Linking?
    ensures LinkGoesOnOrEnds(p, Exec(p, t, c), t, p.pcs[t].chain, p.pcs[t].use)
  {
    assert ThreadOk(p, t);
    hide Inv, LinkGoesOnOrEnds, ExecLink;
    LinkingCase(p, t, p.pcs[t].chain, p.pcs[t].use, p.pcs[t].link);
  }

  /** The thread is still taking a node, or still linking the same chain. */
  ghost predicate SameCall(a: Pc, b: Pc) {
    (a.Allocating? && b.Allocating?) || (a.Linking? && b.Linking? && a.chain == b.chain && a.use == b.use)
  }

  /** A step at which `t` comes back from the call it is in. */
  ghost predicate Ends(p: State, r: State, t: Tid)
    requires t in p.pcs && t in r.pcs
  {
    match p.pcs[t]
    case Allocating(_) => r.pcs[t].Idle? && AllocationGoesOnOrEnds(p, r, t)
    case Linking(chain, use, _) => !r.pcs[t].Linking? && LinkGoesOnOrEnds(p, r, t, chain, use)
    case _ => false
  }

  lemma CallStep(s: State, a: Action, t: Tid)
    requires Inv(s) && Can(s, a.thread, a.choice) && t in s.pcs && SameCall(s.pcs[t], s.pcs[t])
    ensures var r := Exec(s, a.thread, a.choice);
      && Inv(r) && t in r.pcs
      && (SameCall(s.pcs[t], r.pcs[t]) || (a.thread == t && Ends(s, r, t)))
  {
    EveryStepKeepsInv(s, a.thread, a.choice);
    hide Inv, Exec;
    if a.thread == t {
      if s.pcs[t].Allocating? { AllocatingStep(s, t, a.choice); } else { LinkingStep(s, t, a.choice); }
    }
  }

  /** Whatever the other threads do in between: a thread that has come back from taking a node, or
      from putting a chain on the list, did so by one step of its own, and what that step was is
      stated above. So an allocation comes back with nothing only from a step at which the list was
      empty, and a free comes back only after its node went to the front. */
  lemma {:induction false} CallsEnd(s: State, acts: seq<Action>, t: Tid) returns (k: nat)
    requires Inv(s) && Allowed(s, acts) && t in s.pcs && SameCall(s.pcs[t], s.pcs[t])
    requires !(t in After(s, acts).pcs && SameCall(s.pcs[t], After(s, acts).pcs[t]))
    ensures k < |acts| && acts[k].thread == t && Allowed(s, acts[..k])
    ensures var p := After(s, acts[..k]);
      && Can(p, t, acts[k].choice) && SameCall(s.pcs[t], p.pcs[t])
      && var r := Exec(p, t, acts[k].choice);
         t in r.pcs && Ends(p, r, t)
    decreases |acts|
  {
    hide Inv, Exec, Ends, SameCall;
    var a := acts[0];
    CallStep(s, a, t);
    var r := Exec(s, a.thread, a.choice);
    if SameCall(s.pcs[t], r.pcs[t]) {
      var end := After(s, acts);
      SameCallLaws(s.pcs[t], r.pcs[t], if t in end.pcs then end.pcs[t] else Idle);
      var j := CallsEnd(r, acts[1..], t);
      SameCallLaws(s.pcs[t], r.pcs[t], After(r, acts[1..][..j]).pcs[t]);
      k := j + 1;
      assert acts[..k] == [a] + acts[1..][..j];
      Then(s, a, acts[1..][..j]);
    } else {
      k := 0;
    }
  }

  lemma SameCallLaws(a: Pc, b: Pc, c: Pc)
    requires SameCall(a, b)
    ensures SameCall(b, b) && (SameCall(a, c) <==> SameCall(b, c))
  {
  }
}
