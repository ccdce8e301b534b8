/** The lock-free free list of block_alloc_helper.h, as interleaved steps.

    The head is one machine word: a pointer whose low bit is a mark. A thread step is one shared
    read, one shared write or one compare-and-swap, plus the local work up to the next one. Memory
    is sequentially consistent. The variant that marks the head while linking a block
    (expandRqList in resource_queue.c) runs on the same list.
 */
module FreeList {

  type Addr = nat
  type Tid = nat

  datatype Ptr = Null | At(addr: Addr)

  datatype Head = Head(p: Ptr, marked: bool)

  /** Where a thread stands. */
  datatype Pc =
    | Idle
    | Allocating(alloc: AllocPc)
    | Linking(chain: seq<Addr>, use: Use, link: LinkPc)
    | WaitingForBlockLock
    | InBlock(block: BlockPc)
    | Crashed // assert(false) was reached

  /** BAH_ALLOC_FROM_FREE_LIST: read the head, mark it, read the next word, swap the head. */
  datatype AllocPc = ReadHead | SetMark(item: Head) | ReadNext(node: Addr) | SwapOut(node: Addr, after: Ptr)

  /** Why a chain is linked: BAH_FREE_TO_FREE_LIST (a chain of one), BAH_LINK_FREE_LIST, or the
      marking link of expandRqList. */
  datatype Use = Free | Expand | MarkingExpand

  /** Read the head, mark it (MarkingExpand only), write the last next word, swap the head. */
  datatype LinkPc = LookUp | MarkSeen(seen: Ptr) | WriteLast(seen: Ptr) | SwapIn(seen: Ptr)

  /** Inside BAH_LOCK_AND_ALLOC_BLOCK: test the head again, malloc, BAH_LINK_BLOCK, unlock. */
  datatype BlockPc = Test | AskMalloc | Build(chain: seq<Addr>, built: nat, use: Use) | Unlock

  /** `owner` and `list` are history: which thread may use a node, and the free nodes in order. No
      step looks at `list`; a thread frees or writes only what it owns, and may hand that over to any
      other thread, as a table does whose nodes one thread inserts and another removes. */
  datatype State = State(
    head: Head, next: map<Addr, Ptr>, lock: bool, pcs: map<Tid, Pc>,
    owner: map<Addr, Tid>, list: seq<Addr>)

  /** What a thread may choose: in `Idle`, the next call; after malloc, its outcome. */
  datatype Choice =
    | Go
    | CallAlloc
    | CallFree(node: Addr)
    | UseNode(node: Addr, p: Ptr)
    | HandOver(node: Addr, to: Tid)
    | CallExpand
    | Malloc(chain: seq<Addr>, use: Use)
    | MallocFails

  ghost predicate Distinct(s: seq<Addr>) {
    forall i, j :: 0 <= i < j < |s| ==> s[i] != s[j]
  }

  ghost predicate Can(s: State, t: Tid, c: Choice) {
    t in s.pcs &&
    match s.pcs[t]
    case Idle =>
      || c.CallAlloc? || c.CallExpand?
      || (c.CallFree? && c.node in s.owner && s.owner[c.node] == t)
      || (c.UseNode? && c.node in s.owner && s.owner[c.node] == t)
      || (c.HandOver? && c.node in s.owner && s.owner[c.node] == t && c.to in s.pcs)
    case InBlock(AskMalloc) =>
      || c.MallocFails?
      || (c.Malloc? && c.use != Free && c.chain != [] && Distinct(c.chain) && forall a :: a in c.chain ==> a !in s.next)
    case Crashed => false
    case _ => c.Go?
  }

  ghost function To(s: State, t: Tid, pc: Pc): State {
    s.(pcs := s.pcs[t := pc])
  }

  ghost function WriteNext(s: State, a: Addr, p: Ptr): State {
    s.(next := s.next[a := p])
  }

  /** The chain goes in front of the free list and its nodes are nobody's any more. */
  ghost function Push(s: State, chain: seq<Addr>): State
    requires chain != []
  {
    s.(head := Head(At(chain[0]), false),
       owner := s.owner - (set a | a in chain),
       list := chain + s.list)
  }

  ghost function Rest(list: seq<Addr>): seq<Addr> {
    if list == [] then [] else list[1..]
  }

  ghost function Last(chain: seq<Addr>): Addr {
    if chain == [] then 0 else chain[|chain| - 1]
  }

  ghost function ExecIdle(s: State, t: Tid, c: Choice): State {
    match c
    case CallAlloc => To(s, t, Allocating(ReadHead))
    case CallFree(a) => To(s, t, Linking([a], Free, LookUp))
    case UseNode(a, p) => WriteNext(s, a, p)
    case HandOver(a, u) => s.(owner := s.owner[a := u])
    case _ => To(s, t, WaitingForBlockLock)
  }

  ghost function ExecAlloc(s: State, t: Tid, pc: AllocPc): State {
    match pc
    case ReadHead =>
      if s.head == Head(Null, false) then To(s, t, Idle) else To(s, t, Allocating(SetMark(s.head)))
    case SetMark(item) =>
      if item.marked || item.p.Null? || s.head != item then To(s, t, Allocating(ReadHead))
      else To(s.(head := Head(item.p, true)), t, Allocating(ReadNext(item.p.addr)))
    case ReadNext(a) =>
      To(s, t, Allocating(SwapOut(a, if a in s.next then s.next[a] else Null)))
    case SwapOut(a, after) =>
      if s.head != Head(At(a), true) then To(s, t, Crashed)
      else To(s.(head := Head(after, false), owner := s.owner[a := t], list := Rest(s.list)), t, Idle)
  }

  ghost function ExecLink(s: State, t: Tid, chain: seq<Addr>, use: Use, pc: LinkPc): State {
    match pc
    case LookUp =>
      if s.head.marked then s
      else To(s, t, Linking(chain, use, if use == MarkingExpand then MarkSeen(s.head.p) else WriteLast(s.head.p)))
    case MarkSeen(seen) =>
      if s.head != Head(seen, false) then To(s, t, Linking(chain, use, LookUp))
      else To(s.(head := Head(seen, true)), t, Linking(chain, use, WriteLast(seen)))
    case WriteLast(seen) =>
      To(WriteNext(s, Last(chain), seen), t, Linking(chain, use, SwapIn(seen)))
    case SwapIn(seen) =>
      if s.head == Head(seen, use == MarkingExpand) && chain != [] then
        To(Push(s, chain), t, if use == Free then Idle else InBlock(Unlock))
      else To(s, t, if use == MarkingExpand then Crashed else Linking(chain, use, LookUp))
  }

  ghost function ExecBlock(s: State, t: Tid, pc: BlockPc, c: Choice): State {
    match pc
    case Test =>
      To(s, t, InBlock(if s.head == Head(Null, false) then AskMalloc else Unlock))
    case AskMalloc =>
      if c.Malloc? then
        To(s.(next := s.next + (map a | a in c.chain :: Null), owner := s.owner + (map a | a in c.chain :: t)),
           t, InBlock(Build(c.chain, 0, c.use)))
      else To(s, t, InBlock(Unlock))
    case Build(chain, i, use) =>
      if i + 1 < |chain| then To(WriteNext(s, chain[i], At(chain[i + 1])), t, InBlock(Build(chain, i + 1, use)))
      else To(WriteNext(s, Last(chain), Null), t, Linking(chain, use, LookUp))
    case Unlock => To(s.(lock := false), t, Idle)
  }

  ghost function Exec(s: State, t: Tid, c: Choice): State
    requires Can(s, t, c)
  {
    match s.pcs[t]
    case Idle => ExecIdle(s, t, c)
    case Allocating(pc) => ExecAlloc(s, t, pc)
    case Linking(chain, use, pc) => ExecLink(s, t, chain, use, pc)
    case WaitingForBlockLock => if s.lock then s else To(s.(lock := true), t, InBlock(Test))
    case InBlock(pc) => ExecBlock(s, t, pc, c)
    case Crashed => s
  }

  // ---- what every step keeps ----

  /** What points at position `i` of the list: that node, or NULL past the end. */
  ghost function Link(list: seq<Addr>, i: nat): Ptr {
    if i < |list| then At(list[i]) else Null
  }

  /** The words in memory spell `list`: the head points at its first node, every node at the next,
      the last at NULL. */
  ghost predicate Spells(head: Ptr, next: map<Addr, Ptr>, list: seq<Addr>) {
    && head == Link(list, 0)
    && (forall i :: 0 <= i < |list| ==> list[i] in next && next[list[i]] == Link(list, i + 1))
  }

  /** Every node is on the list or has an owner, never both. */
  ghost predicate Partition(s: State) {
    && Distinct(s.list)
    && (forall a :: a in s.list ==> a in s.next && a !in s.owner)
    && (forall a :: a in s.owner ==> a in s.next)
    && (forall a :: a in s.next ==> a in s.list || a in s.owner)
  }

  ghost predicate MemoryOk(s: State) {
    Partition(s) && Spells(s.head.p, s.next, s.list)
  }

  /** The thread put the mark on the head and will take it off. */
  ghost predicate Marks(pc: Pc) {
    || (pc.Allocating? && (pc.alloc.ReadNext? || pc.alloc.SwapOut?))
    || (pc.Linking? && pc.use == MarkingExpand && (pc.link.WriteLast? || pc.link.SwapIn?))
  }

  ghost predicate HoldsLock(pc: Pc) {
    pc.InBlock? || (pc.Linking? && pc.use != Free)
  }

  /** The thread owns the chain it is linking, and its links are in place. */
  ghost predicate OwnsChain(s: State, t: Tid, chain: seq<Addr>, linked: nat) {
    && chain != [] && Distinct(chain)
    && (forall i :: 0 <= i < |chain| ==> chain[i] in s.owner && s.owner[chain[i]] == t && chain[i] in s.next)
    && (forall i :: 0 <= i < |chain| - 1 && i < linked ==> s.next[chain[i]] == At(chain[i + 1]))
  }

  ghost predicate AllocOk(s: State, pc: AllocPc) {
    match pc
    case ReadHead => true
    case SetMark(item) => item != Head(Null, false)
    case ReadNext(a) => s.head == Head(At(a), true)
    case SwapOut(a, after) => s.head == Head(At(a), true) && a in s.next && s.next[a] == after
  }

  ghost predicate LinkOk(s: State, t: Tid, chain: seq<Addr>, use: Use, pc: LinkPc) {
    && OwnsChain(s, t, chain, |chain|)
    && (use != Free ==> s.lock)
    && (use == MarkingExpand && (pc.WriteLast? || pc.SwapIn?) ==> s.head == Head(pc.seen, true))
    && (pc.MarkSeen? ==> use == MarkingExpand)
    && (pc.SwapIn? ==> s.next[Last(chain)] == pc.seen)
  }

  /** What a thread can rely on between its steps. */
  ghost predicate ThreadOk(s: State, t: Tid)
    requires t in s.pcs
  {
    match s.pcs[t]
    case Idle => true
    case Allocating(pc) => AllocOk(s, pc)
    case Linking(chain, use, pc) => LinkOk(s, t, chain, use, pc)
    case WaitingForBlockLock => true
    case InBlock(pc) => s.lock && (pc.Build? ==> pc.use != Free && OwnsChain(s, t, pc.chain, pc.built))
    case Crashed => false
  }

  /** The mark and the block lock are each held by one thread, exactly when the word says so. */
  ghost predicate MarkHeld(s: State) {
    && (s.head.marked ==> exists t :: t in s.pcs && Marks(s.pcs[t]))
    && (forall t, u :: t in s.pcs && u in s.pcs && Marks(s.pcs[t]) && Marks(s.pcs[u]) ==> t == u)
  }

  ghost predicate LockHeld(s: State) {
    && (s.lock ==> exists t :: t in s.pcs && HoldsLock(s.pcs[t]))
    && (forall t, u :: t in s.pcs && u in s.pcs && HoldsLock(s.pcs[t]) && HoldsLock(s.pcs[u]) ==> t == u)
  }

  ghost predicate Inv(s: State) {
    && MemoryOk(s)
    && (forall t :: t in s.pcs ==> ThreadOk(s, t))
    && MarkHeld(s) && LockHeld(s)
  }

  // ---- one thread's step seen by the others ----

  /** What a step of `t` may do to the words and nodes the other threads rely on. */
  ghost predicate Harmless(s: State, r: State, t: Tid) {
    && t in s.pcs && r.pcs.Keys == s.pcs.Keys && (forall u :: u in s.pcs && u != t ==> r.pcs[u] == s.pcs[u])
    && (forall a :: a in s.next ==> a in r.next && (r.next[a] == s.next[a] || (a in s.owner && s.owner[a] == t)))
    && (forall a :: a in s.owner && s.owner[a] != t ==> a in r.owner && r.owner[a] == s.owner[a])
    && (r.head == s.head || Marks(s.pcs[t]) || !s.head.marked)
    && (r.lock || !s.lock || HoldsLock(s.pcs[t]))
  }

  lemma OthersUnharmed(s: State, r: State, t: Tid)
    requires Inv(s) && Harmless(s, r, t)
    ensures forall u :: u in s.pcs && u != t ==> ThreadOk(r, u)
  {
    forall u | u in s.pcs && u != t ensures ThreadOk(r, u) {
      assert ThreadOk(s, u);
      if s.pcs[u].Allocating? && s.pcs[u].alloc.SwapOut? {
        assert s.list[0] == s.pcs[u].alloc.node;
      }
    }
  }

  lemma MarkStaysHeld(s: State, r: State, t: Tid)
    requires Inv(s) && Harmless(s, r, t)
    requires r.head.marked <==> (Marks(r.pcs[t]) || (s.head.marked && !Marks(s.pcs[t])))
    requires Marks(r.pcs[t]) ==> Marks(s.pcs[t]) || !s.head.marked
    ensures MarkHeld(r)
  {
    forall u | u in s.pcs ensures Marks(s.pcs[u]) ==> s.head.marked {
      assert ThreadOk(s, u);
    }
    if r.head.marked && !Marks(r.pcs[t]) {
      var u :| u in s.pcs && Marks(s.pcs[u]);
      assert u in r.pcs && Marks(r.pcs[u]);
    }
  }

  lemma LockStaysHeld(s: State, r: State, t: Tid)
    requires Inv(s) && Harmless(s, r, t)
    requires r.lock <==> (HoldsLock(r.pcs[t]) || (s.lock && !HoldsLock(s.pcs[t])))
    requires HoldsLock(r.pcs[t]) ==> HoldsLock(s.pcs[t]) || !s.lock
    ensures LockHeld(r)
  {
    forall u | u in s.pcs ensures HoldsLock(s.pcs[u]) ==> s.lock {
      assert ThreadOk(s, u);
    }
    if r.lock && !HoldsLock(r.pcs[t]) {
      var u :| u in s.pcs && HoldsLock(s.pcs[u]);
      assert u in r.pcs && HoldsLock(r.pcs[u]);
    }
  }

  /** What is left to check of a step of `t`: the memory, its own promises, and its locks. */
  ghost predicate GoodStep(s: State, r: State, t: Tid) {
    && Harmless(s, r, t) && MemoryOk(r) && ThreadOk(r, t)
    && (r.head.marked <==> (Marks(r.pcs[t]) || (s.head.marked && !Marks(s.pcs[t]))))
    && (r.lock <==> (HoldsLock(r.pcs[t]) || (s.lock && !HoldsLock(s.pcs[t]))))
    && (Marks(r.pcs[t]) ==> Marks(s.pcs[t]) || !s.head.marked)
    && (HoldsLock(r.pcs[t]) ==> HoldsLock(s.pcs[t]) || !s.lock)
  }

  lemma GoodStepKeepsInv(s: State, r: State, t: Tid)
    requires Inv(s) && GoodStep(s, r, t)
    ensures Inv(r)
  {
    OthersUnharmed(s, r, t);
    MarkStaysHeld(s, r, t);
    LockStaysHeld(s, r, t);
  }

  // ---- effects on the memory ----

  /** A write to a node the thread owns cannot touch the list. */
  lemma OwnWrite(s: State, r: State, t: Tid, a: Addr, p: Ptr)
    requires MemoryOk(s) && a in s.owner && s.owner[a] == t
    requires r == s.(next := s.next[a := p], pcs := r.pcs)
    ensures MemoryOk(r)
  {
    assert forall b :: b in r.next <==> b in s.next;
    assert forall i :: 0 <= i < |s.list| ==> s.list[i] in s.list;
  }

  lemma NewNodes(s: State, r: State, t: Tid, chain: seq<Addr>)
    requires MemoryOk(s) && forall a :: a in chain ==> a !in s.next
    requires r.head == s.head && r.list == s.list
    requires r.next == s.next + (map a | a in chain :: Null) && r.owner == s.owner + (map a | a in chain :: t)
    ensures MemoryOk(r)
  {
    assert forall i :: 0 <= i < |s.list| ==> s.list[i] in s.list;
  }

  lemma PoppedPartition(s: State, a: Addr, t: Tid)
    requires Partition(s) && s.list != [] && s.list[0] == a
    ensures Partition(s.(list := Rest(s.list), owner := s.owner[a := t]))
    ensures a !in s.owner
  {
    var rest := Rest(s.list);
    assert a in s.list && s.list == [a] + rest;
    assert forall b :: b in s.list <==> b == a || b in rest;
  }

  lemma PoppedSpells(head: Ptr, next: map<Addr, Ptr>, list: seq<Addr>)
    requires Spells(head, next, list) && list != []
    ensures Spells(next[list[0]], next, Rest(list))
  {
    var rest := Rest(list);
    forall i | 0 <= i < |rest| ensures rest[i] in next && next[rest[i]] == Link(rest, i + 1) {
      assert rest[i] == list[i + 1] && Link(rest, i + 1) == Link(list, i + 2);
    }
  }

  lemma Pop(s: State, r: State, t: Tid, a: Addr)
    requires MemoryOk(s) && s.head.p == At(a)
    requires r.head.p == s.next[a] && r.list == Rest(s.list)
    requires r.next == s.next && r.owner == s.owner[a := t]
    ensures MemoryOk(r) && s.list != [] && s.list[0] == a && a !in s.owner
  {
    assert Link(s.list, 0) == At(a);
    PoppedPartition(s, a, t);
    PoppedSpells(s.head.p, s.next, s.list);
  }

  lemma PushedPartition(s: State, chain: seq<Addr>)
    requires Partition(s) && chain != [] && Distinct(chain) && forall i :: 0 <= i < |chain| ==> chain[i] in s.owner
    ensures Partition(Push(s, chain))
  {
    var r := Push(s, chain);
    assert forall i :: 0 <= i < |r.list| ==> r.list[i] == if i < |chain| then chain[i] else s.list[i - |chain|];
    assert forall i :: 0 <= i < |s.list| ==> s.list[i] in s.list;
    assert forall a :: a in r.list <==> a in chain || a in s.list;
  }

  lemma PushedSpells(s: State, chain: seq<Addr>)
    requires MemoryOk(s) && chain != [] && forall i :: 0 <= i < |chain| ==> chain[i] in s.next
    requires forall i :: 0 <= i < |chain| - 1 ==> s.next[chain[i]] == At(chain[i + 1])
    requires s.next[Last(chain)] == s.head.p
    ensures Spells(At(chain[0]), s.next, chain + s.list)
  {
    var list := chain + s.list;
    forall i | 0 <= i < |list| ensures list[i] in s.next && s.next[list[i]] == Link(list, i + 1) {
      if i >= |chain| {
        assert list[i] == s.list[i - |chain|];
        assert Link(list, i + 1) == Link(s.list, i - |chain| + 1);
      }
    }
  }

  // ---- the steps ----

  /** A step that only moves the thread along. */
  lemma Moves(s: State, t: Tid, pc: Pc)
    requires t in s.pcs && MemoryOk(s) && ThreadOk(To(s, t, pc), t)
    requires Marks(pc) == Marks(s.pcs[t]) && HoldsLock(pc) == HoldsLock(s.pcs[t])
    ensures GoodStep(s, To(s, t, pc), t)
  {
  }

  /** A step that writes the `next` word of a node the thread owns. */
  lemma Writes(s: State, t: Tid, a: Addr, p: Ptr, pc: Pc)
    requires t in s.pcs && MemoryOk(s) && ThreadOk(To(WriteNext(s, a, p), t, pc), t)
    requires a in s.owner && s.owner[a] == t
    requires Marks(pc) == Marks(s.pcs[t]) && HoldsLock(pc) == HoldsLock(s.pcs[t])
    ensures GoodStep(s, To(WriteNext(s, a, p), t, pc), t)
  {
    OwnWrite(s, To(WriteNext(s, a, p), t, pc), t, a, p);
  }

  /** A step that puts the mark on, leaving the pointer. */
  lemma PutsMark(s: State, t: Tid, pc: Pc)
    requires t in s.pcs && MemoryOk(s) && !s.head.marked
    requires ThreadOk(To(s.(head := Head(s.head.p, true)), t, pc), t)
    requires Marks(pc) && HoldsLock(pc) == HoldsLock(s.pcs[t])
    ensures GoodStep(s, To(s.(head := Head(s.head.p, true)), t, pc), t)
  {
  }

  lemma IdleStep(s: State, t: Tid, c: Choice)
    requires Can(s, t, c) && MemoryOk(s) && s.pcs[t].Idle?
    ensures GoodStep(s, ExecIdle(s, t, c), t)
  {
    match c
    case CallAlloc => Moves(s, t, Allocating(ReadHead));
    case CallFree(a) => Moves(s, t, Linking([a], Free, LookUp));
    case UseNode(a, p) =>
      assert s.pcs[t := Idle] == s.pcs;
      Writes(s, t, a, p, Idle);
    case HandOver(a, u) => assert s.pcs[t] == Idle;
    case _ => Moves(s, t, WaitingForBlockLock);
  }

  /** The second compare-and-swap of an allocation. */
  lemma Pops(s: State, t: Tid, a: Addr, after: Ptr)
    requires t in s.pcs && MemoryOk(s) && s.pcs[t] == Allocating(SwapOut(a, after)) && AllocOk(s, SwapOut(a, after))
    ensures GoodStep(s, ExecAlloc(s, t, SwapOut(a, after)), t)
  {
    hide Spells, Partition;
    Pop(s, ExecAlloc(s, t, SwapOut(a, after)), t, a);
  }

  lemma AllocStep(s: State, t: Tid, pc: AllocPc)
    requires t in s.pcs && MemoryOk(s) && s.pcs[t] == Allocating(pc) && AllocOk(s, pc)
    ensures GoodStep(s, ExecAlloc(s, t, pc), t)
  {
    hide GoodStep;
    var r := ExecAlloc(s, t, pc);
    match pc
    case ReadHead => Moves(s, t, r.pcs[t]);
    case SetMark(item) =>
      if r.pcs[t] == Allocating(ReadHead) { Moves(s, t, r.pcs[t]); } else { PutsMark(s, t, r.pcs[t]); }
    case ReadNext(a) =>
      assert s.list[0] == a;
      Moves(s, t, r.pcs[t]);
    case SwapOut(a, after) => Pops(s, t, a, after);
  }

  /** The compare-and-swap that puts a chain on the list. */
  lemma Pushes(s: State, t: Tid, chain: seq<Addr>, pc: Pc)
    requires t in s.pcs && MemoryOk(s)
    requires OwnsChain(s, t, chain, |chain|) && s.next[Last(chain)] == s.head.p
    requires s.head.marked ==> Marks(s.pcs[t])
    requires (pc == Idle && !HoldsLock(s.pcs[t])) || (pc == InBlock(Unlock) && HoldsLock(s.pcs[t]) && s.lock)
    ensures GoodStep(s, To(Push(s, chain), t, pc), t)
  {
    PushedPartition(s, chain);
    PushedSpells(s, chain);
    PushHarmless(s, t, chain, pc);
  }

  lemma PushHarmless(s: State, t: Tid, chain: seq<Addr>, pc: Pc)
    requires t in s.pcs && OwnsChain(s, t, chain, |chain|) && (s.head.marked ==> Marks(s.pcs[t]))
    ensures Harmless(s, To(Push(s, chain), t, pc), t)
  {
    forall a | a in chain ensures a in s.owner && s.owner[a] == t {
      var i :| 0 <= i < |chain| && chain[i] == a;
    }
  }

  lemma LinkStep(s: State, t: Tid, chain: seq<Addr>, use: Use, pc: LinkPc)
    requires t in s.pcs && MemoryOk(s) && s.pcs[t] == Linking(chain, use, pc) && LinkOk(s, t, chain, use, pc)
    ensures GoodStep(s, ExecLink(s, t, chain, use, pc), t)
  {
    hide GoodStep;
    var r := ExecLink(s, t, chain, use, pc);
    assert s.pcs[t := s.pcs[t]] == s.pcs;
    match pc
    case LookUp => Moves(s, t, r.pcs[t]);
    case MarkSeen(seen) =>
      if r.head == s.head { Moves(s, t, r.pcs[t]); } else { PutsMark(s, t, r.pcs[t]); }
    case WriteLast(seen) =>
      assert forall i :: 0 <= i < |chain| - 1 ==> chain[i] != Last(chain);
      Writes(s, t, Last(chain), seen, r.pcs[t]);
    case SwapIn(seen) =>
      if s.head == Head(seen, use == MarkingExpand) { Pushes(s, t, chain, r.pcs[t]); } else { Moves(s, t, r.pcs[t]); }
  }

  lemma LocksBlock(s: State, t: Tid)
    requires t in s.pcs && MemoryOk(s) && s.pcs[t] == WaitingForBlockLock && !s.lock
    ensures GoodStep(s, To(s.(lock := true), t, InBlock(Test)), t)
  {
  }

  lemma UnlocksBlock(s: State, t: Tid)
    requires t in s.pcs && MemoryOk(s) && s.pcs[t] == InBlock(Unlock) && s.lock
    ensures GoodStep(s, To(s.(lock := false), t, Idle), t)
  {
  }

  /** malloc succeeded: the new nodes belong to the thread. */
  lemma Mallocs(s: State, t: Tid, c: Choice)
    requires Can(s, t, c) && MemoryOk(s) && s.pcs[t] == InBlock(AskMalloc) && c.Malloc? && s.lock
    ensures GoodStep(s, ExecBlock(s, t, AskMalloc, c), t)
  {
    hide MemoryOk, Harmless;
    MallocHarmless(s, t, c);
    NewNodes(s, ExecBlock(s, t, AskMalloc, c), t, c.chain);
  }

  lemma MallocHarmless(s: State, t: Tid, c: Choice)
    requires Can(s, t, c) && MemoryOk(s) && s.pcs[t] == InBlock(AskMalloc) && c.Malloc?
    ensures Harmless(s, ExecBlock(s, t, AskMalloc, c), t)
  {
    hide Spells;
    assert forall a :: a in s.owner ==> a !in c.chain;
  }

  lemma BlockStep(s: State, t: Tid, pc: BlockPc, c: Choice)
    requires Can(s, t, c) && MemoryOk(s) && ThreadOk(s, t) && s.pcs[t] == InBlock(pc)
    ensures GoodStep(s, ExecBlock(s, t, pc, c), t)
  {
    hide GoodStep, MemoryOk;
    var r := ExecBlock(s, t, pc, c);
    match pc
    case Test => Moves(s, t, r.pcs[t]);
    case AskMalloc =>
      if c.Malloc? { Mallocs(s, t, c); } else { Moves(s, t, InBlock(Unlock)); }
    case Build(chain, i, use) =>
      if i + 1 < |chain| {
        Writes(s, t, chain[i], At(chain[i + 1]), r.pcs[t]);
      } else {
        assert forall j :: 0 <= j < |chain| - 1 ==> chain[j] != Last(chain);
        Writes(s, t, Last(chain), Null, r.pcs[t]);
      }
    case Unlock => UnlocksBlock(s, t);
  }

  /** No interleaving of any threads leaves the invariant. */
  lemma EveryStepKeepsInv(s: State, t: Tid, c: Choice)
    requires Inv(s) && Can(s, t, c)
    ensures Inv(Exec(s, t, c)) && GoodStep(s, Exec(s, t, c), t)
  {
    assert ThreadOk(s, t);
    match s.pcs[t] {
      case Idle => IdleStep(s, t, c);
      case Allocating(pc) => AllocStep(s, t, pc);
      case Linking(chain, use, pc) => LinkStep(s, t, chain, use, pc);
      case WaitingForBlockLock =>
        assert s.pcs[t := s.pcs[t]] == s.pcs;
        if s.lock { Moves(s, t, s.pcs[t]); } else { LocksBlock(s, t); }
      case InBlock(pc) => BlockStep(s, t, pc, c);
    }
    GoodStepKeepsInv(s, Exec(s, t, c), t);
  }

  // ---- whole runs ----

  datatype Action = Action(thread: Tid, choice: Choice)

  ghost predicate Allowed(s: State, acts: seq<Action>)
    decreases |acts|
  {
    acts == [] || (Can(s, acts[0].thread, acts[0].choice)
                   && Allowed(Exec(s, acts[0].thread, acts[0].choice), acts[1..]))
  }

  ghost function After(s: State, acts: seq<Action>): State
    requires Allowed(s, acts)
    decreases |acts|
  {
    if acts == [] then s else After(Exec(s, acts[0].thread, acts[0].choice), acts[1..])
  }

  /** No call is in progress. */
  ghost predicate AtRest(s: State) {
    && MemoryOk(s) && !s.head.marked && !s.lock
    && (forall t :: t in s.pcs ==> s.pcs[t].Idle?)
  }

  /** The nodes met by following `next` words from `p`, at most `fuel` of them. */
  ghost function Walk(p: Ptr, next: map<Addr, Ptr>, fuel: nat): seq<Addr>
    decreases fuel
  {
    if p.Null? || p.addr !in next || fuel == 0 then []
    else [p.addr] + Walk(next[p.addr], next, fuel - 1)
  }

  lemma {:induction false} WalkIsList(next: map<Addr, Ptr>, list: seq<Addr>, i: nat, fuel: nat)
    requires i <= |list| && |list| - i <= fuel
    requires Spells(Link(list, 0), next, list)
    ensures Walk(Link(list, i), next, fuel) == list[i..]
    decreases fuel
  {
    if i < |list| {
      WalkIsList(next, list, i + 1, fuel - 1);
      assert list[i..] == [list[i]] + list[i + 1..];
    }
  }

  /** Every interleaving, of any number of threads and any length: assert(false) is not reached, the
      words from the head lead through distinct nodes to NULL, and every node ever allocated is
      either among them or owned by exactly one thread. */
  lemma {:induction false} EveryInterleaving(s: State, acts: seq<Action>, fuel: nat)
    requires Inv(s) && Allowed(s, acts)
    ensures var r := After(s, acts);
      && Inv(r)
      && (forall t :: t in r.pcs ==> !r.pcs[t].Crashed?)
      && (|r.list| <= fuel ==> Walk(r.head.p, r.next, fuel) == r.list) && Distinct(r.list)
      && s.next.Keys <= r.next.Keys
      && (forall a :: a in r.next ==> (a in r.list <==> a !in r.owner))
      && (forall a :: a in r.list || a in r.owner ==> a in r.next)
    decreases |acts|
  {
    if acts == [] {
      forall t | t in s.pcs ensures !s.pcs[t].Crashed? {
        assert ThreadOk(s, t);
      }
      if |s.list| <= fuel { WalkIsList(s.next, s.list, 0, fuel); }
    } else {
      var t, c := acts[0].thread, acts[0].choice;
      EveryStepKeepsInv(s, t, c);
      EveryInterleaving(Exec(s, t, c), acts[1..], fuel);
    }
  }

  lemma RestIsAStart(s: State)
    requires AtRest(s)
    ensures Inv(s)
  {
    assert forall t :: t in s.pcs ==> ThreadOk(s, t);
  }

  // ---- each step is a step of a stack ----

  /** Seen from outside, a step of `t` does nothing to the free list, though it may pass on what `t`
      owned, or takes its first node, or puts a chain of nodes `t` owned in front of it. */
  ghost predicate StackStep(s: State, r: State, t: Tid) {
    || (r.list == s.list && forall a :: a in s.owner ==> a in r.owner && (r.owner[a] == s.owner[a] || s.owner[a] == t))
    || (s.list != [] && r.list == s.list[1..] && s.list[0] !in s.owner && r.owner == s.owner[s.list[0] := t])
    || (exists n :: 0 < n <= |r.list| && r.list[n..] == s.list
          && (forall a :: a in r.list[..n] ==> a in s.owner && s.owner[a] == t)
          && (forall a :: a in r.owner <==> a in s.owner && a !in r.list[..n]))
  }

  lemma LinkIsAPush(s: State, t: Tid, chain: seq<Addr>, use: Use, pc: LinkPc)
    requires OwnsChain(s, t, chain, |chain|)
    ensures StackStep(s, ExecLink(s, t, chain, use, pc), t)
  {
    var r := ExecLink(s, t, chain, use, pc);
    if pc.SwapIn? && s.head == Head(pc.seen, use == MarkingExpand) {
      var n := |chain|;
      assert r.list[..n] == chain && r.list[n..] == s.list;
      forall a | a in chain ensures a in s.owner && s.owner[a] == t {
        var i :| 0 <= i < n && chain[i] == a;
      }
    }
  }

  lemma AllocIsAPop(s: State, t: Tid, pc: AllocPc)
    requires MemoryOk(s) && AllocOk(s, pc)
    ensures StackStep(s, ExecAlloc(s, t, pc), t)
  {
    if pc.SwapOut? {
      assert s.list[0] == pc.node && s.list[0] in s.list;
    }
  }

  lemma EveryStepIsAStackStep(s: State, t: Tid, c: Choice)
    requires Inv(s) && Can(s, t, c)
    ensures StackStep(s, Exec(s, t, c), t)
  {
    assert ThreadOk(s, t);
    match s.pcs[t]
    case Allocating(pc) => AllocIsAPop(s, t, pc);
    case Linking(chain, use, pc) => LinkIsAPush(s, t, chain, use, pc);
    case InBlock(pc) =>
      if pc.AskMalloc? && c.Malloc? {
        assert forall a :: a in s.owner ==> a !in c.chain;
      }
    case _ =>
  }
}
