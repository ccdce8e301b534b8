/** The reader/writer spin lock of atomic.c, as interleaved steps.

    A thread step is one read or one write of a shared field, or one compare-and-swap on the inner
    lock; `++reader_count` is a read and a write. Memory is sequentially consistent. Threads are
    well behaved: each holds at most one lock at a time and releases, promotes or demotes only what
    it holds.
 */
module RwLock {

  type Tid = nat

  datatype Hold = Nothing | Reading | Writing

  /** The calls: lock_rwlock and try_lock_rwlock for reading and for writing, unlock_rwlock, and
      promotion and demotion, which also come with and without `try`. */
  datatype Kind = LockRead | LockWrite | UnlockRead | UnlockWrite | Promote | Demote

  datatype Call = Call(kind: Kind, once: bool)

  /** The checks made without the inner lock, the write of line 71, and the attempt to lock. */
  datatype OuterPc = CheckWriting | CheckAbout | CheckCount | LateMark | Acquire

  /** The work done under the inner lock. */
  datatype InnerPc =
    | TestWriting | TestAbout | TestCount
    | ClearAbout | MarkAbout | SetWriting | ClearWriting
    | LoadCount | StoreCount(loaded: int)
    | Release(ok: bool)

  /** `Failed`: an assertion was false, other than the two on about_to_write (lines 227 and 232),
      which the steps run past. */
  datatype Pc = Idle | Outer(call: Call, o: OuterPc) | Inner(call: Call, i: InnerPc) | Failed

  datatype Thread = Thread(pc: Pc, hold: Hold)

  /** The fields of the lock: the inner lock, about_to_write, is_writing and reader_count. `late` is
      history: line 71 was executed since about_to_write was last cleared. */
  datatype Lock = Lock(inner: bool, about: bool, writing: bool, readers: int, late: bool)

  /** A thread's view: the lock and itself. */
  datatype View = View(l: Lock, th: Thread)

  datatype State = State(l: Lock, threads: map<Tid, Thread>)

  // ---- the steps ----

  ghost function At(v: View, pc: Pc): View {
    v.(th := v.th.(pc := pc))
  }

  /** The call has its effect: from here on the thread holds what it asked for. */
  ghost function Granted(v: View, call: Call): View {
    v.(th := Thread(Inner(call, Release(true)), Gives(call.kind)))
  }

  /** What a kind of call needs its thread to hold. */
  ghost function Needs(kind: Kind): Hold {
    match kind
    case LockRead | LockWrite => Nothing
    case UnlockRead | Promote => Reading
    case UnlockWrite | Demote => Writing
  }

  /** What the thread holds once the call has succeeded. */
  ghost function Gives(kind: Kind): Hold {
    match kind
    case LockRead | Demote => Reading
    case LockWrite | Promote => Writing
    case UnlockRead | UnlockWrite => Nothing
  }

  ghost function Begin(kind: Kind): OuterPc {
    if kind == UnlockRead || kind == UnlockWrite then Acquire else CheckWriting
  }

  /** A failed attempt: give up, or start over. */
  ghost function Again(call: Call): Pc {
    if call.once then Idle else Outer(call, Begin(call.kind))
  }

  ghost function StepOuter(v: View, call: Call, o: OuterPc): View {
    match o
    case CheckWriting =>
      if v.l.writing != (call.kind == Demote) then At(v, Again(call))
      else At(v, Outer(call, if call.kind == LockRead || call.kind == Demote then CheckAbout else CheckCount))
    case CheckAbout =>
      if call.kind == Demote then At(v, Outer(call, CheckCount))
      else At(v, if v.l.about then Again(call) else Outer(call, Acquire))
    case CheckCount =>
      if call.kind == Promote then At(v, if v.l.readers == 1 then Outer(call, Acquire) else Again(call))
      else if v.l.readers < 1 then At(v, Outer(call, Acquire))
      else if call.kind == Demote then At(v, Failed)
      else At(v, if call.once then Idle else Outer(call, LateMark))
    case LateMark => At(v.(l := v.l.(about := true, late := true)), Again(call))
    case Acquire =>
      if v.l.inner then v else At(v.(l := v.l.(inner := true)), Inner(call, TestWriting))
  }

  /** The value a successful call stores in reader_count. */
  ghost function Bump(kind: Kind): int {
    if kind == LockRead || kind == Demote then 1 else -1
  }

  ghost function StepInner(v: View, call: Call, i: InnerPc): View {
    var kind := call.kind;
    match i
    case TestWriting =>
      if kind == UnlockRead || kind == UnlockWrite then
        At(v, if v.l.writing == (kind == UnlockWrite) then Inner(call, TestCount) else Failed)
      else if v.l.writing == (kind == Demote) then
        At(v, Inner(call, if kind == LockRead || kind == Demote then TestAbout else TestCount))
      else At(v, Inner(call, if kind == Promote && !call.once then TestAbout else Release(false)))
    case TestAbout =>
      if kind == Demote then At(v, Inner(call, TestCount))
      else if v.l.about then At(v, Inner(call, Release(false)))
      else At(v, Inner(call, if kind == Promote then MarkAbout else LoadCount))
    case TestCount => (
      match kind
      case UnlockRead => At(v, if v.l.readers > 0 then Inner(call, LoadCount) else Failed)
      case UnlockWrite | Demote => At(v, if v.l.readers < 1 then Inner(call, ClearWriting) else Failed)
      case Promote =>
        At(v, Inner(call, if v.l.readers == 1 then ClearAbout else if call.once then Release(false) else TestAbout))
      case _ =>
        At(v, Inner(call, if v.l.readers < 1 then ClearAbout else if call.once then Release(false) else MarkAbout)))
    case ClearAbout => At(v.(l := v.l.(about := false, late := false)), Inner(call, SetWriting))
    case MarkAbout => At(v.(l := v.l.(about := true)), Inner(call, Release(false)))
    case SetWriting =>
      var w := v.(l := v.l.(writing := true));
      if kind == Promote then At(w, Inner(call, LoadCount)) else Granted(w, call)
    case ClearWriting =>
      var w := v.(l := v.l.(writing := false));
      if kind == Demote then At(w, Inner(call, LoadCount)) else Granted(w, call)
    case LoadCount => At(v, Inner(call, StoreCount(v.l.readers)))
    case StoreCount(loaded) =>
      Granted(v.(l := v.l.(readers := loaded + Bump(kind))), call)
    case Release(ok) => At(v.(l := v.l.(inner := false)), if ok then Idle else Again(call))
  }

  /** One step of a thread; `call` is the call it makes when it is idle. */
  ghost function StepView(v: View, call: Call): View {
    match v.th.pc
    case Idle => At(v, Outer(call, Begin(call.kind)))
    case Outer(c, o) => StepOuter(v, c, o)
    case Inner(c, i) => StepInner(v, c, i)
    case Failed => v
  }

  ghost predicate Can(s: State, t: Tid, call: Call) {
    && t in s.threads && !s.threads[t].pc.Failed?
    && (s.threads[t].pc.Idle? ==> s.threads[t].hold == Needs(call.kind))
  }

  ghost function ViewOf(s: State, t: Tid): View
    requires t in s.threads
  {
    View(s.l, s.threads[t])
  }

  ghost function Put(s: State, t: Tid, v: View): State {
    State(v.l, s.threads[t := v.th])
  }

  ghost function Step(s: State, t: Tid, call: Call): State
    requires Can(s, t, call)
  {
    Put(s, t, StepView(ViewOf(s, t), call))
  }

  // ---- the invariant ----

  ghost function Readers(threads: map<Tid, Thread>): set<Tid> {
    set t | t in threads && threads[t].hold == Reading
  }

  /** The thread is_writing stands for: it holds the write lock and has not begun to demote, or it
      is half-way through a promotion. */
  ghost predicate Claims(th: Thread) {
    var half := th.pc.Inner? && (th.pc.i.LoadCount? || th.pc.i.StoreCount?);
    (th.hold == Writing && !(half && th.pc.call.kind == Demote)) || (half && th.pc.call.kind == Promote)
  }

  ghost predicate InnerOk(l: Lock, call: Call, i: InnerPc) {
    var kind := call.kind;
    match i
    case TestWriting => true
    case TestAbout => kind == Promote || (kind == Demote && l.writing) || (kind == LockRead && !l.writing)
    case TestCount => kind != LockRead && l.writing == (kind == UnlockWrite || kind == Demote)
    case ClearAbout | SetWriting =>
      !l.writing && ((kind == LockWrite && l.readers == 0) || (kind == Promote && l.readers == 1))
    case MarkAbout => !l.writing && (kind == LockWrite || kind == Promote)
    case ClearWriting => l.writing && l.readers == 0 && (kind == UnlockWrite || kind == Demote)
    case LoadCount | StoreCount(_) =>
      && (i.StoreCount? ==> i.loaded == l.readers)
      && (match kind
          case LockRead => !l.writing
          case UnlockRead => !l.writing && l.readers > 0
          case Promote => l.writing && l.readers == 1
          case Demote => !l.writing && l.readers == 0
          case _ => false)
    case Release(_) => true
  }

  ghost predicate ThreadOk(l: Lock, th: Thread) {
    match th.pc
    case Idle => true
    case Outer(call, o) =>
      && th.hold == Needs(call.kind)
      && (o.CheckAbout? ==> call.kind == LockRead || call.kind == Demote)
      && (o.CheckCount? ==> call.kind == LockWrite || call.kind == Promote || call.kind == Demote)
      && (o.LateMark? ==> call.kind == LockWrite)
      && (o.CheckWriting? ==> call.kind != UnlockRead && call.kind != UnlockWrite)
    case Inner(call, i) =>
      && l.inner && th.hold == (if i.Release? && i.ok then Gives(call.kind) else Needs(call.kind))
      && InnerOk(l, call, i)
    case Failed => false
  }

  ghost predicate LockHeld(s: State) {
    && (s.l.inner ==> exists t :: t in s.threads && s.threads[t].pc.Inner?)
    && (forall t, u :: t in s.threads && u in s.threads && s.threads[t].pc.Inner? && s.threads[u].pc.Inner? ==> t == u)
  }

  ghost predicate CountsOk(s: State) {
    && s.l.readers == |Readers(s.threads)|
    && (s.l.writing <==> exists t :: t in s.threads && Claims(s.threads[t]))
    && (forall t :: t in s.threads && s.threads[t].hold == Writing ==> s.l.readers == 0)
    && (forall t, u ::
          t in s.threads && u in s.threads && s.threads[t].hold == Writing && s.threads[u].hold == Writing ==> t == u)
  }

  /** While is_writing is set, about_to_write is set exactly when line 71 set it behind the writer's back. */
  ghost predicate LateOk(s: State) {
    && (s.l.writing ==> (s.l.about <==> s.l.late))
    && (forall t ::
          t in s.threads && s.threads[t].pc.Inner? && s.threads[t].pc.i == SetWriting ==> (s.l.about <==> s.l.late))
  }

  ghost predicate Inv(s: State) {
    && LockHeld(s) && CountsOk(s) && LateOk(s)
    && (forall t :: t in s.threads ==> ThreadOk(s.l, s.threads[t]))
  }

  // ---- what a step leaves to check ----

  /** `r` differs from `s` in thread `t` and in shared fields; those that matter to a thread under
      the inner lock change only when that thread is `t`. */
  ghost predicate Local(s: State, r: State, t: Tid) {
    && t in s.threads && t in r.threads && r.threads == s.threads[t := r.threads[t]]
    && (s.threads[t].pc.Inner? || (r.l.writing == s.l.writing && r.l.readers == s.l.readers && (s.l.inner ==> r.l.inner)))
    && (r.l.inner <==> (r.threads[t].pc.Inner? || (s.l.inner && !s.threads[t].pc.Inner?)))
    && (r.threads[t].pc.Inner? ==> s.threads[t].pc.Inner? || !s.l.inner)
  }

  lemma KeepsInv(s: State, r: State, t: Tid)
    requires Inv(s) && Local(s, r, t) && CountsOk(r) && LateOk(r) && ThreadOk(r.l, r.threads[t])
    ensures Inv(r)
  {
    forall u | u in r.threads && u != t
      ensures ThreadOk(r.l, r.threads[u]) && (r.threads[u].pc.Inner? ==> s.l.inner && !s.threads[t].pc.Inner?)
    {
      assert ThreadOk(s.l, s.threads[u]);
    }
    assert ThreadOk(s.l, s.threads[t]);
    if r.l.inner && !r.threads[t].pc.Inner? {
      var u :| u in s.threads && s.threads[u].pc.Inner?;
      assert u in r.threads && r.threads[u].pc.Inner?;
    }
  }

  lemma ReadersAfter(threads: map<Tid, Thread>, t: Tid, th: Thread)
    ensures Readers(threads[t := th]) == if th.hold == Reading then Readers(threads) + {t} else Readers(threads) - {t}
  {
  }

  /** What the holders' counts say about the fields, seen by thread `t` under the inner lock. */
  lemma HolderSees(s: State, t: Tid)
    requires Inv(s) && t in s.threads && s.threads[t].pc.Inner?
    ensures var th := s.threads[t];
      && (th.hold == Reading && !Claims(th) ==> !s.l.writing && s.l.readers > 0)
      && (th.hold == Writing && Claims(th) ==> s.l.writing && s.l.readers == 0)
      && (s.l.readers == 1 && th.hold == Reading ==> Readers(s.threads) == {t})
  {
    var th := s.threads[t];
    if th.hold == Reading {
      assert t in Readers(s.threads);
      assert Readers(s.threads) - {t} == {} <==> Readers(s.threads) == {t};
      assert |Readers(s.threads) - {t}| == |Readers(s.threads)| - 1;
    }
  }

  // ---- the steps by their effect ----

  /** A step that only moves the thread along. */
  lemma Moves(s: State, t: Tid, pc: Pc)
    requires Inv(s) && t in s.threads
    requires s.threads[t].pc.Inner? <==> pc.Inner?
    requires ThreadOk(s.l, s.threads[t].(pc := pc)) && Claims(s.threads[t].(pc := pc)) == Claims(s.threads[t])
    requires pc.Inner? && pc.i == SetWriting ==> (s.l.about <==> s.l.late)
    ensures Inv(Put(s, t, At(ViewOf(s, t), pc)))
  {
    var r := Put(s, t, At(ViewOf(s, t), pc));
    CountsSame(s, r, t);
    KeepsInv(s, r, t);
  }

  lemma CountsSame(s: State, r: State, t: Tid)
    requires CountsOk(s) && t in s.threads && t in r.threads && r.threads == s.threads[t := r.threads[t]]
    requires r.l.writing == s.l.writing && r.l.readers == s.l.readers
    requires r.threads[t].hold == s.threads[t].hold && Claims(r.threads[t]) == Claims(s.threads[t])
    ensures CountsOk(r)
  {
    assert Readers(r.threads) == Readers(s.threads);
    if s.l.writing {
      var u :| u in s.threads && Claims(s.threads[u]);
      assert u in r.threads && Claims(r.threads[u]);
    }
  }

  /** Taking and freeing the inner lock. */
  lemma TakesOrFrees(s: State, t: Tid, inner: bool, pc: Pc)
    requires Inv(s) && t in s.threads
    requires s.threads[t].pc.Inner? == s.l.inner == !inner && pc.Inner? == inner
    requires ThreadOk(s.l.(inner := inner), s.threads[t].(pc := pc))
    requires Claims(s.threads[t].(pc := pc)) == Claims(s.threads[t])
    requires pc.Inner? ==> pc.i == TestWriting
    ensures Inv(Put(s, t, View(s.l.(inner := inner), s.threads[t].(pc := pc))))
  {
    var r := Put(s, t, View(s.l.(inner := inner), s.threads[t].(pc := pc)));
    CountsSame(s, r, t);
    KeepsInv(s, r, t);
  }

  /** The three writes of about_to_write. */
  lemma WritesAbout(s: State, t: Tid, about: bool, late: bool, pc: Pc)
    requires Inv(s) && t in s.threads && s.threads[t].pc.Inner? == pc.Inner?
    requires !Claims(s.threads[t].(pc := pc)) && !Claims(s.threads[t])
    requires ThreadOk(s.l, s.threads[t].(pc := pc))
    requires about == late || (!s.l.writing && s.threads[t].pc.Inner? && pc.i != SetWriting)
    ensures Inv(Put(s, t, View(s.l.(about := about, late := late), s.threads[t].(pc := pc))))
  {
    var r := Put(s, t, View(s.l.(about := about, late := late), s.threads[t].(pc := pc)));
    CountsSame(s, r, t);
    KeepsInv(s, r, t);
  }

  lemma SetsWriting(s: State, t: Tid, call: Call)
    requires Inv(s) && t in s.threads && s.threads[t].pc == Inner(call, SetWriting)
    ensures Inv(Put(s, t, StepInner(ViewOf(s, t), call, SetWriting)))
  {
    var r := Put(s, t, StepInner(ViewOf(s, t), call, SetWriting));
    assert ThreadOk(s.l, s.threads[t]);
    assert Readers(r.threads) == Readers(s.threads);
    assert Claims(r.threads[t]);
    forall u | u in s.threads ensures !Claims(s.threads[u]) {
    }
    KeepsInv(s, r, t);
  }

  lemma ClearsWriting(s: State, t: Tid, call: Call)
    requires Inv(s) && t in s.threads && s.threads[t].pc == Inner(call, ClearWriting)
    ensures Inv(Put(s, t, StepInner(ViewOf(s, t), call, ClearWriting)))
  {
    var r := Put(s, t, StepInner(ViewOf(s, t), call, ClearWriting));
    assert ThreadOk(s.l, s.threads[t]);
    assert Readers(r.threads) == Readers(s.threads);
    forall u | u in r.threads ensures !Claims(r.threads[u]) {
      assert ThreadOk(s.l, s.threads[u]);
    }
    KeepsInv(s, r, t);
  }

  lemma StoresCount(s: State, t: Tid, call: Call, loaded: int)
    requires Inv(s) && t in s.threads && s.threads[t].pc == Inner(call, StoreCount(loaded))
    ensures Inv(Put(s, t, StepInner(ViewOf(s, t), call, StoreCount(loaded))))
  {
    var r := Put(s, t, StepInner(ViewOf(s, t), call, StoreCount(loaded)));
    assert ThreadOk(s.l, s.threads[t]);
    assert t in Readers(s.threads) <==> s.threads[t].hold == Reading;
    ReadersAfter(s.threads, t, r.threads[t]);
    StoredClaims(s, t, call, loaded);
    KeepsInv(s, r, t);
  }

  lemma StoredClaims(s: State, t: Tid, call: Call, loaded: int)
    requires Inv(s) && t in s.threads && s.threads[t].pc == Inner(call, StoreCount(loaded))
    requires var r := Put(s, t, StepInner(ViewOf(s, t), call, StoreCount(loaded))); r.l.readers == |Readers(r.threads)|
    ensures CountsOk(Put(s, t, StepInner(ViewOf(s, t), call, StoreCount(loaded))))
  {
    assert ThreadOk(s.l, s.threads[t]);
    var r := Put(s, t, StepInner(ViewOf(s, t), call, StoreCount(loaded)));
    forall u | u in s.threads && u != t
      ensures r.threads[u] == s.threads[u] && (s.threads[u].hold == Writing <==> Claims(s.threads[u]))
    {
      assert !s.threads[u].pc.Inner?;
    }
    if call.kind == Promote { assert Claims(r.threads[t]); }
    assert s.l.writing == (call.kind == Promote);
  }

  // ---- every step ----

  lemma OuterStep(s: State, t: Tid, call: Call, o: OuterPc)
    requires Inv(s) && t in s.threads && s.threads[t].pc == Outer(call, o)
    ensures Inv(Put(s, t, StepOuter(ViewOf(s, t), call, o)))
  {
    assert ThreadOk(s.l, s.threads[t]);
    var v := StepOuter(ViewOf(s, t), call, o);
    match o
    case LateMark => WritesAbout(s, t, true, true, v.th.pc);
    case Acquire => if s.l.inner { Moves(s, t, s.threads[t].pc); } else { TakesOrFrees(s, t, true, v.th.pc); }
    case _ => Moves(s, t, v.th.pc);
  }

  /** A step under the inner lock that writes nothing. */
  lemma InnerMoves(s: State, t: Tid, call: Call, i: InnerPc)
    requires Inv(s) && t in s.threads && s.threads[t].pc == Inner(call, i)
    requires i.TestWriting? || i.TestAbout? || i.TestCount? || i.LoadCount?
    ensures Inv(Put(s, t, StepInner(ViewOf(s, t), call, i)))
  {
    assert ThreadOk(s.l, s.threads[t]);
    hide Inv;
    HolderSees(s, t);
    Moves(s, t, StepInner(ViewOf(s, t), call, i).th.pc);
  }

  lemma InnerStep(s: State, t: Tid, call: Call, i: InnerPc)
    requires Inv(s) && t in s.threads && s.threads[t].pc == Inner(call, i)
    ensures Inv(Put(s, t, StepInner(ViewOf(s, t), call, i)))
  {
    assert ThreadOk(s.l, s.threads[t]);
    hide Inv;
    var v := StepInner(ViewOf(s, t), call, i);
    match i
    case ClearAbout => WritesAbout(s, t, false, false, v.th.pc);
    case MarkAbout => WritesAbout(s, t, true, s.l.late, v.th.pc);
    case SetWriting => SetsWriting(s, t, call);
    case ClearWriting => ClearsWriting(s, t, call);
    case StoreCount(loaded) => StoresCount(s, t, call, loaded);
    case Release(ok) => TakesOrFrees(s, t, false, v.th.pc);
    case _ => InnerMoves(s, t, call, i);
  }

  lemma EveryStepKeepsInv(s: State, t: Tid, call: Call)
    requires Inv(s) && Can(s, t, call)
    ensures Inv(Step(s, t, call))
  {
    match s.threads[t].pc
    case Idle => Moves(s, t, Outer(call, Begin(call.kind)));
    case Outer(c, o) => OuterStep(s, t, c, o);
    case Inner(c, i) => InnerStep(s, t, c, i);
  }

  // ---- whole runs ----

  datatype Action = Action(thread: Tid, call: Call)

  ghost predicate Allowed(s: State, acts: seq<Action>)
    decreases |acts|
  {
    acts == [] || (Can(s, acts[0].thread, acts[0].call) && Allowed(Step(s, acts[0].thread, acts[0].call), acts[1..]))
  }

  ghost function After(s: State, acts: seq<Action>): State
    requires Allowed(s, acts)
    decreases |acts|
  {
    if acts == [] then s else After(Step(s, acts[0].thread, acts[0].call), acts[1..])
  }

  /** INIT_RWLOCK, and threads that hold nothing. */
  ghost predicate Init(s: State) {
    && !s.l.inner && !s.l.about && !s.l.writing && s.l.readers == 0 && !s.l.late
    && (forall t :: t in s.threads ==> s.threads[t] == Thread(Idle, Nothing))
  }

  lemma InitInv(s: State)
    requires Init(s)
    ensures Inv(s)
  {
    assert Readers(s.threads) == {};
  }

  /** The two assertions on about_to_write: the thread is at line 227, or at line 232. */
  ghost predicate AtAboutAssertion(th: Thread) {
    || (th.pc.Outer? && th.pc.call.kind == Demote && th.pc.o == CheckAbout && th.hold == Writing)
    || (th.pc.Inner? && th.pc.call.kind == Demote && th.pc.i == TestAbout)
  }

  /** What a reader of the state may conclude, in the terms of the lock. */
  ghost predicate Excludes(s: State) {
    && s.l.readers == |Readers(s.threads)|
    && (forall t, u :: t in s.threads && u in s.threads && s.threads[t].hold == Writing ==> s.threads[u].hold != Reading)
    && (forall t, u ::
          t in s.threads && u in s.threads && s.threads[t].hold == Writing && s.threads[u].hold == Writing ==> t == u)
    && (!s.l.inner && s.l.writing ==> s.l.readers == 0 && exists t :: t in s.threads && s.threads[t].hold == Writing)
    && (!s.l.inner && !s.l.writing ==> forall t :: t in s.threads ==> s.threads[t].hold != Writing)
    && (forall t :: t in s.threads ==> !s.threads[t].pc.Failed?)
    && (forall t :: t in s.threads && AtAboutAssertion(s.threads[t]) ==> (s.l.about <==> s.l.late))
  }

  lemma InvExcludes(s: State)
    requires Inv(s)
    ensures Excludes(s)
  {
    forall t | t in s.threads
      ensures !s.threads[t].pc.Failed? && (!s.l.inner ==> !s.threads[t].pc.Inner?)
      ensures AtAboutAssertion(s.threads[t]) ==> (s.l.about <==> s.l.late)
    {
      assert ThreadOk(s.l, s.threads[t]);
      if AtAboutAssertion(s.threads[t]) { assert Claims(s.threads[t]); }
    }
    forall t | t in s.threads && s.threads[t].hold == Reading ensures s.l.readers > 0 {
      assert t in Readers(s.threads);
    }
    if !s.l.inner && s.l.writing {
      var t :| t in s.threads && Claims(s.threads[t]);
      assert s.threads[t].hold == Writing;
    }
  }

  /** In every interleaving of any number of threads: at most one thread holds the write lock, and
      none holds the read lock beside it; reader_count is the number of readers; when the inner
      lock is free, is_writing says whether there is a writer, and excludes readers; no assertion
      other than those on about_to_write ever fails, and those fail exactly when line 71 was
      executed since the writer cleared about_to_write. */
  lemma {:induction false} EveryInterleaving(s: State, acts: seq<Action>)
    requires Inv(s) && Allowed(s, acts)
    ensures Inv(After(s, acts)) && Excludes(After(s, acts))
    decreases |acts|
  {
    if acts == [] {
      InvExcludes(s);
    } else {
      EveryStepKeepsInv(s, acts[0].thread, acts[0].call);
      EveryInterleaving(Step(s, acts[0].thread, acts[0].call), acts[1..]);
    }
  }

  // ---- about_to_write is not protected: which calls make its assertions fail ----

  ghost predicate Uses(acts: seq<Action>, calls: set<Call>) {
    forall i :: 0 <= i < |acts| ==> acts[i].call in calls
  }

  /** A run in which the threads make no other calls than these. */
  ghost predicate Reaches(s: State, calls: set<Call>, r: State) {
    exists acts :: Uses(acts, calls) && Allowed(s, acts) && After(s, acts) == r
  }

  ghost predicate AboutAssertionFails(s: State) {
    s.l.about && exists t :: t in s.threads && AtAboutAssertion(s.threads[t])
  }

  /** Some call of this kind, with or without `try`. */
  ghost predicate Among(kind: Kind, calls: set<Call>) {
    Call(kind, false) in calls || Call(kind, true) in calls
  }

  ghost predicate ReadersLeave(calls: set<Call>) {
    Among(Promote, calls) || Among(UnlockRead, calls)
  }

  /** A blocking request to write, a demotion, and some way for a reader to stop being one. */
  ghost predicate Dangerous(calls: set<Call>) {
    Call(LockWrite, false) in calls && Among(Demote, calls) && ReadersLeave(calls)
  }

  // ---- without one of the three they hold ----

  ghost predicate InLateMark(th: Thread) {
    th.pc.Outer? && th.pc.o == LateMark
  }

  ghost predicate Within(s: State, calls: set<Call>) {
    forall t :: t in s.threads && (s.threads[t].pc.Outer? || s.threads[t].pc.Inner?) ==> s.threads[t].pc.call in calls
  }

  /** Line 71 takes a blocking request, and a reader, who is still there if none can leave. */
  ghost predicate LateExplained(s: State, calls: set<Call>) {
    s.l.late || (exists t :: t in s.threads && InLateMark(s.threads[t])) ==>
      Call(LockWrite, false) in calls && (ReadersLeave(calls) || s.l.readers > 0)
  }

  lemma StepStaysWithin(s: State, t: Tid, call: Call, calls: set<Call>)
    requires Inv(s) && Can(s, t, call) && call in calls && Within(s, calls)
    ensures Within(Step(s, t, call), calls)
  {
    hide Inv, StepView;
    ViewStaysWithin(ViewOf(s, t), call);
  }

  lemma ViewStaysWithin(v: View, call: Call)
    requires !v.th.pc.Failed?
    ensures var pc, next := v.th.pc, StepView(v, call).th.pc;
      next.Outer? || next.Inner? ==> next.call == if pc.Idle? then call else pc.call
  {
  }

  /** What a step may do to the count of readers and to line 71. */
  ghost predicate LateStep(v: View, w: View) {
    && (w.l.readers >= v.l.readers || (v.th.pc.Inner? && v.th.pc.call.kind in {Promote, UnlockRead}))
    && (w.l.late ==> v.l.late || InLateMark(v.th))
    && (InLateMark(w.th) ==> w.th.pc.call == Call(LockWrite, false) && v.l.readers > 0)
  }

  lemma OuterAndLate(v: View, call: Call, o: OuterPc)
    requires ThreadOk(v.l, v.th) && v.th.pc == Outer(call, o)
    ensures LateStep(v, StepOuter(v, call, o))
  {
  }

  lemma InnerAndLate(v: View, call: Call, i: InnerPc)
    requires ThreadOk(v.l, v.th) && v.th.pc == Inner(call, i)
    ensures LateStep(v, StepInner(v, call, i))
  {
  }

  lemma StepAndLate(v: View, call: Call)
    requires ThreadOk(v.l, v.th)
    ensures LateStep(v, StepView(v, call))
  {
    match v.th.pc
    case Outer(c, o) => OuterAndLate(v, c, o);
    case Inner(c, i) => InnerAndLate(v, c, i);
    case _ =>
  }

  lemma StepKeepsLate(s: State, t: Tid, call: Call, calls: set<Call>)
    requires Inv(s) && Can(s, t, call) && call in calls && Within(s, calls) && LateExplained(s, calls)
    ensures LateExplained(Step(s, t, call), calls)
  {
    assert ThreadOk(s.l, s.threads[t]);
    StepStaysWithin(s, t, call, calls);
    hide Inv, StepView, ThreadOk;
    StepAndLate(ViewOf(s, t), call);
    var r := Step(s, t, call);
    if u :| u in r.threads && InLateMark(r.threads[u]) {
      assert u != t ==> s.threads[u] == r.threads[u];
    }
  }

  lemma LateIsHarmless(s: State, calls: set<Call>)
    requires Inv(s) && Within(s, calls) && LateExplained(s, calls) && !Dangerous(calls)
    ensures !AboutAssertionFails(s)
  {
    InvExcludes(s);
    forall t | t in s.threads && AtAboutAssertion(s.threads[t]) ensures !s.l.about {
      assert ThreadOk(s.l, s.threads[t]);
      assert s.threads[t].hold == Writing && s.threads[t].pc.call in calls;
      assert Among(Demote, calls);
    }
  }

  lemma {:induction false} RunsAreHarmless(s: State, acts: seq<Action>, calls: set<Call>)
    requires Inv(s) && Within(s, calls) && LateExplained(s, calls)
    requires Uses(acts, calls) && Allowed(s, acts) && !Dangerous(calls)
    ensures !AboutAssertionFails(After(s, acts))
    decreases |acts|
  {
    if acts == [] {
      LateIsHarmless(s, calls);
    } else {
      var t, call := acts[0].thread, acts[0].call;
      EveryStepKeepsInv(s, t, call);
      StepStaysWithin(s, t, call, calls);
      StepKeepsLate(s, t, call, calls);
      RunsAreHarmless(Step(s, t, call), acts[1..], calls);
    }
  }

  // ---- with all three they can fail ----

  lemma {:induction false} OneMore(s: State, acts: seq<Action>, a: Action)
    requires Allowed(s, acts) && Can(After(s, acts), a.thread, a.call)
    ensures Allowed(s, acts + [a]) && After(s, acts + [a]) == Step(After(s, acts), a.thread, a.call)
    decreases |acts|
  {
    if acts == [] {
      assert [] + [a] == [a];
      assert Allowed(Step(s, a.thread, a.call), [a][1..]);
    } else {
      assert (acts + [a])[1..] == acts[1..] + [a];
      OneMore(Step(s, acts[0].thread, acts[0].call), acts[1..], a);
    }
  }

  /** `n` steps of one thread in a row. */
  ghost function Solo(v: View, call: Call, n: nat): View
    decreases n
  {
    if n == 0 then v else Solo(StepView(v, call), call, n - 1)
  }

  ghost predicate SoloAllowed(v: View, call: Call, n: nat)
    decreases n
  {
    n == 0 ||
    (!v.th.pc.Failed? && (v.th.pc.Idle? ==> v.th.hold == Needs(call.kind)) && SoloAllowed(StepView(v, call), call, n - 1))
  }

  lemma {:induction false} SoloReaches(s: State, calls: set<Call>, x: State, t: Tid, call: Call, n: nat)
    requires Reaches(s, calls, x) && call in calls && t in x.threads && SoloAllowed(ViewOf(x, t), call, n)
    ensures Reaches(s, calls, Put(x, t, Solo(ViewOf(x, t), call, n)))
    decreases n
  {
    hide StepView;
    if n == 0 {
      assert Put(x, t, ViewOf(x, t)) == x;
    } else {
      var acts :| Uses(acts, calls) && Allowed(s, acts) && After(s, acts) == x;
      OneMore(s, acts, Action(t, call));
      assert Uses(acts + [Action(t, call)], calls);
      var y := Step(x, t, call);
      SoloReaches(s, calls, y, t, call, n - 1);
      assert Put(y, t, Solo(ViewOf(y, t), call, n - 1)) == Put(x, t, Solo(ViewOf(x, t), call, n));
    }
  }

  /** Solo steps one after another. */
  lemma {:induction false} SoloOn(v: View, call: Call, m: nat, n: nat)
    requires SoloAllowed(v, call, m) && SoloAllowed(Solo(v, call, m), call, n)
    ensures SoloAllowed(v, call, m + n) && Solo(v, call, m + n) == Solo(Solo(v, call, m), call, n)
    decreases m
  {
    hide StepView;
    if m > 0 { SoloOn(StepView(v, call), call, m - 1, n); }
  }

  const FREE := Lock(false, false, false, 0, false)
  const READ := Lock(false, false, false, 1, false)
  const WRITTEN := Lock(false, false, true, 0, false)

  // Alone, with the inner lock free: what each call comes to, whatever the fields hold.

  ghost function Idling(l: Lock, hold: Hold): View {
    View(l, Thread(Idle, hold))
  }

  ghost function Locked(l: Lock, c: Call, i: InnerPc): View {
    View(l.(inner := true), Thread(Inner(c, i), Needs(c.kind)))
  }

  /** The thread gets from `v` to `w` in `n` steps of its own. */
  ghost predicate Gets(v: View, c: Call, n: nat, w: View) {
    SoloAllowed(v, c, n) && Solo(v, c, n) == w
  }

  lemma GetsOn(v: View, c: Call, m: nat, w: View, n: nat, x: View)
    requires Gets(v, c, m, w) && Gets(w, c, n, x)
    ensures Gets(v, c, m + n, x)
  {
    SoloOn(v, c, m, n);
  }

  lemma LockSteps(l: Lock, c: Call)
    requires !l.inner && (c.kind == LockRead || c.kind == LockWrite || c.kind == Promote)
    requires !l.writing && (if c.kind == LockRead then !l.about else l.readers == if c.kind == Promote then 1 else 0)
    ensures Gets(Idling(l, Needs(c.kind)), c, 4, Locked(l, c, TestWriting))
  {
    var v := View(l, Thread(Outer(c, Acquire), Needs(c.kind)));
    assert Gets(Idling(l, Needs(c.kind)), c, 3, v);
    assert Gets(v, c, 1, Locked(l, c, TestWriting));
    GetsOn(Idling(l, Needs(c.kind)), c, 3, v, 1, Locked(l, c, TestWriting));
  }

  lemma CountSteps(l: Lock, c: Call)
    requires !l.inner
    ensures Gets(Locked(l, c, LoadCount), c, 3, Idling(l.(readers := l.readers + Bump(c.kind)), Gives(c.kind)))
  {
  }

  /** A reader is let in beside any number of readers, with and without `try`. */
  lemma ReaderEnters(l: Lock, once: bool)
    requires !l.inner && !l.writing && !l.about
    ensures Gets(Idling(l, Nothing), Call(LockRead, once), 9, Idling(l.(readers := l.readers + 1), Reading))
  {
    var c := Call(LockRead, once);
    LockSteps(l, c);
    var v, w, r := Locked(l, c, TestWriting), Locked(l, c, LoadCount), Idling(l.(readers := l.readers + 1), Reading);
    assert Gets(v, c, 2, w);
    hide Gets, StepView;
    CountSteps(l, c);
    GetsOn(v, c, 2, w, 3, r);
    GetsOn(Idling(l, Nothing), c, 4, v, 5, r);
  }

  /** It is kept out by a writer, and by a writer who waits; nothing is written. With `try` it gives up. */
  lemma ReaderIsKeptOut(l: Lock, once: bool)
    requires l.writing || l.about
    ensures var c := Call(LockRead, once);
      Gets(Idling(l, Nothing), c, if l.writing then 2 else 3,
        View(l, Thread(if once then Idle else Outer(c, CheckWriting), Nothing)))
  {
    var v, c := Idling(l, Nothing), Call(LockRead, once);
    var w := View(l, Thread(if once then Idle else Outer(c, CheckWriting), Nothing));
    if l.writing {
      assert Gets(v, c, 2, w);
    } else {
      assert Gets(v, c, 3, w);
    }
  }

  /** A writer is let in when nobody is inside. */
  lemma WriterEnters(l: Lock, once: bool)
    requires !l.inner && !l.writing && l.readers == 0
    ensures Gets(Idling(l, Nothing), Call(LockWrite, once), 9,
              Idling(l.(writing := true, about := false, late := false), Writing))
  {
    var c := Call(LockWrite, once);
    LockSteps(l, c);
    var v, w := Locked(l, c, TestWriting), Locked(l, c, ClearAbout);
    var r := Idling(l.(writing := true, about := false, late := false), Writing);
    assert Gets(v, c, 2, w);
    assert Gets(w, c, 3, r);
    GetsOn(v, c, 2, w, 3, r);
    GetsOn(Idling(l, Nothing), c, 4, v, 5, r);
  }

  /** It is kept out by a writer and by readers. Without `try` it then announces itself to readers. */
  lemma WriterIsKeptOut(l: Lock, once: bool)
    requires l.writing || l.readers > 0
    ensures var c := Call(LockWrite, once);
      if l.writing then
        Gets(Idling(l, Nothing), c, 2, View(l, Thread(if once then Idle else Outer(c, CheckWriting), Nothing)))
      else if once then Gets(Idling(l, Nothing), c, 3, Idling(l, Nothing))
      else Gets(Idling(l, Nothing), c, 4,
             View(l.(about := true, late := true), Thread(Outer(c, CheckWriting), Nothing)))
  {
    var c := Call(LockWrite, once);
    if !l.writing && !once {
      WriterWaits(l);
      var v := View(l, Thread(Outer(c, LateMark), Nothing));
      var w := View(l.(about := true, late := true), Thread(Outer(c, CheckWriting), Nothing));
      assert Gets(v, c, 1, w);
      GetsOn(Idling(l, Nothing), c, 3, v, 1, w);
    }
  }

  /** On its way it stands at line 71. */
  lemma WriterWaits(l: Lock)
    requires !l.writing && l.readers > 0
    ensures var c := Call(LockWrite, false); Gets(Idling(l, Nothing), c, 3, View(l, Thread(Outer(c, LateMark), Nothing)))
  {
  }

  lemma UnlockSteps(l: Lock, c: Call)
    requires !l.inner && ((c.kind == UnlockRead && !l.writing) || (c.kind == UnlockWrite && l.writing))
    ensures Gets(Idling(l, Needs(c.kind)), c, 3, Locked(l, c, TestCount))
  {
  }

  /** A reader leaves and the others stay. */
  lemma ReaderLeaves(l: Lock, once: bool)
    requires !l.inner && !l.writing && l.readers > 0
    ensures Gets(Idling(l, Reading), Call(UnlockRead, once), 7, Idling(l.(readers := l.readers - 1), Nothing))
  {
    var c := Call(UnlockRead, once);
    UnlockSteps(l, c);
    var v, w := Locked(l, c, TestCount), Locked(l, c, StoreCount(l.readers));
    var r := Idling(l.(readers := l.readers - 1), Nothing);
    assert Gets(v, c, 2, w);
    assert Gets(w, c, 2, r);
    GetsOn(v, c, 2, w, 2, r);
    GetsOn(Idling(l, Reading), c, 3, v, 4, r);
  }

  /** A writer leaves the lock free. */
  lemma WriterLeaves(l: Lock, once: bool)
    requires !l.inner && l.writing && l.readers == 0
    ensures Gets(Idling(l, Writing), Call(UnlockWrite, once), 6, Idling(l.(writing := false), Nothing))
  {
    var c := Call(UnlockWrite, once);
    UnlockSteps(l, c);
    assert Gets(Locked(l, c, TestCount), c, 3, Idling(l.(writing := false), Nothing));
    GetsOn(Idling(l, Writing), c, 3, Locked(l, c, TestCount), 3, Idling(l.(writing := false), Nothing));
  }

  /** The only reader becomes the writer. */
  lemma ReaderPromotes(l: Lock, once: bool)
    requires !l.inner && !l.writing && l.readers == 1
    ensures Gets(Idling(l, Reading), Call(Promote, once), 11,
              Idling(l.(writing := true, about := false, late := false, readers := 0), Writing))
  {
    hide Gets, StepView;
    var c := Call(Promote, once);
    LockSteps(l, c);
    var m := l.(writing := true, about := false, late := false);
    var v, w, r := Locked(l, c, TestWriting), Locked(m, c, LoadCount), Idling(m.(readers := 0), Writing);
    PromotionSteps(l, c);
    CountSteps(m, c);
    GetsOn(v, c, 4, w, 3, r);
    GetsOn(Idling(l, Reading), c, 4, v, 7, r);
  }

  lemma PromotionSteps(l: Lock, c: Call)
    requires !l.inner && !l.writing && l.readers == 1 && c.kind == Promote
    ensures Gets(Locked(l, c, TestWriting), c, 4,
              Locked(l.(writing := true, about := false, late := false), c, LoadCount))
  {
  }

  /** With other readers inside it writes nothing and stays a reader. */
  lemma PromotionIsKeptOut(l: Lock, once: bool)
    requires !l.writing && l.readers != 1
    ensures var c := Call(Promote, once);
      Gets(Idling(l, Reading), c, 3, View(l, Thread(if once then Idle else Outer(c, CheckWriting), Reading)))
  {
  }

  /** A writer becomes a reader. */
  lemma WriterDemotes(l: Lock, once: bool)
    requires !l.inner && l.writing && l.readers == 0
    ensures Gets(Idling(l, Writing), Call(Demote, once), 12, Idling(l.(writing := false, readers := 1), Reading))
  {
    hide Gets, StepView;
    var c := Call(Demote, once);
    DemotionBegins(l, c);
    var m := l.(writing := false);
    var v, w, r := Locked(l, c, TestWriting), Locked(m, c, LoadCount), Idling(m.(readers := 1), Reading);
    DemotionClearsWriting(l, c);
    CountSteps(m, c);
    GetsOn(v, c, 4, w, 3, r);
    GetsOn(Idling(l, Writing), c, 5, v, 7, r);
  }

  lemma DemotionBegins(l: Lock, c: Call)
    requires !l.inner && l.writing && l.readers == 0 && c.kind == Demote
    ensures Gets(Idling(l, Writing), c, 5, Locked(l, c, TestWriting))
  {
    var v := View(l, Thread(Outer(c, CheckCount), Writing));
    assert Gets(Idling(l, Writing), c, 3, v);
    assert Gets(v, c, 2, Locked(l, c, TestWriting));
    GetsOn(Idling(l, Writing), c, 3, v, 2, Locked(l, c, TestWriting));
  }

  lemma DemotionClearsWriting(l: Lock, c: Call)
    requires !l.inner && l.writing && l.readers == 0 && c.kind == Demote
    ensures Gets(Locked(l, c, TestWriting), c, 4, Locked(l.(writing := false), c, LoadCount))
  {
  }

  /** The call cannot succeed as the fields are. */
  ghost predicate Hopeless(l: Lock, kind: Kind) {
    l.writing || (if kind == LockRead then l.about else l.readers != if kind == Promote then 1 else 0)
  }

  ghost predicate Announces(l: Lock, c: Call) {
    !c.once && (c.kind == Promote || (c.kind == LockWrite && !l.writing))
  }

  ghost function Refused(l: Lock, c: Call): View {
    View(l.(about := l.about || Announces(l, c)), Thread(if c.once then Idle else Outer(c, CheckWriting), Needs(c.kind)))
  }

  /** Who finds that out only under the inner lock gives it back and starts over, or gives up with
      `try`. A blocking writer or promotion leaves about_to_write set, unless it is a writer who met
      a writer; nothing else is written. */
  lemma RefusedInside(l: Lock, c: Call) returns (n: nat)
    requires !l.inner && c.kind in {LockRead, LockWrite, Promote} && Hopeless(l, c.kind) && l.readers >= 0
    ensures Gets(Locked(l, c, TestWriting), c, n,
              View(l.(about := l.about || (!c.once && (c.kind == Promote || (c.kind == LockWrite && !l.writing)))),
                Thread(if c.once then Idle else Outer(c, CheckWriting), Needs(c.kind))))
  {
    n := if !Announces(l, c) then 2 else if c.kind == LockWrite || l.about then 3 else 4;
    if l.writing {
      RefusedSteps(l, c, TestWriting, n);
    } else {
      var test := if c.kind == LockRead then TestAbout else TestCount;
      assert Gets(Locked(l, c, TestWriting), c, 1, Locked(l, c, test));
      RefusedSteps(l, c, test, n);
      GetsOn(Locked(l, c, TestWriting), c, 1, Locked(l, c, test), n, Refused(l, c));
      n := 1 + n;
    }
  }

  lemma RefusedSteps(l: Lock, c: Call, test: InnerPc, n: nat)
    requires !l.inner && c.kind in {LockRead, LockWrite, Promote} && Hopeless(l, c.kind) && l.readers >= 0
    requires test == if l.writing then TestWriting else if c.kind == LockRead then TestAbout else TestCount
    requires n == if !Announces(l, c) then 2 else if c.kind == LockWrite || l.about then 3 else 4
    ensures Gets(Locked(l, c, test), c, n, Refused(l, c))
  {
    if n == 2 { assert Gets(Locked(l, c, test), c, 2, Refused(l, c)); }
    if n == 3 { assert Gets(Locked(l, c, test), c, 3, Refused(l, c)); }
    if n == 4 { assert Gets(Locked(l, c, test), c, 4, Refused(l, c)); }
  }

  /** Steps taken alone are a run of the whole lock. */
  lemma AloneIsARun(s: State, t: Tid, c: Call, n: nat, w: View)
    requires t in s.threads && Gets(ViewOf(s, t), c, n, w)
    ensures Reaches(s, {c}, Put(s, t, w))
  {
    hide StepView;
    assert Uses([], {c}) && Allowed(s, []) && After(s, []) == s;
    SoloReaches(s, {c}, s, t, c, n);
  }

  /** So in any state of the lock in which nobody writes or waits to write, a thread joins the readers. */
  lemma ReadersShare(s: State, t: Tid, once: bool) returns (r: State)
    requires Inv(s) && t in s.threads && s.threads[t] == Thread(Idle, Nothing)
    requires !s.l.inner && !s.l.writing && !s.l.about
    ensures Reaches(s, {Call(LockRead, once)}, r) && r.threads.Keys == s.threads.Keys
    ensures Readers(r.threads) == Readers(s.threads) + {t} && r.l == s.l.(readers := s.l.readers + 1)
  {
    hide Inv, StepView;
    var w := Idling(s.l.(readers := s.l.readers + 1), Reading);
    ReaderEnters(s.l, once);
    AloneIsARun(s, t, Call(LockRead, once), 9, w);
    r := Put(s, t, w);
    ReadersAfter(s.threads, t, w.th);
  }

  /** And a writer that leaves lets the next one in. */
  lemma WritersTakeTurns(s: State, t: Tid, u: Tid) returns (r: State)
    requires Inv(s) && t in s.threads && u in s.threads && t != u && !s.l.inner
    requires s.threads[t] == Thread(Idle, Writing) && s.threads[u] == Thread(Idle, Nothing)
    ensures Reaches(s, {Call(UnlockWrite, false)}, r) && r.threads == s.threads[t := Thread(Idle, Nothing)]
    ensures exists q :: Reaches(r, {Call(LockWrite, true)}, q) && q.threads == r.threads[u := Thread(Idle, Writing)]
  {
    assert ThreadOk(s.l, s.threads[t]) && Claims(s.threads[t]);
    assert s.l.writing && s.l.readers == 0;
    hide Inv, StepView;
    WriterLeaves(s.l, false);
    var w := Idling(s.l.(writing := false), Nothing);
    AloneIsARun(s, t, Call(UnlockWrite, false), 6, w);
    r := Put(s, t, w);
    WriterEnters(w.l, true);
    var x := Idling(w.l.(writing := true, about := false, late := false), Writing);
    AloneIsARun(r, u, Call(LockWrite, true), 9, x);
    var q := Put(r, u, x);
    assert Reaches(r, {Call(LockWrite, true)}, q) && q.threads == r.threads[u := Thread(Idle, Writing)];
  }

  ghost function Two(l: Lock, a: Thread, b: Thread): State {
    State(l, map[0 := a, 1 := b])
  }

  /** Steps of thread 0 beside a thread 1 that stands still. */
  lemma FirstRuns(s: State, calls: set<Call>, v: View, call: Call, n: nat, b: Thread)
    requires Reaches(s, calls, Two(v.l, v.th, b)) && call in calls && SoloAllowed(v, call, n)
    ensures var w := Solo(v, call, n); Reaches(s, calls, Two(w.l, w.th, b))
  {
    var x := Two(v.l, v.th, b);
    var w := Solo(v, call, n);
    assert ViewOf(x, 0) == v;
    SoloReaches(s, calls, x, 0, call, n);
    assert Put(x, 0, w) == Two(w.l, w.th, b);
  }

  lemma SecondRuns(s: State, calls: set<Call>, a: Thread, v: View, call: Call, n: nat)
    requires Reaches(s, calls, Two(v.l, a, v.th)) && call in calls && SoloAllowed(v, call, n)
    ensures var w := Solo(v, call, n); Reaches(s, calls, Two(w.l, a, w.th))
  {
    var x := Two(v.l, a, v.th);
    var w := Solo(v, call, n);
    assert ViewOf(x, 1) == v;
    SoloReaches(s, calls, x, 1, call, n);
    assert Put(x, 1, w) == Two(w.l, a, w.th);
  }

  /** Thread 0 writes, demotes itself and reads; thread 1, wanting to write, finds the reader and heads for line 71. */
  lemma WaiterFindsReader(calls: set<Call>) returns (s: State)
    requires Dangerous(calls)
    ensures Init(s)
    ensures var waiter := Thread(Outer(Call(LockWrite, false), LateMark), Nothing);
      Reaches(s, calls, Two(READ, Thread(Idle, Reading), waiter))
  {
    hide StepView, SoloAllowed;
    var nobody, write := Thread(Idle, Nothing), Call(LockWrite, false);
    s := Two(FREE, nobody, nobody);
    assert Uses([], calls) && Allowed(s, []) && After(s, []) == s;
    WriterEnters(FREE, false);
    FirstRuns(s, calls, View(FREE, nobody), write, 9, nobody);
    var once := Call(Demote, true) in calls;
    WriterDemotes(WRITTEN, once);
    FirstRuns(s, calls, View(WRITTEN, Thread(Idle, Writing)), Call(Demote, once), 12, nobody);
    var v := View(READ, nobody);
    WriterWaits(READ);
    SecondRuns(s, calls, Thread(Idle, Reading), v, write, 3);
  }

  /** The reader becomes the writer, by promotion or by leaving and coming back. */
  lemma ReaderComesToWrite(s: State, calls: set<Call>, b: Thread)
    requires Dangerous(calls) && Reaches(s, calls, Two(READ, Thread(Idle, Reading), b))
    ensures Reaches(s, calls, Two(WRITTEN, Thread(Idle, Writing), b))
  {
    hide StepView, SoloAllowed;
    var v := View(READ, Thread(Idle, Reading));
    if Among(Promote, calls) {
      var once := Call(Promote, true) in calls;
      ReaderPromotes(READ, once);
      FirstRuns(s, calls, v, Call(Promote, once), 11, b);
    } else {
      var once := Call(UnlockRead, true) in calls;
      ReaderLeaves(READ, once);
      FirstRuns(s, calls, v, Call(UnlockRead, once), 7, b);
      WriterEnters(FREE, false);
      FirstRuns(s, calls, View(FREE, Thread(Idle, Nothing)), Call(LockWrite, false), 9, b);
    }
  }

  /** Then thread 1 executes line 71, and thread 0 demotes itself again and meets line 227. */
  lemma AboutAssertionCanFail(calls: set<Call>) returns (s: State, r: State)
    requires Dangerous(calls)
    ensures Init(s) && Reaches(s, calls, r)
    ensures 0 in r.threads && AtAboutAssertion(r.threads[0]) && r.l.about
  {
    s := WaiterFindsReader(calls);
    var write := Call(LockWrite, false);
    var late := Thread(Outer(write, LateMark), Nothing);
    ReaderComesToWrite(s, calls, late);
    var v := View(WRITTEN, late);
    assert SoloAllowed(v, write, 1);
    SecondRuns(s, calls, Thread(Idle, Writing), v, write, 1);
    var w := Solo(v, write, 1);
    assert w.l == WRITTEN.(about := true, late := true);
    var once := Call(Demote, true) in calls;
    var u, demote := View(w.l, Thread(Idle, Writing)), Call(Demote, once);
    assert SoloAllowed(u, demote, 2) && Solo(u, demote, 2) == View(w.l, Thread(Outer(demote, CheckAbout), Writing));
    FirstRuns(s, calls, u, demote, 2, w.th);
    r := Two(w.l, Thread(Outer(demote, CheckAbout), Writing), w.th);
  }

  /** The assertions on about_to_write can fail in a program if and only if its threads make blocking
      requests to write, demote themselves, and let readers unlock or promote themselves. */
  lemma AboutAssertionFailsExactly(calls: set<Call>)
    ensures (exists s, r :: Init(s) && Reaches(s, calls, r) && AboutAssertionFails(r)) <==> Dangerous(calls)
  {
    if Dangerous(calls) {
      var s, r := AboutAssertionCanFail(calls);
      assert AboutAssertionFails(r);
    }
    forall s, r | Init(s) && Reaches(s, calls, r) && AboutAssertionFails(r) ensures Dangerous(calls) {
      var acts :| Uses(acts, calls) && Allowed(s, acts) && After(s, acts) == r;
      InitInv(s);
      if !Dangerous(calls) { RunsAreHarmless(s, acts, calls); }
    }
  }
}
