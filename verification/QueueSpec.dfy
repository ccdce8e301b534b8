/** The FIFO resource queue of resource_queue.c as a value: who holds the resource, who waits.

    A call runs under the queue's mutex, so one call is one step. A waiting thread is woken only by
    being granted the resource (no spurious wake-up of the condition variable).
 */
module QueueSpec {
  import opened Sequences

  datatype Kind = Read | Write

  datatype Request = Request(thread: nat, kind: Kind)

  datatype Queue = Queue(holders: seq<Request>, waiters: seq<Request>, current: Kind)

  const EMPTY := Queue([], [], Read)

  ghost function Ask(q: Queue, r: Request): Queue {
    if q.waiters != [] then q.(waiters := q.waiters + [r])
    else if q.holders == [] then q.(holders := [r], current := r.kind)
    else if r.kind == Read && q.current == r.kind then q.(holders := q.holders + [r])
    else q.(waiters := q.waiters + [r])
  }

  /** The loop of releaseResource over the wait list. */
  ghost function Grant(q: Queue): Queue
    decreases |q.waiters|
  {
    if q.waiters == [] then q
    else
      var w := q.waiters[0];
      if q.holders == [] then Grant(Queue([w], q.waiters[1..], w.kind))
      else if w.kind == Read && q.current == w.kind then Grant(Queue(q.holders + [w], q.waiters[1..], q.current))
      else q
  }

  ghost predicate Holds(q: Queue, t: nat) {
    exists i :: 0 <= i < |q.holders| && q.holders[i].thread == t
  }

  /** The first entry of thread `t`. */
  ghost function FirstOf(s: seq<Request>, t: nat): (i: nat)
    ensures i <= |s|
  {
    if s == [] || s[0].thread == t then 0 else 1 + FirstOf(s[1..], t)
  }

  ghost function Leave(q: Queue, t: nat): Queue {
    var i := FirstOf(q.holders, t);
    if i < |q.holders| then Grant(q.(holders := Without(q.holders, i))) else q
  }

  lemma {:induction false} FirstOfIs(s: seq<Request>, t: nat)
    ensures var i := FirstOf(s, t);
      (i < |s| ==> s[i].thread == t) && forall j :: 0 <= j < i ==> s[j].thread != t
  {
    if s != [] && s[0].thread != t {
      FirstOfIs(s[1..], t);
      var i := FirstOf(s, t);
      forall j | 0 <= j < i ensures s[j].thread != t {
        if j > 0 { assert s[j] == s[1..][j - 1]; }
      }
      assert i < |s| ==> s[i] == s[1..][i - 1];
    }
  }

  // ---- who may be inside, and nobody waits for nothing ----

  /** The holders are readers, or one writer, as `current_type` says. */
  ghost predicate Compatible(q: Queue) {
    || (q.current == Read && forall i :: 0 <= i < |q.holders| ==> q.holders[i].kind == Read)
    || (q.current == Write && |q.holders| <= 1 && forall i :: 0 <= i < |q.holders| ==> q.holders[i].kind == Write)
  }

  /** Somebody waits only while somebody inside is in the way of the first waiter. */
  ghost predicate NoMissedWakeUp(q: Queue) {
    q.waiters != [] ==> q.holders != [] && (q.waiters[0].kind == Write || q.current == Write)
  }

  ghost predicate Fair(q: Queue) {
    Compatible(q) && NoMissedWakeUp(q)
  }

  /** How many waiters a queue without holders lets in: one writer, or all the readers in front. */
  ghost function Batch(waiters: seq<Request>): (n: nat)
    ensures n <= |waiters|
  {
    if waiters == [] then 0
    else if waiters[0].kind == Write then 1
    else ReadersInFront(waiters)
  }

  ghost function ReadersInFront(waiters: seq<Request>): (n: nat)
    ensures n <= |waiters|
    ensures forall i :: 0 <= i < n ==> waiters[i].kind == Read
    ensures n < |waiters| ==> waiters[n].kind == Write
  {
    if waiters == [] || !waiters[0].kind.Read? then 0
    else
      assert forall i :: 0 < i < |waiters| ==> waiters[i] == waiters[1..][i - 1];
      1 + ReadersInFront(waiters[1..])
  }

  lemma {:induction false} GrantToReaders(q: Queue)
    requires q.holders != [] && q.current == Read
    ensures var n := ReadersInFront(q.waiters);
      Grant(q) == Queue(q.holders + q.waiters[..n], q.waiters[n..], Read)
    decreases |q.waiters|
  {
    if q.waiters != [] && q.waiters[0].kind == Read {
      var p := Queue(q.holders + [q.waiters[0]], q.waiters[1..], Read);
      GrantToReaders(p);
      var m := ReadersInFront(p.waiters);
      assert p.waiters[m..] == q.waiters[m + 1..];
      assert q.waiters[..m + 1] == [q.waiters[0]] + p.waiters[..m];
      assert q.holders + [q.waiters[0]] + p.waiters[..m] == q.holders + q.waiters[..m + 1];
    } else {
      assert q.holders + [] == q.holders;
    }
  }

  /** With nobody inside, the loop grants one batch. */
  lemma GrantToNobody(q: Queue)
    requires q.holders == []
    ensures var n := Batch(q.waiters);
      Grant(q) == Queue(q.waiters[..n], q.waiters[n..], if n > 0 then q.waiters[0].kind else q.current)
  {
    if q.waiters != [] {
      var w := q.waiters[0];
      var p := Queue([w], q.waiters[1..], w.kind);
      assert Grant(q) == Grant(p);
      if w.kind == Read {
        GrantToReaders(p);
        var m := ReadersInFront(p.waiters);
        assert p.waiters[m..] == q.waiters[m + 1..];
        assert q.waiters[..m + 1] == [w] + p.waiters[..m];
      } else {
        assert Grant(p) == p;
      }
    }
  }

  /** A release lets in exactly one batch when it leaves no holder, and nobody otherwise. */
  lemma LeaveGrantsABatch(q: Queue, t: nat)
    requires Fair(q) && Holds(q, t)
    ensures var i := FirstOf(q.holders, t);
      && i < |q.holders|
      && var rest := Without(q.holders, i);
         var n := if rest == [] then Batch(q.waiters) else 0;
         && Leave(q, t).holders == rest + q.waiters[..n]
         && Leave(q, t).waiters == q.waiters[n..]
         && Leave(q, t).current == (if n > 0 then q.waiters[0].kind else q.current)
  {
    FirstOfIs(q.holders, t);
    var i := FirstOf(q.holders, t);
    var k :| 0 <= k < |q.holders| && q.holders[k].thread == t;
    var rest := Without(q.holders, i);
    if rest == [] {
      hide Batch;
      GrantToNobody(q.(holders := rest));
    }
  }

  lemma AskKeepsFair(q: Queue, r: Request)
    requires Fair(q)
    ensures Fair(Ask(q, r))
  {
  }

  lemma LeaveKeepsFair(q: Queue, t: nat)
    requires Fair(q) && Holds(q, t)
    ensures Fair(Leave(q, t))
  {
    LeaveGrantsABatch(q, t);
    var r := Leave(q, t);
    var i := FirstOf(q.holders, t);
    var rest := Without(q.holders, i);
    assert forall j :: 0 <= j < |rest| ==> rest[j] in q.holders;
    assert |rest| == |q.holders| - 1;
  }

  // ---- runs ----

  datatype Event = Asks(request: Request) | Leaves(thread: nat)

  ghost predicate Possible(q: Queue, e: Event) {
    e.Leaves? ==> Holds(q, e.thread)
  }

  ghost function Next(q: Queue, e: Event): Queue {
    match e
    case Asks(r) => Ask(q, r)
    case Leaves(t) => Leave(q, t)
  }

  ghost predicate Happens(q: Queue, es: seq<Event>)
    decreases |es|
  {
    es == [] || (Possible(q, es[0]) && Happens(Next(q, es[0]), es[1..]))
  }

  ghost function After(q: Queue, es: seq<Event>): Queue
    decreases |es|
  {
    if es == [] then q else After(Next(q, es[0]), es[1..])
  }

  /** The requests granted by one event, in order: what the wait list loses at its front, or the
      new request itself. */
  ghost function GrantedBy(q: Queue, e: Event): seq<Request> {
    var r := Next(q, e);
    match e
    case Asks(x) => if |r.waiters| == |q.waiters| then [x] else []
    case Leaves(_) => q.waiters[..if |r.waiters| <= |q.waiters| then |q.waiters| - |r.waiters| else 0]
  }

  ghost function Granted(q: Queue, es: seq<Event>): seq<Request>
    decreases |es|
  {
    if es == [] then [] else GrantedBy(q, es[0]) + Granted(Next(q, es[0]), es[1..])
  }

  ghost function Asked(es: seq<Event>): seq<Request> {
    if es == [] then [] else (if es[0].Asks? then [es[0].request] else []) + Asked(es[1..])
  }

  ghost function Releases(es: seq<Event>): nat {
    if es == [] then 0 else (if es[0].Leaves? then 1 else 0) + Releases(es[1..])
  }

  /** Whom a release takes out. */
  ghost function DepartedBy(q: Queue, e: Event): seq<Request> {
    if e.Leaves? && FirstOf(q.holders, e.thread) < |q.holders| then [q.holders[FirstOf(q.holders, e.thread)]] else []
  }

  ghost function Departed(q: Queue, es: seq<Event>): seq<Request>
    decreases |es|
  {
    if es == [] then [] else DepartedBy(q, es[0]) + Departed(Next(q, es[0]), es[1..])
  }

  /** Nobody waits, and the request gets on with everybody inside. */
  ghost predicate Welcome(q: Queue, r: Request) {
    q.waiters == [] && forall i :: 0 <= i < |q.holders| ==> r.kind == Read && q.holders[i].kind == Read
  }

  /** A request becomes the last holder, exactly if it is welcome, and the last waiter otherwise;
      either way it is the only entry the queue gains. */
  lemma RequestEntersOrWaits(q: Queue, r: Request)
    requires Fair(q)
    ensures var p := Next(q, Asks(r));
      && GrantedBy(q, Asks(r)) == (if Welcome(q, r) then [r] else [])
      && p.holders == q.holders + GrantedBy(q, Asks(r))
      && p.waiters == q.waiters + (if Welcome(q, r) then [] else [r])
      && p.current == (if q.holders == [] then r.kind else q.current)
  {
    assert q.holders != [] ==> q.holders[0].kind == q.current;
  }

  /** One event: it keeps the queue fair and moves requests from the wait list to the holders in
      order of arrival; with somebody waiting, only a release moves the line, and by one place. */
  lemma NextIsOrderly(q: Queue, e: Event)
    requires Fair(q) && Possible(q, e)
    ensures Fair(Next(q, e))
    ensures GrantedBy(q, e) + Next(q, e).waiters == q.waiters + (if e.Asks? then [e.request] else [])
    ensures q.waiters != [] ==>
      |Next(q, e).holders| == |q.holders| + |GrantedBy(q, e)| - if e.Leaves? then 1 else 0
  {
    match e
    case Asks(r) => AskKeepsFair(q, r);
    case Leaves(t) =>
      LeaveKeepsFair(q, t);
      LeaveGrantsABatch(q, t);
      var n := if |q.holders| == 1 then Batch(q.waiters) else 0;
      assert q.waiters[..n] + q.waiters[n..] == q.waiters;
  }

  /** No overtaking: over any run, the requests granted, followed by those still waiting, are the
      waiters there were, followed by the requests made, in that order. */
  lemma {:induction false} NoOvertaking(q: Queue, es: seq<Event>)
    requires Fair(q) && Happens(q, es)
    ensures Fair(After(q, es))
    ensures Granted(q, es) + After(q, es).waiters == q.waiters + Asked(es)
    decreases |es|
  {
    if es != [] {
      var e, p := es[0], Next(q, es[0]);
      NextIsOrderly(q, e);
      NoOvertaking(p, es[1..]);
      var now, later, left := GrantedBy(q, e), Granted(p, es[1..]), After(p, es[1..]).waiters;
      Assoc(now, later, left);
      Assoc(now, p.waiters, Asked(es[1..]));
      Assoc(q.waiters, if e.Asks? then [e.request] else [], Asked(es[1..]));
    }
  }

  /** Bounded waiting: while the waiter at index `i` is not granted, the number of holders plus its
      index goes down by one with every release and is changed by nothing else. So it is granted
      at the latest by release number |holders| + i. */
  lemma {:induction false} BoundedWaiting(q: Queue, es: seq<Event>, i: nat)
    requires Fair(q) && Happens(q, es) && i < |q.waiters|
    ensures var r, granted := After(q, es), |Granted(q, es)|;
      granted <= i ==>
        && i - granted < |r.waiters| && r.waiters[i - granted] == q.waiters[i]
        && |r.holders| + (i - granted) + Releases(es) == |q.holders| + i
        && Releases(es) < |q.holders| + i
    decreases |es|
  {
    hide Next, GrantedBy, Possible;
    if es == [] {
    } else {
      var e, p := es[0], Next(q, es[0]);
      NextIsOrderly(q, e);
      var n := |GrantedBy(q, e)|;
      if n <= i {
        var all := GrantedBy(q, e) + p.waiters;
        assert all[i] == p.waiters[i - n] && all[i] == q.waiters[i];
        BoundedWaiting(p, es[1..], i - n);
      }
    }
  }

  // ---- granted means inside ----

  lemma Removed(s: seq<Request>, i: nat)
    requires i < |s|
    ensures multiset(Without(s, i)) + multiset{s[i]} == multiset(s)
  {
    assert s == s[..i] + [s[i]] + s[i + 1..];
  }

  lemma NextKeepsBooks(q: Queue, e: Event)
    requires Fair(q) && Possible(q, e)
    ensures multiset(Next(q, e).holders) + multiset(DepartedBy(q, e)) == multiset(q.holders) + multiset(GrantedBy(q, e))
  {
    match e
    case Asks(r) =>
      hide Fair, Ask, Welcome;
      RequestEntersOrWaits(q, r);
    case Leaves(t) =>
      hide Fair, Leave, FirstOf, Batch, Without, Holds;
      LeaveGrantsABatch(q, t);
      Removed(q.holders, FirstOf(q.holders, t));
  }

  /** Over any run, whoever held the resource or was granted it, and has not left, is a holder, and
      nobody else is. */
  lemma {:induction false} HoldersAreTheGranted(q: Queue, es: seq<Event>)
    requires Fair(q) && Happens(q, es)
    ensures multiset(After(q, es).holders) + multiset(Departed(q, es)) == multiset(q.holders) + multiset(Granted(q, es))
    decreases |es|
  {
    hide Next, GrantedBy, DepartedBy, Possible, Fair;
    if es != [] {
      var e, p := es[0], Next(q, es[0]);
      NextIsOrderly(q, e);
      NextKeepsBooks(q, e);
      HoldersAreTheGranted(p, es[1..]);
      var now, later := GrantedBy(q, e), Granted(p, es[1..]);
      var gone, leaving := DepartedBy(q, e), Departed(p, es[1..]);
      calc {
        multiset(After(q, es).holders) + multiset(gone + leaving);
        multiset(After(q, es).holders) + multiset(leaving) + multiset(gone);
        multiset(p.holders) + multiset(gone) + multiset(later);
        multiset(q.holders) + multiset(now + later);
      }
    }
  }

  lemma CompatibleWriter(q: Queue, w: Request)
    requires Compatible(q) && w in q.holders && w.kind == Write
    ensures q.holders == [w]
  {
  }

  /** So a writer that was granted the resource and has not left is alone: everybody else who was
      ever granted it has left. */
  lemma WriterIsAlone(q: Queue, es: seq<Event>, w: Request)
    requires Fair(q) && Happens(q, es) && w.kind == Write
    requires multiset(Departed(q, es))[w] < (multiset(q.holders) + multiset(Granted(q, es)))[w]
    ensures After(q, es).holders == [w]
    ensures multiset(q.holders) + multiset(Granted(q, es)) == multiset(Departed(q, es)) + multiset{w}
  {
    hide After, Departed, Granted, Happens, Compatible, NoMissedWakeUp;
    HoldersAreTheGranted(q, es);
    NoOvertaking(q, es);
    assert multiset(After(q, es).holders)[w] > 0;
    CompatibleWriter(After(q, es), w);
    assert multiset([w]) == multiset{w};
  }
}
