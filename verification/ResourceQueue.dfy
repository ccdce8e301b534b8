/** The resource queue of resource_queue.c: two circular doubly linked lists with sentinels.

    Each call is proved to do to the linked lists what QueueSpec does to a value, so the results
    about runs proved there hold of the lists.
 */
module ResourceQueue {
  import opened Sequences
  import opened QueueSpec

  /** An entry of either list; a sentinel's request is never read. */
  class Entry {
    var next: Entry?
    var prev: Entry?
    const request: Request

    constructor (r: Request)
      ensures request == r && next == null && prev == null
    {
      request := r;
      next, prev := null, null;
    }
  }

  ghost function Requests(s: seq<Entry>): (r: seq<Request>)
    ensures |r| == |s| && forall i :: 0 <= i < |s| ==> r[i] == s[i].request
  {
    if s == [] then [] else [s[0].request] + Requests(s[1..])
  }

  lemma RequestsAre(s: seq<Entry>, r: seq<Request>)
    requires |r| == |s| && forall i :: 0 <= i < |s| ==> r[i] == s[i].request
    ensures Requests(s) == r
  {
  }

  /** Position `i` on the ring of `s` behind its sentinel: the sentinel at both ends. */
  ghost function RingAt(head: Entry, s: seq<Entry>, i: nat): (e: Entry)
    requires i <= |s| + 1
    ensures e == head || e in s
  {
    if 0 < i <= |s| then s[i - 1] else head
  }

  ghost predicate Distinct(s: seq<Entry>) {
    forall i, j :: 0 <= i < j < |s| ==> s[i] != s[j]
  }

  /** The links of `head` and the entries of `s` form one ring in that order. */
  ghost predicate Ring(head: Entry, s: seq<Entry>)
    reads head, s
  {
    && head !in s && Distinct(s)
    && forall i :: 0 <= i <= |s| ==>
      RingAt(head, s, i).next == RingAt(head, s, i + 1) && RingAt(head, s, i + 1).prev == RingAt(head, s, i)
  }

  lemma NextOnRing(head: Entry, s: seq<Entry>, i: nat)
    requires Ring(head, s) && i <= |s|
    ensures RingAt(head, s, i).next == if i < |s| then s[i] else head
    ensures i < |s| ==> s[i] != head
  {
    assert RingAt(head, s, i + 1) == if i < |s| then s[i] else head;
    assert i < |s| ==> s[i] in s;
  }

  /** APPEND_TO_CDLL. */
  method Append(head: Entry, e: Entry, ghost s: seq<Entry>)
    requires Ring(head, s) && e != head && e !in s
    modifies head, e, s
    ensures Ring(head, s + [e])
  {
    assert RingAt(head, s, |s| + 1) == head && head.prev == RingAt(head, s, |s|);
    e.next := head;
    e.prev := head.prev;
    head.prev.next := e;
    head.prev := e;
    ghost var t := s + [e];
    forall i | 0 <= i <= |t|
      ensures RingAt(head, t, i).next == RingAt(head, t, i + 1) && RingAt(head, t, i + 1).prev == RingAt(head, t, i)
    {
      if i <= |s| { assert RingAt(head, t, i) == RingAt(head, s, i); }
      if i < |s| { assert RingAt(head, t, i + 1) == RingAt(head, s, i + 1); }
    }
  }

  /** REMOVE_FROM_CDLL. */
  method Unlink(e: Entry, ghost head: Entry, ghost s: seq<Entry>, ghost k: nat)
    requires Ring(head, s) && k < |s| && s[k] == e
    modifies head, s
    ensures Ring(head, Without(s, k)) && e.next == null && e.prev == null
  {
    assert RingAt(head, s, k + 1) == e;
    assert e.prev == RingAt(head, s, k) && e.next == RingAt(head, s, k + 2);
    e.prev.next := e.next;
    e.next.prev := e.prev;
    e.next := null;
    e.prev := null;
    ghost var t := Without(s, k);
    forall i | 0 <= i <= |t|
      ensures RingAt(head, t, i).next == RingAt(head, t, i + 1) && RingAt(head, t, i + 1).prev == RingAt(head, t, i)
    {
      if i < k {
        assert RingAt(head, t, i) == RingAt(head, s, i) && RingAt(head, t, i + 1) == RingAt(head, s, i + 1);
      } else if i > k {
        assert RingAt(head, t, i) == RingAt(head, s, i + 1) && RingAt(head, t, i + 1) == RingAt(head, s, i + 2);
      } else {
        assert RingAt(head, t, i) == RingAt(head, s, i) && RingAt(head, t, i + 1) == RingAt(head, s, i + 2);
      }
    }
  }

  class ResourceQueue {
    const holderHead: Entry
    const waitHead: Entry
    var current: Kind
    ghost var holders: seq<Entry>
    ghost var waiters: seq<Entry>
    ghost var repr: set<Entry>

    /** Both rings are sound and share no entry. */
    ghost predicate Linked()
      reads this, repr
    {
      && holderHead in repr && waitHead in repr
      && (forall i :: 0 <= i < |holders| ==> holders[i] in repr)
      && (forall i :: 0 <= i < |waiters| ==> waiters[i] in repr)
      && Ring(holderHead, holders) && Ring(waitHead, waiters)
      && holderHead != waitHead && holderHead !in waiters && waitHead !in holders
      && (forall e :: e in holders ==> e !in waiters)
    }

    ghost predicate Valid()
      reads this, repr
    {
      Linked() && Fair(Value())
    }

    /** The two lists as requests, in order. */
    ghost function Value(): Queue
      reads this
    {
      Queue(Requests(holders), Requests(waiters), current)
    }

    constructor ()
      ensures Valid() && fresh(repr) && Value() == EMPTY
    {
      var h := new Entry(Request(0, Read));
      var w := new Entry(Request(0, Read));
      holderHead, waitHead, current := h, w, Read;
      holders, waiters, repr := [], [], {h, w};
      new;
      holderHead.next, holderHead.prev := holderHead, holderHead;
      waitHead.next, waitHead.prev := waitHead, waitHead;
    }

    method IsHolderListEmpty() returns (empty: bool)
      requires Linked()
      ensures empty <==> holders == []
    {
      NextOnRing(holderHead, holders, 0);
      empty := holderHead.next == holderHead;
    }

    method IsWaitListEmpty() returns (empty: bool)
      requires Linked()
      ensures empty <==> waiters == []
    {
      NextOnRing(waitHead, waiters, 0);
      empty := waitHead.next == waitHead;
    }

    method AppendToHolderList(e: Entry)
      requires Linked() && e !in holders && e !in waiters && e != holderHead && e != waitHead
      modifies this, repr, e
      ensures Linked() && repr == old(repr) + {e} && holders == old(holders) + [e] && waiters == old(waiters)
      ensures Value() == old(Value()).(holders := old(Requests(holders)) + [e.request])
    {
      Append(holderHead, e, holders);
      RequestsAre(holders + [e], Requests(holders) + [e.request]);
      holders, repr := holders + [e], repr + {e};
    }

    method AppendToWaitList(e: Entry)
      requires Linked() && e !in holders && e !in waiters && e != holderHead && e != waitHead
      modifies this, repr, e
      ensures Linked() && repr == old(repr) + {e} && waiters == old(waiters) + [e] && holders == old(holders)
      ensures Value() == old(Value()).(waiters := old(Requests(waiters)) + [e.request])
    {
      Append(waitHead, e, waiters);
      RequestsAre(waiters + [e], Requests(waiters) + [e.request]);
      waiters, repr := waiters + [e], repr + {e};
    }

    method RemoveFromHolderList(e: Entry, ghost k: nat)
      requires Linked() && k < |holders| && holders[k] == e
      modifies this, repr
      ensures Linked() && repr == old(repr)
      ensures Value() == old(Value().(holders := Without(Requests(holders), k)))
    {
      Unlink(e, holderHead, holders, k);
      RequestsAre(Without(holders, k), Without(Requests(holders), k));
      holders := Without(holders, k);
    }

    method RemoveFirstWaiter(e: Entry)
      requires Linked() && waiters != [] && waiters[0] == e
      modifies this, repr
      ensures Linked() && repr == old(repr)
      ensures e in repr && e !in waiters && e !in holders && e != holderHead && e != waitHead
      ensures waiters == old(waiters)[1..] && holders == old(holders)
      ensures Value() == old(Value().(waiters := Requests(waiters)[1..]))
    {
      Unlink(e, waitHead, waiters, 0);
      ghost var rest := waiters[1..];
      assert Without(waiters, 0) == rest && forall i :: 0 <= i < |rest| ==> rest[i] == waiters[i + 1];
      assert e == waiters[0] && e in waiters;
      RequestsAre(rest, Requests(waiters)[1..]);
      waiters := rest;
    }

    /** requestResource, up to the point where the caller has the resource or sleeps. */
    method RequestResource(thread: nat, kind: Kind) returns (granted: bool)
      requires Valid()
      modifies this, repr
      ensures Valid() && fresh(repr - old(repr))
      ensures Value() == Ask(old(Value()), Request(thread, kind))
      ensures granted <==> Welcome(old(Value()), Request(thread, kind))
      ensures Requests(holders) == old(Requests(holders)) + if granted then [Request(thread, kind)] else []
      ensures Requests(waiters) == old(Requests(waiters)) + if granted then [] else [Request(thread, kind)]
    {
      AskKeepsFair(Value(), Request(thread, kind));
      RequestEntersOrWaits(Value(), Request(thread, kind));
      var e := new Entry(Request(thread, kind));
      var waitEmpty := IsWaitListEmpty();
      var holdEmpty := IsHolderListEmpty();
      if !waitEmpty {
        AppendToWaitList(e);
        granted := false;
      } else if holdEmpty {
        current := kind;
        AppendToHolderList(e);
        granted := true;
      } else if kind == Read && current == kind {
        AppendToHolderList(e);
        granted := true;
      } else {
        AppendToWaitList(e);
        granted := false;
      }
    }

    lemma FirstHolder(thread: nat) returns (first: nat)
      requires Holds(Value(), thread)
      ensures first == FirstOf(Requests(holders), thread) < |holders| && holders[first].request.thread == thread
      ensures forall j :: 0 <= j < first ==> holders[j].request.thread != thread
    {
      first := FirstOf(Requests(holders), thread);
      FirstOfIs(Requests(holders), thread);
    }

    /** The entry of `thread` that releaseResource looks for. */
    method FindHolder(thread: nat) returns (e: Entry, ghost k: nat)
      requires Linked() && Holds(Value(), thread)
      ensures k < |holders| && holders[k] == e && k == FirstOf(Requests(holders), thread)
    {
      ghost var first := FirstHolder(thread);
      k := 0;
      NextOnRing(holderHead, holders, 0);
      e := holderHead.next;
      while e != holderHead && e.request.thread != thread
        invariant k <= first && e == holders[k] && e != holderHead
        decreases first - k
      {
        assert k < first;
        NextOnRing(holderHead, holders, k + 1);
        e := e.next;
        k := k + 1;
      }
    }

    /** releaseResource: the caller is a holder, as the assertions demand. */
    method ReleaseResource(thread: nat)
      requires Valid() && Holds(Value(), thread)
      modifies this, repr
      ensures Valid() && repr == old(repr)
      ensures Value() == Leave(old(Value()), thread)
    {
      LeaveKeepsFair(Value(), thread);
      var e, k := FindHolder(thread);
      RemoveFromHolderList(e, k);
      GrantWaiters();
    }

    /** Makes the first waiter a holder; `current_type` is set when it is the only one. */
    method MoveFirstWaiter(w: Entry, unheld: bool)
      requires Linked() && waiters != [] && waiters[0] == w && (unheld <==> holders == [])
      modifies this, repr
      ensures Linked() && repr == old(repr) && waiters == old(waiters)[1..]
      ensures Value() == old(var q := Value();
        Queue(q.holders + [q.waiters[0]], q.waiters[1..], if unheld then q.waiters[0].kind else q.current))
    {
      RemoveFirstWaiter(w);
      AppendToHolderList(w);
      if unheld {
        current := w.request.kind;
      }
    }

    /** The loop that moves waiters to the holders and wakes them. */
    method GrantWaiters()
      requires Linked()
      modifies this, repr
      ensures Linked() && repr == old(repr) && Value() == Grant(old(Value()))
    {
      var empty := IsWaitListEmpty();
      while !empty
        invariant Linked() && repr == old(repr) && (empty <==> waiters == [])
        invariant Grant(Value()) == Grant(old(Value()))
        decreases |waiters|
      {
        NextOnRing(waitHead, waiters, 0);
        ghost var q := Value();
        assert [] + [q.waiters[0]] == [q.waiters[0]];
        var w := waitHead.next;
        var unheld := IsHolderListEmpty();
        if unheld || (w.request.kind == Read && current == w.request.kind) {
          MoveFirstWaiter(w, unheld);
        } else {
          break;
        }
        empty := IsWaitListEmpty();
      }
    }
  }
}
