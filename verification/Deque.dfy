/** The linked units of base_dequeue.c, updated in place.

    The lock that every operation holds from start to end is not modelled: an operation is one step.
 */
module DequeUnits {
  import opened Options
  import opened DequeSpec

  /** `values` is the buffer at the end of the C structure. */
  class Node<T> {
    var next: Node?<T>
    var prev: Node?<T>
    var front: int
    var end: int
    var values: seq<T>

    constructor (buffer: seq<T>)
      ensures next == null && prev == null && front == 0 && end == 0 && values == buffer
    {
      next, prev, front, end, values := null, null, 0, 0, buffer;
    }

    /** initDeQueueUnit */
    method Init()
      modifies this`next, this`prev, this`front, this`end
      ensures next == null && prev == null && front == 0 && end == 0
    {
      next, prev, front, end := null, null, 0, 0;
    }
  }

  ghost predicate Holds<T>(n: Node<T>, u: Unit<T>, cap: nat)
    reads n`front, n`end, n`values
  {
    && |n.values| == cap && n.front == u.front && n.end == u.End() <= cap
    && n.values[u.front..u.End()] == u.items
  }

  // Neighbours are named by both indexes, so that one does not call for the next.

  ghost predicate AllHold<T>(chain: seq<Node<T>>, units: seq<Unit<T>>, cap: nat)
    reads chain`front, chain`end, chain`values
  {
    |units| == |chain| && forall i :: 0 <= i < |chain| ==> Holds(chain[i], units[i], cap)
  }

  lemma OneMoreHolds<T>(n: Node<T>, u: Unit<T>, chain: seq<Node<T>>, units: seq<Unit<T>>, free: seq<Node<T>>, cap: nat)
    requires Holds(n, u, cap) && AllHold(chain, units, cap) && Apart(chain, free)
    requires forall i :: 0 <= i < |free| ==> free[i] != n
    ensures AllHold([n] + chain, [u] + units, cap) && Apart([n] + chain, free)
  {
    hide Holds;
    assert forall i :: 1 <= i < |[n] + chain| ==> ([n] + chain)[i] == chain[i - 1] && ([u] + units)[i] == units[i - 1];
  }

  ghost predicate Linked<T>(chain: seq<Node<T>>)
    reads chain`next, chain`prev
  {
    && (forall i, j :: 0 <= i < j < |chain| && j == i + 1 ==> chain[i].next == chain[j] && chain[j].prev == chain[i])
    && (chain != [] ==> chain[|chain| - 1].next == null)
  }

  ghost predicate Listed<T>(head: Node?<T>, free: seq<Node<T>>, cap: nat)
    reads free`next, free`values
  {
    && head == (if free == [] then null else free[0])
    && (forall i, j :: 0 <= i < j < |free| && j == i + 1 ==> free[i].next == free[j])
    && (free != [] ==> free[|free| - 1].next == null)
    && (forall i :: 0 <= i < |free| ==> |free[i].values| == cap)
  }

  ghost predicate Distinct<T>(nodes: seq<Node<T>>) {
    forall i, j :: 0 <= i < j < |nodes| ==> nodes[i] != nodes[j]
  }

  ghost predicate Apart<T>(chain: seq<Node<T>>, free: seq<Node<T>>) {
    forall i, j :: 0 <= i < |chain| && 0 <= j < |free| ==> chain[i] != free[j]
  }

  method StoreInto<T>(n: Node<T>, v: T, ghost u: Unit<T>, ghost cap: nat)
    requires Holds(n, u, cap) && n.end < cap
    modifies n`values, n`end
    ensures Holds(n, Unit(u.front, u.items + [v]), cap)
  {
    n.values := n.values[n.end := v];
    n.end := n.end + 1;
    assert n.values[u.front..n.end] == old(n.values[u.front..n.end]) + [v];
  }

  method TakeLastOf<T>(n: Node<T>, ghost u: Unit<T>, ghost cap: nat) returns (value: Option<T>)
    requires Holds(n, u, cap) && n.front < n.end
    modifies n`end
    ensures Holds(n, Unit(u.front, u.items[..|u.items| - 1]), cap) && value == Some(u.items[|u.items| - 1])
  {
    n.end := n.end - 1;
    value := Some(n.values[n.end]);
  }

  method TakeFirstOf<T>(n: Node<T>, ghost u: Unit<T>, ghost cap: nat) returns (value: Option<T>)
    requires Holds(n, u, cap) && n.front < n.end
    modifies n`front
    ensures Holds(n, Unit(u.front + 1, u.items[1..]), cap) && value == Some(u.items[0])
  {
    value := Some(n.values[n.front]);
    n.front := n.front + 1;
  }

  method LinkFirst<T>(ghost chain: seq<Node<T>>, first: Node<T>, unit: Node<T>)
    requires chain != [] && first == chain[0] && Linked(chain) && Distinct(chain)
    requires forall i :: 0 <= i < |chain| ==> chain[i] != unit
    modifies first`prev, unit`next
    ensures Linked([unit] + chain) && Distinct([unit] + chain)
  {
    first.prev := unit;
    unit.next := first;
    ghost var all := [unit] + chain;
    assert forall i :: 1 <= i < |all| ==> all[i] == chain[i - 1];
  }

  class DeQueue<T> {
    var frontP: Node?<T>
    var endP: Node?<T>
    var freeP: Node?<T>
    const cap: nat
    ghost var chain: seq<Node<T>>
    ghost var units: seq<Unit<T>>
    ghost var free: seq<Node<T>>

    ghost predicate Valid()
      reads this, chain, free
    {
      && chain != [] && frontP == chain[0] && endP == chain[|chain| - 1]
      && Linked(chain) && Distinct(chain) && FreeListed() && Apart(chain, free)
      && AllHold(chain, units, cap)
    }

    ghost predicate FreeListed()
      reads this, free
    {
      Listed(freeP, free, cap) && Distinct(free)
    }

    ghost function Value(): (d: Deque<T>)
      reads this
    {
      Deque(cap, units, |free|)
    }

    /** createDeQueue, once memory for its first unit, `buffer`, is granted. */
    constructor (capacity: int, buffer: seq<T>)
      requires |buffer| == if capacity < LEAST_CAPACITY then LEAST_CAPACITY else capacity
      ensures Valid() && fresh(chain) && free == []
      ensures Value() == Create(capacity)
    {
      cap := if capacity < LEAST_CAPACITY then LEAST_CAPACITY else capacity;
      freeP := null;
      var unit := new Node<T>(buffer);
      unit.front, unit.end := |buffer| / 2, |buffer| / 2;
      frontP, endP := unit, unit;
      chain, units, free := [unit], [Unit(|buffer| / 2, [])], [];
    }

    /** A unit that is on neither list. */
    ghost predicate Loose(unit: Node<T>)
      reads this, unit
    {
      && |unit.values| == cap
      && (forall i :: 0 <= i < |chain| ==> chain[i] != unit)
      && (forall i :: 0 <= i < |free| ==> free[i] != unit)
    }

    ghost predicate Unused(unit: Node<T>)
      reads this, unit
    {
      Loose(unit) && unit.next == null && unit.prev == null && unit.front == 0 && unit.end == 0
    }

    /** An unused unit: off the free list, or new with the buffer that memory brings. */
    method Take(memory: Option<seq<T>>) returns (unit: Node?<T>)
      requires Valid() && (memory.Some? ==> |memory.value| == cap)
      modifies this`freeP, this`free, free
      ensures Valid() && |free| == LessSpare(old(Value()))
      ensures unit == null <==> memory == None && old(free) == []
      ensures unit != null ==> Unused(unit) && (unit in old(free) || fresh(unit))
    {
      if freeP == null {
        if memory == None {
          return null;
        }
        unit := new Node<T>(memory.value);
      } else {
        unit := freeP;
        freeP := unit.next;
        ghost var was := free;
        free := free[1..];
        assert forall i :: 0 <= i < |free| ==> free[i] == was[i + 1] && free[i] != unit;
        assert FreeListed();
        unit.Init();
      }
    }

    method AddLast(unit: Node<T>)
      requires Valid() && Unused(unit)
      modifies this`endP, this`chain, this`units, endP`next, unit`prev
      ensures Valid() && chain == old(chain) + [unit] && units == old(units) + [Unit(0, [])]
    {
      endP.next := unit;
      unit.prev := endP;
      endP := unit;
      chain, units := chain + [unit], units + [Unit(0, [])];
    }

    /** expandDeQueue at the end. */
    method GrowEnd(memory: Option<seq<T>>) returns (ok: bool)
      requires Valid() && (memory.Some? ==> |memory.value| == cap)
      modifies this, chain, free
      ensures Valid() && (ok <==> memory.Some? || old(free) != [])
      ensures Value() == if ok then ExpandEnd(old(Value())) else old(Value())
      ensures ok ==> endP in old(free) || fresh(endP)
    {
      var unit := Take(memory);
      ok := unit != null;
      if ok {
        AddLast(unit);
      }
    }

    method AddFirst(unit: Node<T>)
      requires Valid() && Loose(unit) && unit.front == unit.end == cap && unit.prev == null
      modifies this`frontP, this`chain, this`units, frontP`prev, unit`next
      ensures Valid() && chain == [unit] + old(chain) && units == [Unit(cap, [])] + old(units)
    {
      assert unit !in free && frontP !in free && Holds(unit, Unit(cap, []), cap);
      hide Linked, Distinct, Apart, Holds, AllHold;
      LinkFirst(chain, frontP, unit);
      OneMoreHolds(unit, Unit(cap, []), chain, units, free, cap);
      frontP := unit;
      chain, units := [unit] + chain, [Unit(cap, [])] + units;
    }

    /** expandDeQueue at the front. */
    method GrowFront(memory: Option<seq<T>>) returns (ok: bool)
      requires Valid() && (memory.Some? ==> |memory.value| == cap)
      modifies this, chain, free
      ensures Valid() && (ok <==> memory.Some? || old(free) != [])
      ensures Value() == if ok then ExpandFront(old(Value())) else old(Value())
      ensures ok ==> frontP in old(free) || fresh(frontP)
    {
      hide Linked, Listed, Distinct, Apart, AllHold;
      var unit := Take(memory);
      ok := unit != null;
      if ok {
        assert unit !in chain && unit !in free;
        unit.front, unit.end := cap, cap;
        AddFirst(unit);
      }
    }

    method StoreLast(v: T)
      requires Valid() && endP.end < cap
      modifies this`units, endP`values, endP`end
      ensures Valid() && Value() == PutLast(old(Value()), v)
    {
      hide Linked;
      ghost var last := |units| - 1;
      StoreInto(endP, v, units[last], cap);
      units := units[last := Unit(units[last].front, units[last].items + [v])];
    }

    method StoreFirst(v: T)
      requires Valid() && frontP.front > 0
      modifies this`units, frontP`values, frontP`front
      ensures Valid() && Value() == PutFirst(old(Value()), v)
    {
      hide Linked;
      frontP.front := frontP.front - 1;
      frontP.values := frontP.values[frontP.front := v];
      units := units[0 := Unit(units[0].front - 1, [v] + units[0].items)];
    }

    /** deQueuePush */
    method Push(v: T, memory: Option<seq<T>>) returns (outcome: Outcome)
      requires Valid() && Inv(Value()) && (memory.Some? ==> |memory.value| == cap)
      modifies this, chain, free
      ensures Valid() && (Value(), outcome) == DequeSpec.Push(old(Value()), v, memory.Some?)
      ensures Inv(Value()) && Items(Value()) == if outcome == Done then Items(old(Value())) + [v] else Items(old(Value()))
    {
      hide Items;
      PushAppends(Value(), v, memory.Some?);
      outcome := Done;
      if endP.end >= cap {
        var ok := GrowEnd(memory);
        if !ok {
          return OutOfMemory;
        }
      }
      StoreLast(v);
    }

    /** deQueuePushFront */
    method PushFront(v: T, memory: Option<seq<T>>) returns (outcome: Outcome)
      requires Valid() && Inv(Value()) && (memory.Some? ==> |memory.value| == cap)
      modifies this, chain, free
      ensures Valid() && (Value(), outcome) == DequeSpec.PushFront(old(Value()), v, memory.Some?)
      ensures Inv(Value()) && Items(Value()) == if outcome == Done then [v] + Items(old(Value())) else Items(old(Value()))
    {
      hide Items;
      PushFrontPrepends(Value(), v, memory.Some?);
      outcome := Done;
      if frontP.front < 1 {
        var ok := GrowFront(memory);
        if !ok {
          return OutOfMemory;
        }
      }
      StoreFirst(v);
    }

    /** A unit goes to the head of the free list. */
    method Recycle(unit: Node<T>)
      requires Valid() && Loose(unit)
      modifies this`freeP, this`free, unit`next
      ensures Valid() && free == [unit] + old(free)
    {
      ghost var was := free;
      unit.next := freeP;
      freeP := unit;
      free := [unit] + free;
      assert forall i :: 1 <= i < |free| ==> free[i] == was[i - 1];
    }

    method DropLast() returns (unit: Node<T>)
      requires Valid() && |chain| > 1 && endP.prev != null
      modifies this`endP, this`chain, this`units, endP.prev`next
      ensures Valid() && Loose(unit) && unit in old(chain)
      ensures units == old(units)[..|old(units)| - 1] && chain == old(chain)[..|old(chain)| - 1]
    {
      ghost var last := |chain| - 1;
      unit := endP;
      assert unit.prev == chain[last - 1];
      unit.prev.next := null;
      endP := unit.prev;
      chain, units := chain[..last], units[..last];
    }

    method DropFirst() returns (unit: Node<T>)
      requires Valid() && |chain| > 1 && frontP.next != null
      modifies this`frontP, this`chain, this`units, frontP.next`prev
      ensures Valid() && Loose(unit) && unit in old(chain)
      ensures units == old(units)[1..] && chain == old(chain)[1..]
    {
      ghost var was := chain;
      unit := frontP;
      assert unit.next == chain[1];
      unit.next.prev := null;
      frontP := unit.next;
      chain, units := chain[1..], units[1..];
      assert forall i :: 0 <= i < |chain| ==> chain[i] == was[i + 1];
    }

    /** The last unit is released. */
    method ShrinkEnd()
      requires Valid() && |chain| > 1
      modifies this, chain
      ensures Valid() && Value() == Deque(cap, old(units)[..|old(units)| - 1], |old(free)| + 1)
    {
      assert endP.prev == chain[|chain| - 2];
      var unit := DropLast();
      Recycle(unit);
    }

    method ShrinkFront()
      requires Valid() && |chain| > 1
      modifies this, chain
      ensures Valid() && Value() == Deque(cap, old(units)[1..], |old(free)| + 1)
    {
      assert frontP.next == chain[1];
      var unit := DropFirst();
      Recycle(unit);
    }

    /** What the ends of a valid queue look like. */
    lemma Ends()
      requires Valid()
      ensures chain != [] && |units| == |chain| && frontP in chain && endP in chain
      ensures var u: Unit<T> := units[|units| - 1]; endP.front == u.front && endP.end == u.End()
      ensures frontP.front == units[0].front && frontP.end == units[0].End()
      ensures frontP == endP <==> |chain| == 1
    {
      assert Holds(frontP, units[0], cap) && Holds(endP, units[|units| - 1], cap);
    }

    /** deQueuePop */
    method Pop() returns (value: Option<T>)
      requires Valid() && Inv(Value())
      modifies this, chain, free
      ensures Valid() && (Value(), value) == DequeSpec.Pop(old(Value()))
      ensures Inv(Value()) && (value == None <==> Items(old(Value())) == [] || HollowEnd(old(Value())))
      ensures Items(old(Value())) == Items(Value()) + if value == None then [] else [value.value]
    {
      hide Inv, Items, HollowEnd, Valid;
      PopTakesLast(Value());
      Ends();
      if endP.front >= endP.end {
        return None;
      }
      ghost var was := units;
      value := TakeLast();
      Ends();
      assert units[..|units| - 1] == was[..|units| - 1];
      if frontP != endP && endP.end < 1 {
        ShrinkEnd();
      }
    }

    method TakeLast() returns (value: Option<T>)
      requires Valid() && endP.front < endP.end
      modifies this`units, endP`end
      ensures Valid()
      ensures var last := |units| - 1; var u: Unit<T> := old(units)[last];
        && units == old(units)[last := Unit(u.front, u.items[..|u.items| - 1])]
        && value == Some(u.items[|u.items| - 1])
    {
      hide Linked, Listed, Apart;
      ghost var last := |units| - 1;
      ghost var u := units[last];
      value := TakeLastOf(endP, u, cap);
      units := units[last := Unit(u.front, u.items[..|u.items| - 1])];
    }

    /** deQueuePopFront */
    method PopFront() returns (value: Option<T>)
      requires Valid() && Inv(Value())
      modifies this, chain, free
      ensures Valid() && (Value(), value) == DequeSpec.PopFront(old(Value()))
      ensures Inv(Value()) && (value == None <==> Items(old(Value())) == [] || HollowFront(old(Value())))
      ensures Items(old(Value())) == (if value == None then [] else [value.value]) + Items(Value())
    {
      hide Inv, Items, HollowFront, Valid;
      PopFrontTakesFirst(Value());
      Ends();
      if frontP.front >= frontP.end {
        return None;
      }
      ghost var was := units;
      value := TakeFirst();
      Ends();
      assert units[1..] == was[1..];
      if frontP != endP && frontP.front >= cap {
        ShrinkFront();
      }
    }

    method TakeFirst() returns (value: Option<T>)
      requires Valid() && frontP.front < frontP.end
      modifies this`units, frontP`front
      ensures Valid()
      ensures var u: Unit<T> := old(units)[0];
        units == old(units)[0 := Unit(u.front + 1, u.items[1..])] && value == Some(u.items[0])
    {
      hide Linked, Listed, Apart;
      ghost var u := units[0];
      value := TakeFirstOf(frontP, u, cap);
      units := units[0 := Unit(u.front + 1, u.items[1..])];
    }

    /** isDeQueueEmpty */
    method IsEmpty() returns (empty: bool)
      requires Valid() && Inv(Value())
      ensures empty <==> Items(Value()) == []
    {
      EmptyExactly(Value());
      empty := frontP == endP && frontP.front == frontP.end;
    }
  }
}
