/** The unrolled double-ended queue of base_dequeue.c as a value.

    A unit is where its values start and the values; indexes before and after them hold nothing of
    interest. Recycled units are only counted.
 */
module DequeSpec {
  import opened Options

  datatype Outcome = Done | OutOfMemory

  datatype Unit<T> = Unit(front: nat, items: seq<T>) {
    function End(): nat { front + |items| }
  }

  datatype Deque<T> = Deque(cap: nat, units: seq<Unit<T>>, spare: nat)

  const LEAST_CAPACITY := 20

  /** Every unit but the last ends at the capacity, and every unit but the first starts at zero. */
  ghost predicate Inv<T>(d: Deque<T>) {
    && LEAST_CAPACITY <= d.cap && d.units != []
    && (forall i :: 0 <= i < |d.units| ==> d.units[i].End() <= d.cap)
    && (forall i :: 0 <= i < |d.units| - 1 ==> d.units[i].End() == d.cap)
    && (forall i :: 1 <= i < |d.units| ==> d.units[i].front == 0)
    && !(HollowFront(d) && HollowEnd(d))
  }

  /** An empty unit stands before others: the queue holds values that the front cannot see. */
  ghost predicate HollowFront<T>(d: Deque<T>) {
    |d.units| >= 2 && d.units[0].items == []
  }

  ghost predicate HollowEnd<T>(d: Deque<T>) {
    |d.units| >= 2 && d.units[|d.units| - 1].items == []
  }

  ghost function Flat<T>(units: seq<Unit<T>>): (items: seq<T>) {
    if units == [] then [] else units[0].items + Flat(units[1..])
  }

  ghost function Items<T>(d: Deque<T>): (items: seq<T>) {
    Flat(d.units)
  }

  // ---- the operations ----

  /** createDeQueue: one unit, empty, in the middle. */
  ghost function Create<T>(capacity: int): (d: Deque<T>)
    ensures Inv(d) && Items(d) == [] && !HollowFront(d) && !HollowEnd(d)
  {
    var cap := if capacity < LEAST_CAPACITY then LEAST_CAPACITY else capacity;
    var d := Deque(cap, [Unit(cap / 2, [])], 0);
    assert Items(d) == [] by { FlatOne<T>(Unit(cap / 2, [])); }
    d
  }

  ghost function LessSpare<T>(d: Deque<T>): nat {
    if d.spare > 0 then d.spare - 1 else 0
  }

  ghost function ExpandEnd<T>(d: Deque<T>): (r: Deque<T>)
    ensures r.units == d.units + [Unit(0, [])] && r.cap == d.cap
  {
    Deque(d.cap, d.units + [Unit(0, [])], LessSpare(d))
  }

  ghost function ExpandFront<T>(d: Deque<T>): (r: Deque<T>)
    ensures r.units == [Unit(d.cap, [])] + d.units && r.cap == d.cap
  {
    Deque(d.cap, [Unit(d.cap, [])] + d.units, LessSpare(d))
  }

  ghost function PutLast<T>(d: Deque<T>, v: T): (r: Deque<T>)
    requires d.units != []
  {
    var last := |d.units| - 1;
    d.(units := d.units[last := Unit(d.units[last].front, d.units[last].items + [v])])
  }

  ghost function PutFirst<T>(d: Deque<T>, v: T): (r: Deque<T>)
    requires d.units != [] && d.units[0].front > 0
  {
    d.(units := d.units[0 := Unit(d.units[0].front - 1, [v] + d.units[0].items)])
  }

  ghost predicate EndFull<T>(d: Deque<T>)
    requires d.units != []
  {
    d.units[|d.units| - 1].End() >= d.cap
  }

  ghost predicate FrontFull<T>(d: Deque<T>)
    requires d.units != []
  {
    d.units[0].front < 1
  }

  ghost function Push<T>(d: Deque<T>, v: T, memory: bool): (r: (Deque<T>, Outcome))
    requires d.units != []
  {
    if !EndFull(d) then (PutLast(d, v), Done)
    else if d.spare == 0 && !memory then (d, OutOfMemory)
    else (PutLast(ExpandEnd(d), v), Done)
  }

  ghost function PushFront<T>(d: Deque<T>, v: T, memory: bool): (r: (Deque<T>, Outcome))
    requires Inv(d)
  {
    if !FrontFull(d) then (PutFirst(d, v), Done)
    else if d.spare == 0 && !memory then (d, OutOfMemory)
    else (PutFirst(ExpandFront(d), v), Done)
  }

  /** deQueuePop: an emptied unit is recycled when it is not the only one and its index has come down to zero. */
  ghost function Pop<T>(d: Deque<T>): (r: (Deque<T>, Option<T>))
    requires d.units != []
  {
    var last := |d.units| - 1;
    var u := d.units[last];
    if u.items == [] then (d, None)
    else
      var left := Unit(u.front, u.items[..|u.items| - 1]);
      var rest := if last > 0 && left.End() < 1 then Deque(d.cap, d.units[..last], d.spare + 1)
        else d.(units := d.units[last := left]);
      (rest, Some(u.items[|u.items| - 1]))
  }

  ghost function PopFront<T>(d: Deque<T>): (r: (Deque<T>, Option<T>))
    requires d.units != []
  {
    var u := d.units[0];
    if u.items == [] then (d, None)
    else
      var left := Unit(u.front + 1, u.items[1..]);
      var rest := if |d.units| > 1 && left.front >= d.cap then Deque(d.cap, d.units[1..], d.spare + 1)
        else d.(units := d.units[0 := left]);
      (rest, Some(u.items[0]))
  }

  ghost predicate IsEmpty<T>(d: Deque<T>)
    requires d.units != []
  {
    |d.units| == 1 && d.units[0].items == []
  }

  // ---- the values of a chain ----

  lemma {:induction false} FlatConcat<T>(a: seq<Unit<T>>, b: seq<Unit<T>>)
    ensures Flat(a + b) == Flat(a) + Flat(b)
  {
    if a == [] {
      assert a + b == b;
    } else {
      assert (a + b)[1..] == a[1..] + b;
      FlatConcat(a[1..], b);
      assert a[0].items + (Flat(a[1..]) + Flat(b)) == a[0].items + Flat(a[1..]) + Flat(b);
    }
  }

  lemma FlatLast<T>(units: seq<Unit<T>>)
    requires units != []
    ensures Flat(units) == Flat(units[..|units| - 1]) + units[|units| - 1].items
  {
    var last := |units| - 1;
    assert units == units[..last] + [units[last]];
    FlatConcat(units[..last], [units[last]]);
    FlatOne(units[last]);
  }

  lemma FlatOne<T>(u: Unit<T>)
    ensures Flat([u]) == u.items
  {
    assert [u][1..] == [];
  }

  // ---- what each operation does ----

  lemma PutLastAdds<T>(d: Deque<T>, v: T)
    requires d.units != []
    ensures Items(PutLast(d, v)) == Items(d) + [v]
  {
    var last := |d.units| - 1;
    var r := PutLast(d, v);
    assert r.units[last := d.units[last]] == d.units;
    FlatReplaceLast(r.units, d.units[last], v);
  }

  lemma PutFirstAdds<T>(d: Deque<T>, v: T)
    requires d.units != [] && d.units[0].front > 0
    ensures Items(PutFirst(d, v)) == [v] + Items(d)
  {
    var r := PutFirst(d, v);
    assert r.units[1..] == d.units[1..];
    assert [v] + d.units[0].items + Flat(d.units[1..]) == [v] + (d.units[0].items + Flat(d.units[1..]));
  }

  lemma ExpandsNothing<T>(d: Deque<T>)
    ensures Items(ExpandEnd(d)) == Items(d) && Items(ExpandFront(d)) == Items(d)
  {
    var e: Unit<T>, f: Unit<T> := Unit(0, []), Unit(d.cap, []);
    FlatConcat(d.units, [e]);
    FlatConcat([f], d.units);
    FlatOne(e);
    FlatOne(f);
    assert Flat(d.units) + [] == Flat(d.units) && [] + Flat(d.units) == Flat(d.units);
  }

  /** An empty queue whose index stands at the end: the next push leaves the unit behind. */
  ghost predicate StuckEnd<T>(d: Deque<T>) {
    |d.units| == 1 && d.units[0].items == [] && d.units[0].front == d.cap
  }

  ghost predicate StuckFront<T>(d: Deque<T>) {
    |d.units| == 1 && d.units[0].items == [] && d.units[0].front == 0
  }

  /** A push appends its value, and hides it from the front exactly if the front was hidden or is left behind now. */
  lemma PushAppends<T>(d: Deque<T>, v: T, memory: bool)
    requires Inv(d)
    ensures var (r, o) := Push(d, v, memory);
      && Inv(r)
      && (o == OutOfMemory <==> EndFull(d) && d.spare == 0 && !memory)
      && (o == OutOfMemory ==> r == d)
      && (o == Done ==> Items(r) == Items(d) + [v] && !HollowEnd(r) && (HollowFront(r) <==> HollowFront(d) || StuckEnd(d)))
  {
    if !EndFull(d) {
      PutLastAdds(d, v);
    } else {
      ExpandsNothing(d);
      PutLastAdds(ExpandEnd(d), v);
    }
  }

  lemma PushFrontPrepends<T>(d: Deque<T>, v: T, memory: bool)
    requires Inv(d)
    ensures var (r, o) := PushFront(d, v, memory);
      && Inv(r)
      && (o == OutOfMemory <==> FrontFull(d) && d.spare == 0 && !memory)
      && (o == OutOfMemory ==> r == d)
      && (o == Done ==> Items(r) == [v] + Items(d) && !HollowFront(r) && (HollowEnd(r) <==> HollowEnd(d) || StuckFront(d)))
  {
    if !FrontFull(d) {
      PutFirstAdds(d, v);
    } else {
      ExpandsNothing(d);
      PutFirstAdds(ExpandFront(d), v);
    }
  }

  /** In every legal state there is a value unless there is one unit and it is empty. */
  lemma EmptyExactly<T>(d: Deque<T>)
    requires Inv(d)
    ensures IsEmpty(d) <==> Items(d) == []
  {
    if |d.units| == 1 {
      FlatLast(d.units);
    } else {
      FlatLast(d.units);
      assert d.units[..|d.units| - 1][0] == d.units[0];
    }
  }

  /** A pop takes the last value, and fails exactly on an empty queue or behind a hollow end. */
  lemma PopTakesLast<T>(d: Deque<T>)
    requires Inv(d)
    ensures var (r, v) := Pop(d);
      && Inv(r)
      && (v == None <==> Items(d) == [] || HollowEnd(d))
      && (v == None ==> r == d)
      && (v.Some? ==> Items(d) == Items(r) + [v.value] && !HollowEnd(r))
      && (HollowFront(r) <==> HollowFront(d) && |r.units| > 1)
  {
    hide Items;
    EmptyExactly(d);
    if Pop(d).1.Some? { PopItems(d); }
  }

  lemma PopItems<T>(d: Deque<T>)
    requires d.units != [] && Pop(d).1.Some?
    ensures Items(d) == Items(Pop(d).0) + [Pop(d).1.value]
  {
    var last := |d.units| - 1;
    var u := d.units[last];
    var left := u.items[..|u.items| - 1];
    assert u.items == left + [u.items[|u.items| - 1]];
    FlatLast(d.units);
    if last > 0 && u.front == 0 && left == [] {
      assert u.items == [u.items[|u.items| - 1]];
    } else {
      FlatReplaceLast(d.units, Unit(u.front, left), u.items[|u.items| - 1]);
    }
  }

  lemma FlatReplaceLast<T>(units: seq<Unit<T>>, left: Unit<T>, v: T)
    requires units != [] && units[|units| - 1].items == left.items + [v]
    ensures Flat(units) == Flat(units[|units| - 1 := left]) + [v]
  {
    var last := |units| - 1;
    var r := units[last := left];
    FlatLast(units);
    FlatLast(r);
    assert r[..last] == units[..last];
    assert Flat(units[..last]) + (left.items + [v]) == Flat(units[..last]) + left.items + [v];
  }

  lemma PopFrontTakesFirst<T>(d: Deque<T>)
    requires Inv(d)
    ensures var (r, v) := PopFront(d);
      && Inv(r)
      && (v == None <==> Items(d) == [] || HollowFront(d))
      && (v == None ==> r == d)
      && (v.Some? ==> Items(d) == [v.value] + Items(r) && !HollowFront(r))
      && (HollowEnd(r) <==> HollowEnd(d) && |r.units| > 1)
  {
    EmptyExactly(d);
    var (r, v) := PopFront(d);
    var u := d.units[0];
    if v.Some? {
      assert u.items == [v.value] + u.items[1..];
      if |r.units| < |d.units| {
        assert u.items == [v.value];
      } else {
        assert r.units[1..] == d.units[1..];
        assert [v.value] + u.items[1..] + Flat(d.units[1..]) == [v.value] + (u.items[1..] + Flat(d.units[1..]));
      }
    }
  }

  // ---- runs ----

  datatype Op<T> = AtEnd(value: T, memory: bool) | AtFront(value: T, memory: bool) | FromEnd | FromFront
  datatype Answer<T> = Pushed(outcome: Outcome) | Popped(value: Option<T>)

  ghost function Step<T>(d: Deque<T>, op: Op<T>): (r: (Deque<T>, Answer<T>))
    requires Inv(d)
    ensures Inv(r.0)
  {
    match op
    case AtEnd(v, m) => PushAppends(d, v, m); (Push(d, v, m).0, Pushed(Push(d, v, m).1))
    case AtFront(v, m) => PushFrontPrepends(d, v, m); (PushFront(d, v, m).0, Pushed(PushFront(d, v, m).1))
    case FromEnd => PopTakesLast(d); (Pop(d).0, Popped(Pop(d).1))
    case FromFront => PopFrontTakesFirst(d); (PopFront(d).0, Popped(PopFront(d).1))
  }

  /** What a sequence may answer: a pop fails on the empty sequence alone, a push only for want of memory. */
  ghost predicate Right<T>(s: seq<T>, op: Op<T>, a: Answer<T>, t: seq<T>) {
    match op
    case AtEnd(v, m) => (a == Pushed(Done) && t == s + [v]) || (a == Pushed(OutOfMemory) && !m && t == s)
    case AtFront(v, m) => (a == Pushed(Done) && t == [v] + s) || (a == Pushed(OutOfMemory) && !m && t == s)
    case FromEnd =>
      if s == [] then a == Popped(None) && t == s
      else a == Popped(Some(s[|s| - 1])) && t == s[..|s| - 1]
    case FromFront =>
      if s == [] then a == Popped(None) && t == s
      else a == Popped(Some(s[0])) && t == s[1..]
  }

  /** Every answer is right except that of a pop which meets an empty unit before the others. */
  lemma RightExactly<T>(d: Deque<T>, op: Op<T>)
    requires Inv(d)
    ensures var (r, a) := Step(d, op);
      Right(Items(d), op, a, Items(r)) <==> !((op.FromEnd? && HollowEnd(d)) || (op.FromFront? && HollowFront(d)))
  {
    hide Items;
    EmptyExactly(d);
    match op
    case AtEnd(v, m) => PushAppends(d, v, m);
    case AtFront(v, m) => PushFrontPrepends(d, v, m);
    case FromEnd => PopTakesLast(d);
    case FromFront => PopFrontTakesFirst(d);
  }

  /** No push at an end of an empty queue that has no room left at that end. */
  ghost predicate Careful<T>(d: Deque<T>, ops: seq<Op<T>>)
    requires Inv(d)
    decreases |ops|
  {
    ops == [] ||
    (!(ops[0].AtEnd? && StuckEnd(d)) && !(ops[0].AtFront? && StuckFront(d)) && Careful(Step(d, ops[0]).0, ops[1..]))
  }

  ghost predicate RunIsRight<T>(d: Deque<T>, ops: seq<Op<T>>)
    requires Inv(d)
    decreases |ops|
  {
    ops == [] ||
    var (r, a) := Step(d, ops[0]);
    Right(Items(d), ops[0], a, Items(r)) && RunIsRight(r, ops[1..])
  }

  lemma StaysSeen<T>(d: Deque<T>, op: Op<T>)
    requires Inv(d) && !HollowFront(d) && !HollowEnd(d)
    requires !(op.AtEnd? && StuckEnd(d)) && !(op.AtFront? && StuckFront(d))
    ensures !HollowFront(Step(d, op).0) && !HollowEnd(Step(d, op).0)
  {
    hide Items;
    match op
    case AtEnd(v, m) => PushAppends(d, v, m);
    case AtFront(v, m) => PushFrontPrepends(d, v, m);
    case FromEnd => PopTakesLast(d);
    case FromFront => PopFrontTakesFirst(d);
  }

  /** Every careful run is a run of a sequence. */
  lemma {:induction false} CarefulRunsAreRight<T>(d: Deque<T>, ops: seq<Op<T>>)
    requires Inv(d) && !HollowFront(d) && !HollowEnd(d) && Careful(d, ops)
    ensures RunIsRight(d, ops)
    decreases |ops|
  {
    if ops != [] {
      RightExactly(d, ops[0]);
      StaysSeen(d, ops[0]);
      CarefulRunsAreRight(Step(d, ops[0]).0, ops[1..]);
    }
  }

  /** After a push that is not careful, a pop at the other end finds nothing although the value is there. */
  lemma CarelessPushMisleads<T>(d: Deque<T>, v: T, memory: bool)
    requires Inv(d) && (StuckEnd(d) || StuckFront(d)) && (memory || d.spare > 0)
    ensures StuckEnd(d) ==> var r := Push(d, v, memory).0; Items(r) == [v] && PopFront(r) == (r, None)
    ensures StuckFront(d) ==> var r := PushFront(d, v, memory).0; Items(r) == [v] && Pop(r) == (r, None)
  {
    EmptyExactly(d);
    PushAppends(d, v, memory);
    PushFrontPrepends(d, v, memory);
  }

  ghost function Final<T>(d: Deque<T>, ops: seq<Op<T>>): (r: Deque<T>)
    requires Inv(d)
    ensures Inv(r)
    decreases |ops|
  {
    if ops == [] then d else Final(Step(d, ops[0]).0, ops[1..])
  }

  /** `n` times a push at the end and a pop from the front. */
  ghost function OneByOne<T>(n: nat, v: T): (ops: seq<Op<T>>) {
    if n == 0 then [] else [AtEnd(v, true), FromFront] + OneByOne(n - 1, v)
  }

  /** A queue that never holds more than one value reaches the boundary all the same. */
  lemma {:induction false} BoundaryIsReached<T>(d: Deque<T>, n: nat, v: T)
    requires Inv(d) && IsEmpty(d) && d.units[0].front + n == d.cap
    ensures StuckEnd(Final(d, OneByOne(n, v))) && Careful(d, OneByOne(n, v))
    decreases n
  {
    if n > 0 {
      var ops := OneByOne(n, v);
      var p := Step(d, ops[0]).0;
      assert ops[1..][0] == FromFront && ops[1..][1..] == OneByOne(n - 1, v);
      var q := Step(p, FromFront).0;
      assert q.units == [Unit(d.units[0].front + 1, [])];
      BoundaryIsReached(q, n - 1, v);
      assert Final(d, ops) == Final(p, ops[1..]);
    }
  }

  /** No unit is lost: a full end takes a recycled unit, and a new one exactly if there is none; an
      emptied unit is recycled; nothing else changes their number. */
  lemma UnitsAreKept<T>(d: Deque<T>, op: Op<T>)
    requires Inv(d)
    ensures var r := Step(d, op).0;
      var grows := (op.AtEnd? && EndFull(d)) || (op.AtFront? && FrontFull(d));
      if grows && (d.spare > 0 || op.memory) then
        |r.units| == |d.units| + 1 && r.spare == if d.spare == 0 then 0 else d.spare - 1
      else |r.units| + r.spare == |d.units| + d.spare && |r.units| <= |d.units|
  {
  }

  // ---- where a new queue starts ----

  /** A new queue has room at both ends, so its first pushes are hidden from nobody. */
  lemma CreatedInTheMiddle<T>(capacity: int)
    ensures var d, cap := Create<T>(capacity), if capacity < 20 then 20 else capacity;
      && d.cap == cap && d.units == [Unit(cap / 2, [])] && d.spare == 0
      && !StuckFront(d) && !StuckEnd(d) && !FrontFull(d) && !EndFull(d)
  {
  }

  ghost function EndPushes<T>(ops: seq<Op<T>>): nat {
    if ops == [] then 0 else (if ops[0].AtEnd? then 1 else 0) + EndPushes(ops[1..])
  }

  ghost function FrontPushes<T>(ops: seq<Op<T>>): nat {
    if ops == [] then 0 else (if ops[0].AtFront? then 1 else 0) + FrontPushes(ops[1..])
  }

  /** One unit, with room for so many more pushes at its front and at its end. */
  ghost predicate Roomy<T>(d: Deque<T>, front: nat, end: nat) {
    Inv(d) && |d.units| == 1 && front <= d.units[0].front && d.units[0].End() + end <= d.cap
  }

  lemma StaysRoomy<T>(d: Deque<T>, op: Op<T>, front: nat, end: nat)
    requires Roomy(d, front, end) && (op.AtFront? ==> front > 0) && (op.AtEnd? ==> end > 0)
    ensures var (r, a) := Step(d, op);
      && Roomy(r, if op.AtFront? then front - 1 else front, if op.AtEnd? then end - 1 else end)
      && Right(Items(d), op, a, Items(r))
  {
    RightExactly(d, op);
  }

  lemma {:induction false} RoomyRunsAreRight<T>(d: Deque<T>, ops: seq<Op<T>>)
    requires Roomy(d, FrontPushes(ops), EndPushes(ops))
    ensures RunIsRight(d, ops) && |Final(d, ops).units| == 1
    decreases |ops|
  {
    if ops != [] {
      StaysRoomy(d, ops[0], FrontPushes(ops), EndPushes(ops));
      RoomyRunsAreRight(Step(d, ops[0]).0, ops[1..]);
    }
  }

  /** Whatever is popped in between: pushing at most half the capacity at the front and at most the
      other half at the end of a new queue is a run of a sequence, in the unit it started with. */
  lemma HalfAtEachEndIsRight<T>(capacity: int, ops: seq<Op<T>>)
    requires var cap := if capacity < 20 then 20 else capacity;
      FrontPushes(ops) <= cap / 2 && EndPushes(ops) <= cap - cap / 2
    ensures RunIsRight(Create(capacity), ops) && |Final(Create(capacity), ops).units| == 1
  {
    CreatedInTheMiddle<T>(capacity);
    RoomyRunsAreRight(Create(capacity), ops);
  }

  lemma {:induction false} RunsJoin<T>(d: Deque<T>, first: seq<Op<T>>, second: seq<Op<T>>)
    requires Inv(d) && RunIsRight(d, first + second)
    ensures RunIsRight(Final(d, first), second)
    decreases |first|
  {
    if first == [] {
      assert first + second == second;
    } else {
      assert (first + second)[1..] == first[1..] + second;
      RunsJoin(Step(d, first[0]).0, first[1..], second);
    }
  }

  lemma {:induction false} OneByOnePushes<T>(n: nat, v: T, more: seq<Op<T>>)
    ensures EndPushes(OneByOne(n, v) + more) == n + EndPushes(more)
    ensures FrontPushes(OneByOne(n, v) + more) == FrontPushes(more)
  {
    if n == 0 {
      assert OneByOne(n, v) + more == more;
    } else {
      OneByOnePushes(n - 1, v, more);
      var ops := OneByOne(n, v) + more;
      assert ops[1..][1..] == OneByOne(n - 1, v) + more && ops[1..][0] == FromFront;
    }
  }

  lemma StuckIsWrong<T>(d: Deque<T>, v: T)
    requires Inv(d) && StuckEnd(d)
    ensures !RunIsRight(d, [AtEnd(v, true), FromFront])
  {
    var ops := [AtEnd(v, true), FromFront];
    CarelessPushMisleads(d, v, true);
    var r := Step(d, ops[0]).0;
    assert ops[1..][0] == FromFront;
    assert !Right(Items(r), FromFront, Step(r, FromFront).1, Items(Step(r, FromFront).0));
  }

  /** The bound is sharp: one push more at the end, the others popped in between, and a pop from the
      front is answered wrongly. */
  lemma OnePushMoreIsWrong<T>(capacity: int, v: T)
    ensures var cap := if capacity < 20 then 20 else capacity;
      var ops := OneByOne(cap - cap / 2, v) + [AtEnd(v, true), FromFront];
      EndPushes(ops) == cap - cap / 2 + 1 && FrontPushes(ops) == 0 && !RunIsRight(Create(capacity), ops)
  {
    CreatedInTheMiddle<T>(capacity);
    var d := Create<T>(capacity);
    var n, last := d.cap - d.cap / 2, [AtEnd(v, true), FromFront];
    OneByOnePushes(n, v, last);
    assert last[1..] == [FromFront] && last[1..][1..] == [];
    assert EndPushes(last[1..]) == 0 && FrontPushes(last[1..]) == 0;
    assert EndPushes(last) == 1 && FrontPushes(last) == 0;
    BoundaryIsReached(d, n, v);
    StuckIsWrong(Final(d, OneByOne(n, v)), v);
    if RunIsRight(d, OneByOne(n, v) + last) {
      RunsJoin(d, OneByOne(n, v), last);
    }
  }

  lemma {:induction false} FullUnits<T>(d: Deque<T>, n: nat)
    requires Inv(d) && 1 <= n < |d.units|
    ensures (n - 1) * d.cap <= |Flat(d.units[..n])|
  {
    FlatLast(d.units[..n]);
    assert d.units[..n][..n - 1] == d.units[..n - 1];
    if n > 1 {
      FullUnits(d, n - 1);
      assert (n - 1) * d.cap == (n - 2) * d.cap + d.cap;
    }
  }

  /** All units but two are full: the chain is no longer than its values need. */
  lemma ChainIsShort<T>(d: Deque<T>)
    requires Inv(d)
    ensures (|d.units| - 2) * d.cap <= |Items(d)|
  {
    if |d.units| > 1 {
      FullUnits(d, |d.units| - 1);
      FlatLast(d.units);
    }
  }
}
