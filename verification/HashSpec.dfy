/** The hash table of base_hash.c as a value: two bucket arrays, and the move from one to the other.

    Calls run one after another. Other threads are present only through the locks: at every turn of
    the migration loop any try-lock may fail, which is what a `Luck` says.
 */
module HashSpec {
  import opened Sequences
  import opened HashChains

  const LEAST_HASH_ENTRIES := 1024
  const COLLISION_COUNT_THRESHOLD := 100
  const REHASH_RETRY := 10
  const REHASH_STEPS := 100
  /** LEAST_HASH_ENTRIES grown by ENTRIES_INCREASE_RATIO (1.0): a rehash always moves to an array of
      this size, because the unused base still has size 0. */
  const NEW_ENTRIES := 2048
  const WORD := 0x1_0000_0000_0000_0000

  /** `++` and `--` on a 64-bit count. */
  function Inc(x: nat): nat {
    if x == WORD - 1 then 0 else x + 1
  }

  function Dec(x: nat): nat {
    if x == 0 then WORD - 1 else x - 1
  }

  /** One base; `model` is the map its chains hold. */
  datatype Base<K, V> = Base(chains: Chains<K, V>, items: nat, collisions: nat, model: map<K, V>)

  /** `onSecond`: current_base_p is base2. `failed`: assert(entry_idx < current_base_p->size) was
      false at least once. */
  datatype Table<K, V> = Table(
    base1: Base<K, V>, base2: Base<K, V>, onSecond: bool, rehashing: bool, pos: nat, failed: bool)

  ghost function Current<K, V>(t: Table<K, V>): Base<K, V> {
    if t.onSecond then t.base2 else t.base1
  }

  ghost function AddHead<K, V>(hash: K -> nat, b: Base<K, V>, k: K, v: V): Base<K, V>
    requires b.chains != []
  {
    var i := Bucket(hash, b.chains, k);
    b.(chains := b.chains[i := [Pair(k, v)] + b.chains[i]], model := b.model[k := v])
  }

  ghost function DropAt<K, V>(b: Base<K, V>, i: nat, j: nat): Base<K, V>
    requires i < |b.chains| && j < |b.chains[i]|
  {
    b.(chains := b.chains[i := Without(b.chains[i], j)], model := b.model - {b.chains[i][j].key})
  }

  ghost function ReplaceAt<K, V>(b: Base<K, V>, i: nat, j: nat, v: V): Base<K, V>
    requires i < |b.chains| && j < |b.chains[i]|
  {
    var k := b.chains[i][j].key;
    b.(chains := b.chains[i := b.chains[i][j := Pair(k, v)]], model := b.model[k := v])
  }

  // ---- migration ----

  /** Which try-lock of a turn fails: that of the bucket, the base's count, the node, or the bucket
      the node goes to; or none. */
  datatype Luck = HeadBusy | CountBusy | NodeBusy | TargetBusy | AllFree

  /** With every lock taken: the first node of the bucket goes to the head of its new chain. */
  ghost function Move<K, V>(hash: K -> nat, t: Table<K, V>): Table<K, V>
    requires t.pos < |t.base1.chains| && t.base1.chains[t.pos] != [] && t.base2.chains != []
  {
    var node := t.base1.chains[t.pos][0];
    t.(base1 := DropAt(t.base1, t.pos, 0).(items := Dec(t.base1.items)),
       base2 := AddHead(hash, t.base2, node.key, node.value))
  }

  ghost function Pass<K, V>(t: Table<K, V>): Table<K, V> {
    t.(pos := if t.pos + 1 >= |Current(t).chains| then 0 else t.pos + 1)
  }

  /** A turn up to the look at the count. Once base2 is current, a node's own bucket is its target,
      which is locked already, so nothing moves. */
  ghost function Halfway<K, V>(hash: K -> nat, t: Table<K, V>, luck: Luck): Table<K, V>
    requires t.pos < |Current(t).chains| && t.base2.chains != []
  {
    if luck == HeadBusy || luck == CountBusy then t
    else if Current(t).chains[t.pos] == [] then Pass(t)
    else if luck != AllFree || t.onSecond then t
    else Move(hash, t)
  }

  ghost function CheckSwitch<K, V>(t: Table<K, V>): Table<K, V> {
    if Current(t).items < 1 then t.(onSecond := true) else t
  }

  /** One turn of the loop of rehashNSteps. */
  ghost function Turn<K, V>(hash: K -> nat, t: Table<K, V>, luck: Luck): Table<K, V>
    requires t.pos < |Current(t).chains| && t.base2.chains != []
  {
    if luck == HeadBusy || luck == CountBusy then t else CheckSwitch(Halfway(hash, t, luck))
  }

  /** Any number of turns, with any luck. */
  ghost function Turns<K, V>(hash: K -> nat, t: Table<K, V>, lucks: seq<Luck>): Table<K, V> {
    if lucks == [] then t
    else
      var r := Turns(hash, t, lucks[..|lucks| - 1]);
      if r.pos < |Current(r).chains| && r.base2.chains != [] then Turn(hash, r, lucks[|lucks| - 1]) else r
  }

  /** The loop of rehashNSteps when nothing else runs: `n` turns with every lock free, unless the
      position lies outside or the count comes to nothing. */
  ghost function Steps<K, V>(hash: K -> nat, t: Table<K, V>, n: nat): Table<K, V>
    decreases n
  {
    if n == 0 || t.pos >= |Current(t).chains| || t.base2.chains == [] then t
    else if Current(Halfway(hash, t, AllFree)).items < 1 then Turn(hash, t, AllFree)
    else Steps(hash, Turn(hash, t, AllFree), n - 1)
  }

  // ---- how long the loop goes on ----

  /** `retry` after a turn: a lock that cannot be had raises it, except that of the target bucket; a
      node moved puts it back to 0. */
  ghost function Retried<K, V>(t: Table<K, V>, luck: Luck, retry: nat): nat
    requires t.pos < |Current(t).chains|
  {
    if luck == HeadBusy || luck == CountBusy then retry + 1
    else if Current(t).chains[t.pos] == [] then retry
    else if luck == NodeBusy then retry + 1
    else if luck == TargetBusy || t.onSecond then retry else 0
  }

  /** `i` and `retry` after these turns of a loop of `n` steps. A turn that gets the first two locks is
      a step, and the one that drains the base is the last. */
  ghost function Counted<K, V>(hash: K -> nat, t: Table<K, V>, n: nat, lucks: seq<Luck>): (nat, nat) {
    if lucks == [] then (0, 0)
    else
      var m := |lucks| - 1;
      var r, luck, (i, retry) := Turns(hash, t, lucks[..m]), lucks[m], Counted(hash, t, n, lucks[..m]);
      if r.pos >= |Current(r).chains| || r.base2.chains == [] then (i, retry)
      else
        var ran := luck != HeadBusy && luck != CountBusy;
        (if !ran then i else if Current(Halfway(hash, r, luck)).items < 1 then n + 1 else i + 1, Retried(r, luck, retry))
  }

  /** The loop of `n` steps over the base current in `t` goes on after these turns. */
  ghost predicate Going<K, V>(hash: K -> nat, t: Table<K, V>, n: nat, lucks: seq<Luck>) {
    var (i, retry) := Counted(hash, t, n, lucks);
    Turns(hash, t, lucks).pos < |Current(t).chains| && i < n && retry < REHASH_RETRY
  }

  /** These are all the turns of the loop: it went on before each of them, and no longer. */
  ghost predicate AllTurns<K, V>(hash: K -> nat, t: Table<K, V>, n: nat, lucks: seq<Luck>) {
    (forall m :: 0 <= m < |lucks| ==> Going(hash, t, n, lucks[..m])) && !Going(hash, t, n, lucks)
  }

  /** Where the loop stands after the turns `lucks`, with the table at `r`; `quiet`: every lock was free. */
  ghost predicate InLoop<K, V>(hash: K -> nat, t: Table<K, V>, n: nat, lucks: seq<Luck>, r: Table<K, V>,
      i: nat, retry: nat, quiet: bool)
  {
    && r == Turns(hash, t, lucks) && Counted(hash, t, n, lucks) == (i, retry)
    && (forall m :: 0 <= m < |lucks| ==> Going(hash, t, n, lucks[..m]))
    && (quiet ==>
          && AllQuiet(lucks) && retry == 0
          && (!r.onSecond ==> |lucks| == i <= n)
          && Steps(hash, t, n) == if i < n then Steps(hash, r, n - i) else r)
  }

  lemma EntersLoop<K, V>(hash: K -> nat, t: Table<K, V>, n: nat, quiet: bool)
    ensures InLoop(hash, t, n, [], t, 0, 0, quiet)
  {
  }

  lemma TurnCounts<K, V>(hash: K -> nat, t: Table<K, V>, n: nat, lucks: seq<Luck>, luck: Luck)
    requires var r := Turns(hash, t, lucks); r.pos < |Current(r).chains| && r.base2.chains != []
    ensures var r, more, (i, retry) := Turns(hash, t, lucks), lucks + [luck], Counted(hash, t, n, lucks);
      && Turns(hash, t, more) == Turn(hash, r, luck)
      && Counted(hash, t, n, more) == (
        if luck == HeadBusy || luck == CountBusy then i
        else if Current(Halfway(hash, r, luck)).items < 1 then n + 1 else i + 1, Retried(r, luck, retry))
  {
    hide Turn, Halfway, Retried;
    assert (lucks + [luck])[..|lucks|] == lucks;
  }

  lemma StillGoing<K, V>(hash: K -> nat, t: Table<K, V>, n: nat, lucks: seq<Luck>, luck: Luck)
    requires Going(hash, t, n, lucks) && forall m :: 0 <= m < |lucks| ==> Going(hash, t, n, lucks[..m])
    ensures forall m :: 0 <= m <= |lucks| ==> Going(hash, t, n, (lucks + [luck])[..m])
  {
    hide Going;
    forall m | 0 <= m <= |lucks| ensures Going(hash, t, n, (lucks + [luck])[..m]) {
      assert (lucks + [luck])[..m] == if m < |lucks| then lucks[..m] else lucks;
    }
  }

  lemma QuietTurnCounts<K, V>(hash: K -> nat, r: Table<K, V>, n: nat, i: nat)
    requires i < n && r.pos < |Current(r).chains| && r.base2.chains != []
    ensures var next, u := if Current(Halfway(hash, r, AllFree)).items < 1 then n + 1 else i + 1, Turn(hash, r, AllFree);
      && Steps(hash, r, n - i) == (if next < n then Steps(hash, u, n - next) else u)
      && (!u.onSecond ==> next == i + 1) && Retried(r, AllFree, 0) == 0
  {
    hide Halfway;
    var u := Turn(hash, r, AllFree);
    assert n - i - 1 == 0 ==> Steps(hash, u, 0) == u;
  }

  lemma OneMoreQuiet(lucks: seq<Luck>)
    requires AllQuiet(lucks)
    ensures AllQuiet(lucks + [AllFree])
  {
  }

  lemma StaysInLoop<K, V>(hash: K -> nat, t: Table<K, V>, n: nat, lucks: seq<Luck>, r: Table<K, V>,
      i: nat, retry: nat, quiet: bool, luck: Luck)
    requires InLoop(hash, t, n, lucks, r, i, retry, quiet) && i < n && retry < REHASH_RETRY
    requires r.pos < |Current(t).chains|
    requires r.pos < |Current(r).chains| && r.base2.chains != [] && (quiet ==> luck == AllFree)
    ensures InLoop(hash, t, n, lucks + [luck], Turn(hash, r, luck),
              if luck == HeadBusy || luck == CountBusy then i
              else if Current(Halfway(hash, r, luck)).items < 1 then n + 1 else i + 1,
              Retried(r, luck, retry), quiet)
  {
    assert Going(hash, t, n, lucks);
    hide Going, Turns, Counted, Halfway, Turn, Steps, Retried, AllQuiet;
    TurnCounts(hash, t, n, lucks, luck);
    StillGoing(hash, t, n, lucks, luck);
    if quiet {
      QuietTurnCounts(hash, r, n, i);
      OneMoreQuiet(lucks);
    }
  }

  lemma LeavesLoop<K, V>(hash: K -> nat, t: Table<K, V>, n: nat, lucks: seq<Luck>, r: Table<K, V>,
      i: nat, retry: nat, quiet: bool)
    requires InLoop(hash, t, n, lucks, r, i, retry, quiet)
    requires r.pos >= |Current(t).chains| || i >= n || retry >= REHASH_RETRY
    requires r.base2.chains != [] && (i < n ==> |Current(r).chains| == |Current(t).chains|)
    ensures r == Turns(hash, t, lucks) && AllTurns(hash, t, n, lucks)
    ensures quiet ==> AllQuiet(lucks) && r == Steps(hash, t, n)
    ensures quiet && !r.onSecond ==> r.pos >= |Current(t).chains| || |lucks| == n
  {
  }

  // ---- the invariant ----

  ghost predicate BaseOk<K, V>(hash: K -> nat, b: Base<K, V>) {
    Holds(hash, b.chains, b.model)
  }

  /** The table as a map. */
  ghost function Contents<K, V>(t: Table<K, V>): map<K, V> {
    t.base1.model + t.base2.model
  }

  /** The buckets the migration has passed are empty. */
  ghost predicate DrainedTo<K, V>(t: Table<K, V>) {
    t.pos < |t.base1.chains| && forall b :: 0 <= b < t.pos ==> t.base1.chains[b] == []
  }

  ghost predicate Inv<K, V>(hash: K -> nat, t: Table<K, V>) {
    && BaseOk(hash, t.base1) && BaseOk(hash, t.base2) && t.base1.chains != []
    && t.base1.model.Keys !! t.base2.model.Keys
    && (t.onSecond ==> t.rehashing && t.base1.model == map[])
    && (!t.onSecond ==> DrainedTo(t) && t.base1.items == |t.base1.model| < WORD)
    && (t.rehashing ==> |t.base2.chains| == NEW_ENTRIES)
    && (!t.rehashing ==> t.base2.model == map[] && t.pos == 0)
    && (|t.base1.chains| <= NEW_ENTRIES ==> t.pos < NEW_ENTRIES && !t.failed)
  }

  lemma MoveKeepsInv<K, V>(hash: K -> nat, t: Table<K, V>)
    requires Inv(hash, t) && t.rehashing && !t.onSecond && t.base1.chains[t.pos] != []
    ensures Inv(hash, Move(hash, t)) && Contents(Move(hash, t)) == Contents(t)
    ensures |Move(hash, t).base1.model| == |t.base1.model| - 1
  {
    var node := t.base1.chains[t.pos][0];
    var m, n := t.base1.model, t.base2.model;
    Dropped(hash, t.base1.chains, m, t.pos, 0);
    assert m[node.key] == node.value;
    Added(hash, t.base2.chains, n, node.key, node.value);
    MapMinus(m, node.key);
    MovedBetween(m, n, node.key);
  }

  /** The position wraps round only when nothing is left in base1. */
  lemma PassedAll<K, V>(hash: K -> nat, t: Table<K, V>)
    requires BaseOk(hash, t.base1) && DrainedTo(t) && t.base1.chains[t.pos] == []
    ensures t.pos + 1 == |t.base1.chains| ==> t.base1.model == map[]
  {
    if t.pos + 1 == |t.base1.chains| {
      assert forall b :: 0 <= b < |t.base1.chains| ==> t.base1.chains[b] == [];
      NoPairs(hash, t.base1.chains, t.base1.model);
    }
  }

  lemma PassFirst<K, V>(hash: K -> nat, t: Table<K, V>)
    requires Inv(hash, t) && t.rehashing && !t.onSecond && t.base1.chains[t.pos] == []
    ensures Inv(hash, Pass(t)) && (t.base1.model != map[] ==> Pass(t).pos == t.pos + 1)
  {
    PassedAll(hash, t);
    assert DrainedTo(Pass(t));
  }

  lemma PassSecond<K, V>(hash: K -> nat, t: Table<K, V>)
    requires Inv(hash, t) && t.rehashing && t.onSecond && t.pos < |t.base2.chains|
    ensures Inv(hash, Pass(t))
  {
  }

  lemma SwitchKeepsInv<K, V>(hash: K -> nat, t: Table<K, V>)
    requires Inv(hash, t) && t.rehashing && Current(t).items < 1
    ensures Inv(hash, t.(onSecond := true))
  {
  }

  /** The switch happens at count 0, and the count is exact, so no key is left behind. */
  lemma TurnKeepsInv<K, V>(hash: K -> nat, t: Table<K, V>, luck: Luck)
    requires Inv(hash, t) && t.rehashing && t.pos < |Current(t).chains|
    ensures Inv(hash, Turn(hash, t, luck)) && Contents(Turn(hash, t, luck)) == Contents(t)
    ensures Turn(hash, t, luck).rehashing
  {
    if luck != HeadBusy && luck != CountBusy {
      if Current(t).chains[t.pos] == [] {
        if t.onSecond { PassSecond(hash, t); } else { PassFirst(hash, t); }
        FinishTurn(hash, Pass(t));
      } else if luck == AllFree && !t.onSecond {
        MoveKeepsInv(hash, t);
        FinishTurn(hash, Move(hash, t));
      } else {
        FinishTurn(hash, t);
      }
    }
  }

  lemma FinishTurn<K, V>(hash: K -> nat, t: Table<K, V>)
    requires Inv(hash, t) && t.rehashing
    ensures Inv(hash, CheckSwitch(t)) && Contents(CheckSwitch(t)) == Contents(t) && CheckSwitch(t).rehashing
  {
    if Current(t).items < 1 { SwitchKeepsInv(hash, t); }
  }

  /** No number of turns, with any luck, changes what the table holds. */
  lemma {:induction false} TurnsKeepInv<K, V>(hash: K -> nat, t: Table<K, V>, lucks: seq<Luck>)
    requires Inv(hash, t) && t.rehashing
    ensures Inv(hash, Turns(hash, t, lucks)) && Contents(Turns(hash, t, lucks)) == Contents(t)
    ensures Turns(hash, t, lucks).rehashing
  {
    if lucks != [] {
      TurnsKeepInv(hash, t, lucks[..|lucks| - 1]);
      var r := Turns(hash, t, lucks[..|lucks| - 1]);
      if r.pos < |Current(r).chains| {
        TurnKeepsInv(hash, r, lucks[|lucks| - 1]);
      }
    }
  }

  // ---- how long a migration takes, and where it ends ----

  /** Keys to move plus buckets to pass. */
  ghost function Left<K, V>(t: Table<K, V>): int {
    |t.base1.model| + |t.base1.chains| - t.pos
  }

  ghost predicate AllQuiet(lucks: seq<Luck>) {
    forall i :: 0 <= i < |lucks| ==> lucks[i] == AllFree
  }

  lemma OnceSecond<K, V>(hash: K -> nat, t: Table<K, V>, luck: Luck)
    requires t.onSecond && t.pos < |t.base2.chains|
    ensures Turn(hash, t, luck).onSecond
  {
  }

  lemma QuietTurn<K, V>(hash: K -> nat, t: Table<K, V>)
    requires Inv(hash, t) && t.rehashing && !t.onSecond
    ensures var r := Turn(hash, t, AllFree); r.onSecond || Left(r) == Left(t) - 1
  {
    hide BaseOk, Contents;
    if t.base1.chains[t.pos] == [] {
      PassFirst(hash, t);
    } else {
      MoveKeepsInv(hash, t);
    }
  }

  /** Undisturbed, a migration is over after at most items_count + size turns. */
  lemma {:induction false} QuietMigrationEnds<K, V>(hash: K -> nat, t: Table<K, V>, lucks: seq<Luck>)
    requires Inv(hash, t) && t.rehashing && AllQuiet(lucks) && !t.onSecond
    ensures var r := Turns(hash, t, lucks); r.onSecond || Left(r) == Left(t) - |lucks|
    ensures |lucks| >= t.base1.items + |t.base1.chains| ==> Turns(hash, t, lucks).onSecond
  {
    hide BaseOk, Contents, Turn;
    if lucks != [] {
      var before := lucks[..|lucks| - 1];
      QuietMigrationEnds(hash, t, before);
      TurnsKeepInv(hash, t, before);
      TurnsKeepInv(hash, t, lucks);
      var r := Turns(hash, t, before);
      if !r.onSecond { QuietTurn(hash, r); } else if r.pos < |r.base2.chains| { OnceSecond(hash, r, AllFree); }
    }
  }

  /** The assertion at the head of rehashNSteps: the position lies inside the current base. */
  ghost predicate PositionInside<K, V>(t: Table<K, V>) {
    t.pos < |Current(t).chains|
  }

  /** rehashNSteps is entered: the assertion is evaluated. Outside, the loop does not run. */
  ghost function Entered<K, V>(t: Table<K, V>): Table<K, V> {
    t.(failed := t.failed || !PositionInside(t))
  }

  lemma EnteredKeepsInv<K, V>(hash: K -> nat, t: Table<K, V>)
    requires Inv(hash, t) && t.rehashing
    ensures Inv(hash, Entered(t)) && Contents(Entered(t)) == Contents(t)
  {
  }

  /** Tables created with at most 2048 entries: the assertion holds whenever rehashNSteps is entered. */
  lemma SmallTablesStayInside<K, V>(hash: K -> nat, t: Table<K, V>)
    requires Inv(hash, t) && t.rehashing && |t.base1.chains| <= NEW_ENTRIES
    ensures PositionInside(t) && !t.failed
  {
  }

  // ---- where the position is left ----

  /** The highest bucket that is not empty. */
  ghost predicate Highest<K, V>(es: Chains<K, V>, b: nat) {
    b < |es| && es[b] != [] && forall i :: b < i < |es| ==> es[i] == []
  }

  /** Where a migration leaves the position: at the highest bucket in use, or, if base1 has lost all
      its keys to removals, one further on. */
  ghost predicate EndsAt<K, V>(t: Table<K, V>, b: nat) {
    if t.base1.model != map[] then Highest(t.base1.chains, b)
    else b == if t.pos + 1 >= |t.base1.chains| then 0 else t.pos + 1
  }

  lemma {:induction false} HighestExists<K, V>(es: Chains<K, V>, n: nat) returns (b: nat)
    requires n <= |es| && (exists i :: 0 <= i < n && es[i] != []) && forall i :: n <= i < |es| ==> es[i] == []
    ensures Highest(es, b)
  {
    if es[n - 1] != [] { b := n - 1; } else { b := HighestExists(es, n - 1); }
  }

  lemma EndExists<K, V>(hash: K -> nat, t: Table<K, V>) returns (b: nat)
    requires Inv(hash, t) && !t.onSecond
    ensures EndsAt(t, b)
  {
    NoPairs(hash, t.base1.chains, t.base1.model);
    if t.base1.model != map[] {
      b := HighestExists(t.base1.chains, |t.base1.chains|);
    } else {
      b := if t.pos + 1 >= |t.base1.chains| then 0 else t.pos + 1;
    }
  }

  /** The highest bucket in use is at or above the position, and alone when it is there. */
  lemma HighestAhead<K, V>(hash: K -> nat, t: Table<K, V>, b: nat)
    requires Inv(hash, t) && !t.onSecond && Highest(t.base1.chains, b)
    ensures t.pos <= b && t.base1.model != map[]
  {
    NoPairs(hash, t.base1.chains, t.base1.model);
  }

  /** The first chain in use loses a pair. */
  lemma DropKeepsHighest<K, V>(es: Chains<K, V>, p: nat, c: seq<Pair<K, V>>, b: nat)
    requires Highest(es, b) && p <= b && forall i :: 0 <= i < p ==> es[i] == []
    ensures var fs := es[p := c]; Highest(fs, b) || (p == b && forall i :: 0 <= i < |fs| ==> fs[i] == [])
  {
    if p == b && c == [] {
      assert forall i :: 0 <= i < |es| && i != p ==> es[i] == [];
    }
  }

  lemma MoveKeepsHighest<K, V>(hash: K -> nat, t: Table<K, V>, b: nat)
    requires Inv(hash, t) && t.rehashing && !t.onSecond && t.base1.chains[t.pos] != [] && Highest(t.base1.chains, b)
    ensures var r := Move(hash, t);
      if r.base1.model == map[] then t.pos == b else Highest(r.base1.chains, b)
  {
    MoveKeepsInv(hash, t);
    HighestAhead(hash, t, b);
    var r := Move(hash, t);
    NoPairs(hash, r.base1.chains, r.base1.model);
    hide Holds, Contents;
    DropKeepsHighest(t.base1.chains, t.pos, Without(t.base1.chains[t.pos], 0), b);
  }

  /** A turn, with any luck, does not change where the migration ends, and the switch finds the position there. */
  lemma TurnKeepsEnd<K, V>(hash: K -> nat, t: Table<K, V>, luck: Luck, b: nat)
    requires Inv(hash, t) && t.rehashing && !t.onSecond && EndsAt(t, b)
    ensures var r := Turn(hash, t, luck);
      && |r.base1.chains| == |t.base1.chains| && r.failed == t.failed
      && if r.onSecond then r.pos == b else EndsAt(r, b)
  {
    NoPairs(hash, t.base1.chains, t.base1.model);
    hide Holds, Contents, EndsAt;
    if luck == HeadBusy || luck == CountBusy {
    } else if t.base1.chains[t.pos] == [] {
      PassKeepsEnd(hash, t, b);
    } else if luck == AllFree {
      MovedKeepsEnd(hash, t, b);
    }
  }

  lemma PassKeepsEnd<K, V>(hash: K -> nat, t: Table<K, V>, b: nat)
    requires Inv(hash, t) && t.rehashing && !t.onSecond && t.base1.chains[t.pos] == [] && EndsAt(t, b)
    ensures var r := Pass(t); if r.base1.items < 1 then r.pos == b else EndsAt(r, b)
  {
    hide BaseOk, Contents;
    PassFirst(hash, t);
  }

  lemma MovedKeepsEnd<K, V>(hash: K -> nat, t: Table<K, V>, b: nat)
    requires Inv(hash, t) && t.rehashing && !t.onSecond && t.base1.chains[t.pos] != [] && EndsAt(t, b)
    ensures var r := Move(hash, t); if r.base1.items < 1 then r.pos == b else EndsAt(r, b)
  {
    NoPairs(hash, t.base1.chains, t.base1.model);
    hide BaseOk, Holds, Contents;
    MoveKeepsInv(hash, t);
    MoveKeepsHighest(hash, t, b);
  }

  /** Some key sits where a migration would leave the position outside the second base. */
  ghost predicate Overshoots<K, V>(hash: K -> nat, t: Table<K, V>)
    requires t.base1.chains != []
  {
    if t.base1.model != map[] then exists k :: k in t.base1.model && Bucket(hash, t.base1.chains, k) >= NEW_ENTRIES
    else NEW_ENTRIES <= t.pos + 1 < |t.base1.chains|
  }

  lemma EndOvershoots<K, V>(hash: K -> nat, t: Table<K, V>, b: nat)
    requires Inv(hash, t) && !t.onSecond && EndsAt(t, b)
    ensures b >= NEW_ENTRIES <==> Overshoots(hash, t)
  {
    if t.base1.model != map[] {
      var k := t.base1.chains[b][0].key;
      assert k in t.base1.model && Bucket(hash, t.base1.chains, k) == b;
      forall q | q in t.base1.model ensures Bucket(hash, t.base1.chains, q) <= b {
        assert InChain(t.base1.chains[Bucket(hash, t.base1.chains, q)], q);
      }
    }
  }

  /** The turns switch the bases, and not before the last of them. */
  ghost predicate JustSwitched<K, V>(hash: K -> nat, t: Table<K, V>, lucks: seq<Luck>) {
    lucks != [] && Turns(hash, t, lucks).onSecond && !Turns(hash, t, lucks[..|lucks| - 1]).onSecond
  }

  lemma {:induction false} TurnsKeepEnd<K, V>(hash: K -> nat, t: Table<K, V>, lucks: seq<Luck>, b: nat)
    requires Inv(hash, t) && t.rehashing && !t.onSecond && EndsAt(t, b)
    ensures var r := Turns(hash, t, lucks);
      && (!r.onSecond ==> EndsAt(r, b) && |r.base1.chains| == |t.base1.chains| && r.failed == t.failed)
      && (JustSwitched(hash, t, lucks) ==> r.pos == b && r.failed == t.failed)
  {
    hide EndsAt, BaseOk, Contents, Turn;
    if lucks != [] {
      var before, last := lucks[..|lucks| - 1], lucks[|lucks| - 1];
      TurnsKeepEnd(hash, t, before, b);
      TurnsKeepInv(hash, t, before);
      var r := Turns(hash, t, before);
      if r.onSecond {
        if r.pos < |r.base2.chains| { OnceSecond(hash, r, last); }
      } else {
        TurnKeepsEnd(hash, r, last, b);
      }
    }
  }

  /** Whatever the locks do: when the bases are switched, the assertion fails at the next entry to
      rehashNSteps exactly if the highest key of the table that set out lay in bucket 2048 or beyond. */
  lemma NextEntryFailsExactly<K, V>(hash: K -> nat, t: Table<K, V>, lucks: seq<Luck>)
    requires Inv(hash, t) && t.rehashing && !t.onSecond && JustSwitched(hash, t, lucks)
    ensures var r := Turns(hash, t, lucks);
      && (PositionInside(r) <==> !Overshoots(hash, t))
      && (Entered(r).failed <==> t.failed || Overshoots(hash, t))
  {
    var b := EndExists(hash, t);
    TurnsKeepEnd(hash, t, lucks, b);
    TurnsKeepInv(hash, t, lucks);
    EndOvershoots(hash, t, b);
  }

  /** Undisturbed steps either come nearer to the end by one each, or have switched the bases there. */
  lemma {:induction false} StepsAdvance<K, V>(hash: K -> nat, t: Table<K, V>, n: nat, b: nat)
    requires Inv(hash, t) && t.rehashing && !t.onSecond && EndsAt(t, b)
    ensures var r := Steps(hash, t, n);
      && Inv(hash, r) && r.rehashing && Contents(r) == Contents(t) && r.failed == t.failed
      && if r.onSecond then r.pos == b else EndsAt(r, b) && Left(r) == Left(t) - n
    decreases n
  {
    hide BaseOk, Contents, EndsAt;
    if n > 0 {
      TurnKeepsInv(hash, t, AllFree);
      TurnKeepsEnd(hash, t, AllFree, b);
      QuietTurn(hash, t);
      var r := Turn(hash, t, AllFree);
      if !r.onSecond { StepsAdvance(hash, r, n - 1, b); }
    }
  }

  // ---- the public operations ----

  /** The second bucket array, when a rehash begins. */
  ghost function Begin<K, V>(t: Table<K, V>): Table<K, V> {
    t.(base2 := t.base2.(chains := seq(NEW_ENTRIES, _ => [])), rehashing := true, pos := 0)
  }

  lemma BeginKeepsInv<K, V>(hash: K -> nat, t: Table<K, V>)
    requires Inv(hash, t) && !t.rehashing
    ensures Inv(hash, Begin(t)) && Contents(Begin(t)) == Contents(t)
  {
    EmptyChains(hash, Begin(t).base2.chains);
  }

  /** Insertion of a key that was not found, without the start of a rehash. */
  ghost function Put<K, V>(hash: K -> nat, t: Table<K, V>, k: K, v: V): Table<K, V>
    requires t.base1.chains != [] && (t.rehashing ==> t.base2.chains != [])
  {
    if t.rehashing then t.(base2 := AddHead(hash, t.base2, k, v).(items := Inc(t.base2.items)))
    else t.(base1 := AddHead(hash, t.base1, k, v).(items := Inc(t.base1.items)))
  }

  /** A table with base1 exchanged. */
  lemma NewBase1<K, V>(hash: K -> nat, t: Table<K, V>, c: Base<K, V>)
    requires Inv(hash, t) && BaseOk(hash, c) && |c.chains| == |t.base1.chains| && c.model.Keys !! t.base2.model.Keys
    requires t.onSecond ==> c.model == map[]
    requires !t.onSecond ==> c.items == |c.model| < WORD && forall b :: 0 <= b < t.pos ==> c.chains[b] == []
    ensures Inv(hash, t.(base1 := c))
  {
  }

  /** A table with base2 exchanged. */
  lemma NewBase2<K, V>(hash: K -> nat, t: Table<K, V>, c: Base<K, V>)
    requires Inv(hash, t) && t.rehashing && BaseOk(hash, c) && |c.chains| == |t.base2.chains|
    requires t.base1.model.Keys !! c.model.Keys
    ensures Inv(hash, t.(base2 := c))
  {
  }

  lemma PutKeepsInv<K, V>(hash: K -> nat, t: Table<K, V>, k: K, v: V)
    requires Inv(hash, t) && k !in Contents(t) && |Contents(t)| + 1 < WORD
    ensures Inv(hash, Put(hash, t, k, v)) && Contents(Put(hash, t, k, v)) == Contents(t)[k := v]
  {
    hide Holds;
    var m, n := t.base1.model, t.base2.model;
    UnionPlus(m, n, k, v);
    UnionSize(m, n, k, v);
    if t.rehashing {
      Added(hash, t.base2.chains, n, k, v);
      NewBase2(hash, t, Put(hash, t, k, v).base2);
    } else {
      Added(hash, t.base1.chains, m, k, v);
      NewBase1(hash, t, Put(hash, t, k, v).base1);
    }
  }

  /** Removal of the pair at position `j` of chain `i` of the base that has it. */
  ghost function Take<K, V>(t: Table<K, V>, second: bool, i: nat, j: nat): Table<K, V>
    requires var b := if second then t.base2 else t.base1; i < |b.chains| && j < |b.chains[i]|
  {
    var b := if second then t.base2 else t.base1;
    var crowded := |b.chains[i]| > COLLISION_COUNT_THRESHOLD;
    var c := DropAt(b, i, j).(items := Dec(b.items), collisions := if crowded then Dec(b.collisions) else b.collisions);
    if second then t.(base2 := c) else t.(base1 := c)
  }

  lemma TakeKeepsInv<K, V>(hash: K -> nat, t: Table<K, V>, second: bool, i: nat, j: nat)
    requires Inv(hash, t)
    requires var b := if second then t.base2 else t.base1; i < |b.chains| && j < |b.chains[i]|
    ensures var k := (if second then t.base2 else t.base1).chains[i][j].key;
      && k in Contents(t)
      && Inv(hash, Take(t, second, i, j)) && Contents(Take(t, second, i, j)) == Contents(t) - {k}
  {
    hide Holds;
    var b := if second then t.base2 else t.base1;
    var k := b.chains[i][j].key;
    Dropped(hash, b.chains, b.model, i, j);
    MapMinus(b.model, k);
    UnionMinus(t.base1.model, t.base2.model, k);
    if second {
      NewBase2(hash, t, Take(t, second, i, j).base2);
    } else {
      NewBase1(hash, t, Take(t, second, i, j).base1);
    }
  }

  ghost function Change<K, V>(t: Table<K, V>, second: bool, i: nat, j: nat, v: V): Table<K, V>
    requires var b := if second then t.base2 else t.base1; i < |b.chains| && j < |b.chains[i]|
  {
    if second then t.(base2 := ReplaceAt(t.base2, i, j, v)) else t.(base1 := ReplaceAt(t.base1, i, j, v))
  }

  lemma ChangeKeepsInv<K, V>(hash: K -> nat, t: Table<K, V>, second: bool, i: nat, j: nat, v: V)
    requires Inv(hash, t)
    requires var b := if second then t.base2 else t.base1; i < |b.chains| && j < |b.chains[i]|
    ensures var k := (if second then t.base2 else t.base1).chains[i][j].key;
      && k in Contents(t)
      && Inv(hash, Change(t, second, i, j, v)) && Contents(Change(t, second, i, j, v)) == Contents(t)[k := v]
  {
    var b := if second then t.base2 else t.base1;
    var k := b.chains[i][j].key;
    Replaced(hash, b.chains, b.model, i, j, v);
    assert k in b.model;
    UnionSet(t.base1.model, t.base2.model, k, v);
    if second {
      NewBase2(hash, t, Change(t, second, i, j, v).base2);
    } else {
      assert |b.model[k := v].Keys| == |b.model.Keys|;
      NewBase1(hash, t, Change(t, second, i, j, v).base1);
    }
  }

  // ---- the failing assertion, from creation on ----

  /** createHashTable. */
  ghost function Created<K, V>(size: nat): Table<K, V> {
    Table(Base(seq(size, _ => []), 0, 0, map[]), Base([], 0, 0, map[]), false, false, 0, false)
  }

  lemma CreatedInv<K, V>(hash: K -> nat, size: nat)
    requires size > 0
    ensures Inv(hash, Created<K, V>(size)) && Contents(Created<K, V>(size)) == map[]
  {
    EmptyChains(hash, Created<K, V>(size).base1.chains);
    EmptyChains(hash, Created<K, V>(size).base2.chains);
  }

  // ---- the calls ----

  datatype Status = Done | DuplicateKey | NoSuchKey | OutOfMemory

  /** What comes of doRehash at the start of a search: rehash_lock is not to be had, or other threads
      hold locks now and then, or the steps run undisturbed. */
  datatype Visit = Away | Disturbed(lucks: seq<Luck>) | Undisturbed

  ghost function Visited<K, V>(hash: K -> nat, t: Table<K, V>, v: Visit): Table<K, V> {
    if !t.rehashing || v.Away? then t
    else if v.Undisturbed? then Steps(hash, Entered(t), REHASH_STEPS)
    else Turns(hash, Entered(t), v.lucks)
  }

  lemma {:induction false} StepsKeepInv<K, V>(hash: K -> nat, t: Table<K, V>, n: nat)
    requires Inv(hash, t) && t.rehashing
    ensures var r := Steps(hash, t, n);
      Inv(hash, r) && r.rehashing && Contents(r) == Contents(t) && r.failed == t.failed
    decreases n
  {
    hide BaseOk, Contents, Turn, Halfway;
    if n > 0 && t.pos < |Current(t).chains| {
      TurnKeepsInv(hash, t, AllFree);
      TurnFailsNothing(hash, t, AllFree);
      StepsKeepInv(hash, Turn(hash, t, AllFree), n - 1);
    }
  }

  lemma TurnFailsNothing<K, V>(hash: K -> nat, t: Table<K, V>, luck: Luck)
    requires t.pos < |Current(t).chains| && t.base2.chains != []
    ensures Turn(hash, t, luck).failed == t.failed
  {
  }

  lemma VisitedKeepsInv<K, V>(hash: K -> nat, t: Table<K, V>, v: Visit)
    requires Inv(hash, t)
    ensures var r := Visited(hash, t, v);
      Inv(hash, r) && r.rehashing == t.rehashing && Contents(r) == Contents(t)
  {
    hide BaseOk, Contents;
    if t.rehashing && !v.Away? {
      EnteredKeepsInv(hash, t);
      if v.Undisturbed? { StepsKeepInv(hash, Entered(t), REHASH_STEPS); } else { TurnsKeepInv(hash, Entered(t), v.lucks); }
    }
  }

  /** Where a search through the current base and then, during a rehash, the other one finds a key. */
  datatype Place = Nowhere | At(second: bool, bucket: nat, index: nat)

  ghost function PlaceIn<K, V>(hash: K -> nat, es: Chains<K, V>, second: bool, k: K): (p: Place)
    ensures p.At? ==> p.second == second && p.bucket < |es| && p.index < |es[p.bucket]| && es[p.bucket][p.index].key == k
  {
    if es == [] then Nowhere
    else
      var b := Bucket(hash, es, k);
      if Position(es[b], k) < |es[b]| then At(second, b, Position(es[b], k)) else Nowhere
  }

  ghost function Where<K, V>(hash: K -> nat, t: Table<K, V>, k: K): (p: Place)
    ensures p.At? ==> var es := (if p.second then t.base2 else t.base1).chains;
      p.bucket < |es| && p.index < |es[p.bucket]| && es[p.bucket][p.index].key == k
  {
    var first := PlaceIn(hash, Current(t).chains, t.onSecond, k);
    if first.At? || !t.rehashing then first else PlaceIn(hash, t.base2.chains, true, k)
  }

  lemma PlaceIsExact<K, V>(hash: K -> nat, b: Base<K, V>, second: bool, k: K)
    requires BaseOk(hash, b)
    ensures PlaceIn(hash, b.chains, second, k).At? <==> k in b.model
  {
    if b.chains != [] {
      LookupIsExact(hash, b.chains, b.model, k);
    }
  }

  lemma WhereIsExact<K, V>(hash: K -> nat, t: Table<K, V>, k: K)
    requires Inv(hash, t)
    ensures Where(hash, t, k).At? <==> k in Contents(t)
  {
    hide Holds, PlaceIn;
    PlaceIsExact(hash, t.base1, false, k);
    PlaceIsExact(hash, t.base2, true, k);
  }

  /** A call, with what the rest of the world makes of it: whether memory for a node and for a bucket array
      can be had, whether rehash_lock is free when a rehash is due, and the visits. */
  datatype Call<K, V> =
    | Find(key: K, visit: Visit)
    | Update(key: K, value: V, visit: Visit)
    | Remove(key: K, visit: Visit)
    | Insert(key: K, value: V, nodes: bool, arrays: bool, lock: bool, first: Visit, second: Visit, third: Visit)

  /** Line 141, on the base a key was just inserted into; the division is multiplied out. */
  ghost predicate Crowded<K, V>(b: Base<K, V>) {
    5 * b.collisions > b.items
  }

  /** Lines 141-202: a rehash begins when the base is crowded, none is under way and rehash_lock is got. */
  ghost predicate Due<K, V>(t: Table<K, V>, lock: bool) {
    lock && !t.rehashing && Crowded(t.base1)
  }

  /** The end of an insertion. Without memory for the new array it reports that, though the key is in. */
  ghost function Finish<K, V>(t: Table<K, V>, arrays: bool, lock: bool): (Table<K, V>, Status) {
    if !Due(t, lock) then (t, Done)
    else if arrays then (Begin(t), Done) else (t, OutOfMemory)
  }

  ghost predicate Formed<K, V>(t: Table<K, V>) {
    t.base1.chains != [] && (t.rehashing ==> t.base2.chains != [])
  }

  ghost function Do<K, V>(hash: K -> nat, t: Table<K, V>, c: Call<K, V>): (Table<K, V>, Status) {
    match c
    case Find(k, v) =>
      var u := Visited(hash, t, v);
      (u, if Where(hash, u, k).At? then Done else NoSuchKey)
    case Update(k, x, v) =>
      var u := Visited(hash, t, v);
      var p := Where(hash, u, k);
      if p.At? then (Change(u, p.second, p.bucket, p.index, x), Done) else (u, NoSuchKey)
    case Remove(k, v) =>
      var u := Visited(hash, t, v);
      var p := Where(hash, u, k);
      if p.At? then (Take(u, p.second, p.bucket, p.index), Done) else (u, NoSuchKey)
    case Insert(k, x, nodes, arrays, lock, v1, v2, v3) =>
      var u := Visited(hash, Visited(hash, t, v1), v2);
      if Where(hash, u, k).At? then (u, DuplicateKey)
      else if !nodes then (u, OutOfMemory)
      else
        var w := Visited(hash, u, v3);
        if Where(hash, w, k).At? || !Formed(w) then (w, DuplicateKey)
        else Finish(Put(hash, w, k, x), arrays, lock)
  }

  /** The numbers of base_hash.c, written out: the second array has 2048 buckets, a removal lowers the
      count of collisions in a chain of more than 100 nodes, a rehash is due above a ratio of 0.2, an
      undisturbed visit is 100 steps, and a loop gives up after 10 failures in a row. */
  lemma Limits<K, V>(hash: K -> nat, t: Table<K, V>, lucks: seq<Luck>, n: nat)
    requires Formed(t)
    ensures Begin(t).base2.chains == seq(2048, _ => []) && Begin(t).rehashing && Begin(t).pos == 0
    ensures forall i: nat, j: nat :: i < |t.base1.chains| && j < |t.base1.chains[i]| ==>
      Take(t, false, i, j).base1.collisions ==
        if |t.base1.chains[i]| > 100 then Dec(t.base1.collisions) else t.base1.collisions
    ensures forall i: nat, j: nat :: i < |t.base2.chains| && j < |t.base2.chains[i]| ==>
      Take(t, true, i, j).base2.collisions ==
        if |t.base2.chains[i]| > 100 then Dec(t.base2.collisions) else t.base2.collisions
    ensures t.base1.items > 0 ==> (Crowded(t.base1) <==> t.base1.collisions as real / t.base1.items as real > 0.2)
    ensures t.rehashing ==> Visited(hash, t, Undisturbed) == Steps(hash, Entered(t), 100)
    ensures Going(hash, t, n, lucks) ==> Counted(hash, t, n, lucks).1 < 10
  {
    if t.base1.items > 0 { OverRatio(t.base1.collisions, t.base1.items); }
  }

  lemma OverRatio(c: nat, i: nat)
    requires i > 0
    ensures 5 * c > i <==> c as real / i as real > 0.2
  {
    OverFifth(c as real, i as real);
    assert (5 * c) as real == 5.0 * c as real;
  }

  lemma OverFifth(x: real, y: real)
    requires y > 0.0
    ensures x / y > 0.2 <==> 5.0 * x > y
  {
    var q := x / y;
    assert q * y == x;
    if q > 0.2 {
      assert (q - 0.2) * y > 0.0;
    } else {
      assert (0.2 - q) * y >= 0.0;
    }
  }

  /** The table as a map after a call. */
  ghost function Effect<K, V>(m: map<K, V>, c: Call<K, V>): map<K, V> {
    match c
    case Find(_, _) => m
    case Update(k, x, _) => if k in m then m[k := x] else m
    case Remove(k, _) => m - {k}
    case Insert(k, x, nodes, _, _, _, _, _) => if k in m || !nodes then m else m[k := x]
  }

  lemma FinishKeepsInv<K, V>(hash: K -> nat, t: Table<K, V>, arrays: bool, lock: bool)
    requires Inv(hash, t)
    ensures var r := Finish(t, arrays, lock).0; Inv(hash, r) && Contents(r) == Contents(t)
  {
    hide BaseOk, Contents;
    if Due(t, lock) { BeginKeepsInv(hash, t); }
  }

  /** No call leaves the invariant, and each is a call of a map. */
  lemma EveryCallKeepsInv<K, V>(hash: K -> nat, t: Table<K, V>, c: Call<K, V>)
    requires Inv(hash, t) && |Contents(t)| + 1 < WORD
    ensures var r := Do(hash, t, c).0; Inv(hash, r) && Contents(r) == Effect(Contents(t), c)
  {
    hide BaseOk, Contents, Visited, Where, Put, Take, Change, Finish;
    match c
    case Find(k, v) => VisitedKeepsInv(hash, t, v);
    case Update(k, x, v) =>
      VisitedKeepsInv(hash, t, v);
      var u := Visited(hash, t, v);
      WhereIsExact(hash, u, k);
      var p := Where(hash, u, k);
      if p.At? { ChangeKeepsInv(hash, u, p.second, p.bucket, p.index, x); }
    case Remove(k, v) =>
      VisitedKeepsInv(hash, t, v);
      var u := Visited(hash, t, v);
      WhereIsExact(hash, u, k);
      var p := Where(hash, u, k);
      if p.At? { TakeKeepsInv(hash, u, p.second, p.bucket, p.index); }
    case Insert(k, x, nodes, arrays, lock, v1, v2, v3) => InsertKeepsInv(hash, t, c);
  }

  lemma InsertKeepsInv<K, V>(hash: K -> nat, t: Table<K, V>, c: Call<K, V>)
    requires Inv(hash, t) && |Contents(t)| + 1 < WORD && c.Insert?
    ensures var r := Do(hash, t, c).0; Inv(hash, r) && Contents(r) == Effect(Contents(t), c)
  {
    hide BaseOk, Contents, Visited, Where, Put, Finish;
    var u1 := Visited(hash, t, c.first);
    var u := Visited(hash, u1, c.second);
    var w := Visited(hash, u, c.third);
    VisitedKeepsInv(hash, t, c.first);
    VisitedKeepsInv(hash, u1, c.second);
    VisitedKeepsInv(hash, u, c.third);
    WhereIsExact(hash, u, c.key);
    WhereIsExact(hash, w, c.key);
    if c.key !in Contents(t) && c.nodes {
      PutKeepsInv(hash, w, c.key, c.value);
      FinishKeepsInv(hash, Put(hash, w, c.key, c.value), c.arrays, c.lock);
    }
  }

  /** A rehash is due as soon as one more key is in, and its array cannot be had; the fields are those
      before the insertion. */
  ghost predicate Refused<K, V>(t: Table<K, V>, arrays: bool, lock: bool) {
    !arrays && lock && !t.rehashing && 5 * t.base1.collisions > t.base1.items + 1
  }

  /** What an insertion reports, read off the table before the call. */
  lemma InsertStatus<K, V>(hash: K -> nat, t: Table<K, V>, c: Call<K, V>)
    requires Inv(hash, t) && |Contents(t)| + 1 < WORD && c.Insert?
    ensures Do(hash, t, c).1 ==
      if c.key in Contents(t) then DuplicateKey
      else if c.nodes && !Refused(t, c.arrays, c.lock) then Done else OutOfMemory
  {
    hide BaseOk, Contents, Where;
    var u := Visited(hash, Visited(hash, t, c.first), c.second);
    VisitedKeepsInv(hash, t, c.first);
    VisitedKeepsInv(hash, Visited(hash, t, c.first), c.second);
    VisitedKeepsInv(hash, u, c.third);
    WhereIsExact(hash, u, c.key);
    WhereIsExact(hash, Visited(hash, u, c.third), c.key);
    if !t.rehashing { ItemsFit(hash, t, c.key); }
  }

  /** An insertion stores a new key and reports that memory is missing, exactly if the array for a rehash
      due then was what was missing. */
  lemma StoredButRefusedExactly<K, V>(hash: K -> nat, t: Table<K, V>, c: Call<K, V>)
    requires Inv(hash, t) && |Contents(t)| + 1 < WORD && c.Insert?
    ensures var (r, status) := Do(hash, t, c);
      c.key !in Contents(t) && c.key in Contents(r) && status == OutOfMemory <==>
        c.key !in Contents(t) && c.nodes && Refused(t, c.arrays, c.lock)
  {
    hide BaseOk, Contents, Do, Refused;
    InsertStatus(hash, t, c);
    EveryCallKeepsInv(hash, t, c);
  }

  lemma ItemsFit<K, V>(hash: K -> nat, t: Table<K, V>, k: K)
    requires Inv(hash, t) && |Contents(t)| + 1 < WORD && !t.rehashing
    ensures Inc(t.base1.items) == t.base1.items + 1
  {
    assert Contents(t) == t.base1.model;
  }

  // ---- runs from creation on ----

  ghost function Run<K, V>(hash: K -> nat, t: Table<K, V>, calls: seq<Call<K, V>>): Table<K, V>
    decreases |calls|
  {
    if calls == [] then t else Run(hash, Do(hash, t, calls[0]).0, calls[1..])
  }

  lemma {:induction false} RunConcat<K, V>(hash: K -> nat, t: Table<K, V>, a: seq<Call<K, V>>, b: seq<Call<K, V>>)
    ensures Run(hash, t, a + b) == Run(hash, Run(hash, t, a), b)
    decreases |a|
  {
    if a == [] {
      assert a + b == b;
    } else {
      assert (a + b)[1..] == a[1..] + b;
      RunConcat(hash, Do(hash, t, a[0]).0, a[1..], b);
    }
  }

  ghost function Effects<K, V>(m: map<K, V>, calls: seq<Call<K, V>>): map<K, V>
    decreases |calls|
  {
    if calls == [] then m else Effects(Effect(m, calls[0]), calls[1..])
  }

  lemma EffectSize<K, V>(m: map<K, V>, c: Call<K, V>)
    ensures |Effect(m, c)| <= |m| + 1
  {
    if c.Insert? && c.key !in m {
      assert m[c.key := c.value].Keys == m.Keys + {c.key};
    } else {
      Subset(Effect(m, c).Keys, m.Keys);
    }
  }

  /** Every run of calls, whatever the locks and the memory do meanwhile, is a run of calls of a map. */
  lemma {:induction false} EveryRunIsAMap<K, V>(hash: K -> nat, t: Table<K, V>, calls: seq<Call<K, V>>)
    requires Inv(hash, t) && |Contents(t)| + |calls| < WORD
    ensures var r := Run(hash, t, calls); Inv(hash, r) && Contents(r) == Effects(Contents(t), calls)
    decreases |calls|
  {
    hide Inv, Contents, Do, Effect;
    if calls != [] {
      EveryCallKeepsInv(hash, t, calls[0]);
      EffectSize(Contents(t), calls[0]);
      EveryRunIsAMap(hash, Do(hash, t, calls[0]).0, calls[1..]);
    }
  }

  // ---- the first base keeps its size ----

  lemma {:induction false} TurnsKeepSize<K, V>(hash: K -> nat, t: Table<K, V>, lucks: seq<Luck>)
    ensures |Turns(hash, t, lucks).base1.chains| == |t.base1.chains|
  {
    if lucks != [] { TurnsKeepSize(hash, t, lucks[..|lucks| - 1]); }
  }

  lemma {:induction false} StepsKeepSize<K, V>(hash: K -> nat, t: Table<K, V>, n: nat)
    ensures |Steps(hash, t, n).base1.chains| == |t.base1.chains|
    decreases n
  {
    if n > 0 && t.pos < |Current(t).chains| && t.base2.chains != [] {
      StepsKeepSize(hash, Turn(hash, t, AllFree), n - 1);
    }
  }

  lemma VisitedKeepsSize<K, V>(hash: K -> nat, t: Table<K, V>, v: Visit)
    ensures |Visited(hash, t, v).base1.chains| == |t.base1.chains|
  {
    if v.Undisturbed? { StepsKeepSize(hash, Entered(t), REHASH_STEPS); }
    if v.Disturbed? { TurnsKeepSize(hash, Entered(t), v.lucks); }
  }

  lemma CallKeepsSize<K, V>(hash: K -> nat, t: Table<K, V>, c: Call<K, V>)
    ensures |Do(hash, t, c).0.base1.chains| == |t.base1.chains|
  {
    hide Visited, Where;
    match c
    case Find(_, v) => VisitedKeepsSize(hash, t, v);
    case Update(_, _, v) => VisitedKeepsSize(hash, t, v);
    case Remove(_, v) => VisitedKeepsSize(hash, t, v);
    case Insert(_, _, _, _, _, v1, v2, v3) =>
      VisitedKeepsSize(hash, t, v1);
      VisitedKeepsSize(hash, Visited(hash, t, v1), v2);
      VisitedKeepsSize(hash, Visited(hash, Visited(hash, t, v1), v2), v3);
  }

  lemma {:induction false} RunKeepsSize<K, V>(hash: K -> nat, t: Table<K, V>, calls: seq<Call<K, V>>)
    ensures |Run(hash, t, calls).base1.chains| == |t.base1.chains|
    decreases |calls|
  {
    hide Do;
    if calls != [] {
      CallKeepsSize(hash, t, calls[0]);
      RunKeepsSize(hash, Do(hash, t, calls[0]).0, calls[1..]);
    }
  }

  /** In a table created with at most 2048 entries the assertion holds in every run. */
  lemma SmallTablesNeverFail<K, V>(hash: K -> nat, size: nat, calls: seq<Call<K, V>>)
    requires 0 < size <= NEW_ENTRIES && |calls| < WORD
    ensures !Run(hash, Created<K, V>(size), calls).failed
  {
    hide Do, BaseOk;
    var t := Created<K, V>(size);
    CreatedInv<K, V>(hash, size);
    EveryRunIsAMap(hash, t, calls);
    RunKeepsSize(hash, t, calls);
  }

  // ---- a rehash needs a removal ----

  /** collision_count is never raised, so only a removal from a long chain, which takes it below zero,
      makes a base look crowded. */
  lemma {:induction false} NothingRemovedNothingRehashed<K, V>(hash: K -> nat, t: Table<K, V>, calls: seq<Call<K, V>>)
    requires !t.rehashing && !t.onSecond && t.base1.collisions == 0 && forall i :: 0 <= i < |calls| ==> !calls[i].Remove?
    ensures var r := Run(hash, t, calls); !r.rehashing && r.base1.collisions == 0
    decreases |calls|
  {
    hide Where;
    if calls != [] {
      NothingRemovedNothingRehashed(hash, Do(hash, t, calls[0]).0, calls[1..]);
    }
  }

  // ---- runs that reach the two failures ----

  /** Every key in the last bucket. */
  ghost function Constant(size: nat): nat -> nat
    requires size > 0
  {
    (k: nat) => size - 1
  }

  /** An insertion for which everything goes well, but for the bucket array of a rehash, which may be refused. */
  ghost function PlainInsert(k: nat, arrays: bool): Call<nat, bool> {
    Insert(k, true, true, arrays, true, Undisturbed, Undisturbed, Undisturbed)
  }

  /** While nothing is being rehashed, an insertion of a new key is one put and the look whether the base is crowded. */
  lemma InsertAtRest(hash: nat -> nat, t: Table<nat, bool>, k: nat, arrays: bool)
    requires Inv(hash, t) && !t.rehashing && k !in t.base1.model
    ensures Do(hash, t, PlainInsert(k, arrays)) == Finish(Put(hash, t, k, true), arrays, true)
  {
    hide BaseOk, Where, Put, Finish;
    assert Contents(t) == t.base1.model;
    WhereIsExact(hash, t, k);
  }

  /** `n` keys are in, all in the last chain, and nothing is being rehashed. */
  ghost predicate Filled(t: Table<nat, bool>, size: nat, n: nat)
    requires size > 0
  {
    && Inv(Constant(size), t) && !t.rehashing && !t.failed
    && |t.base1.chains| == size && |t.base1.chains[size - 1]| == n && t.base1.items == n && t.base2.items == 0
  }

  lemma LastBucket(es: Chains<nat, bool>, k: nat)
    requires es != []
    ensures Bucket(Constant(|es|), es, k) == |es| - 1
  {
  }

  lemma AtRestContents(t: Table<nat, bool>)
    requires t.base2.model == map[]
    ensures Contents(t) == t.base1.model
  {
  }

  lemma FillOne(t: Table<nat, bool>, size: nat, n: nat, k: nat)
    requires size > 0 && n + 1 < WORD && Filled(t, size, n) && k !in t.base1.model
    ensures var r := Put(Constant(size), t, k, true);
      Filled(r, size, n + 1) && r.base1.collisions == t.base1.collisions && r.base1.model == t.base1.model[k := true]
  {
    hide BaseOk, Contents, Constant, Bucket;
    AtRestContents(t);
    PutKeepsInv(Constant(size), t, k, true);
    LastBucket(t.base1.chains, k);
  }

  ghost function Inserts(n: nat): (calls: seq<Call<nat, bool>>) {
    if n == 0 then [] else Inserts(n - 1) + [PlainInsert(n - 1, true)]
  }

  lemma {:induction false} FillMany(size: nat, n: nat)
    requires size > 0 && n < WORD
    ensures var r := Run(Constant(size), Created<nat, bool>(size), Inserts(n));
      Filled(r, size, n) && r.base1.collisions == 0 && forall k: nat :: k in r.base1.model <==> k < n
  {
    hide BaseOk, Constant, Do, Put;
    var hash, start := Constant(size), Created<nat, bool>(size);
    if n == 0 {
      CreatedInv<nat, bool>(hash, size);
    } else {
      FillMany(size, n - 1);
      var t := Run(hash, start, Inserts(n - 1));
      RunConcat(hash, start, Inserts(n - 1), [PlainInsert(n - 1, true)]);
      RunOne(hash, t, PlainInsert(n - 1, true));
      FillOne(t, size, n - 1, n - 1);
      InsertAtRest(hash, t, n - 1, true);
    }
  }

  lemma RunOne<K, V>(hash: K -> nat, t: Table<K, V>, c: Call<K, V>)
    ensures Run(hash, t, [c]) == Do(hash, t, c).0
  {
    assert [c][1..] == [];
    assert Run(hash, Do(hash, t, c).0, []) == Do(hash, t, c).0;
  }

  /** A removal from a chain longer than the threshold takes collision_count below zero. */
  lemma RemoveOne(t: Table<nat, bool>, size: nat, n: nat, k: nat)
    requires size > 0 && COLLISION_COUNT_THRESHOLD < n < WORD && Filled(t, size, n) && k in t.base1.model
    ensures var r := Do(Constant(size), t, Remove(k, Undisturbed)).0;
      && Filled(r, size, n - 1) && r.base1.collisions == Dec(t.base1.collisions)
      && r.base1.model == t.base1.model - {k}
  {
    hide BaseOk, Contents, Constant, Bucket, Take;
    var hash := Constant(size);
    AtRestContents(t);
    WhereIsExact(hash, t, k);
    LastBucket(t.base1.chains, k);
    var p := Where(hash, t, k);
    assert p.At? && !p.second && p.bucket == size - 1;
    TakeKeepsInv(hash, t, false, p.bucket, p.index);
    TakeLong(t, p.bucket, p.index);
  }

  lemma TakeLong(t: Table<nat, bool>, i: nat, j: nat)
    requires i < |t.base1.chains| && j < |t.base1.chains[i]| && |t.base1.chains[i]| > COLLISION_COUNT_THRESHOLD
    ensures var r := Take(t, false, i, j);
      && r == t.(base1 := r.base1)
      && |r.base1.chains| == |t.base1.chains| && |r.base1.chains[i]| == |t.base1.chains[i]| - 1
      && r.base1.items == Dec(t.base1.items) && r.base1.collisions == Dec(t.base1.collisions)
      && r.base1.model == t.base1.model - {t.base1.chains[i][j].key}
  {
  }

  /** 101 keys in one chain, and one of them removed. */
  ghost function Prefix(): (calls: seq<Call<nat, bool>>) {
    Inserts(COLLISION_COUNT_THRESHOLD + 1) + [Remove(0, Undisturbed)]
  }

  lemma Crowding(size: nat)
    requires size > 0
    ensures var t := Run(Constant(size), Created<nat, bool>(size), Prefix());
      && Filled(t, size, COLLISION_COUNT_THRESHOLD) && t.base1.collisions == WORD - 1
      && forall k: nat :: k in t.base1.model <==> 0 < k <= COLLISION_COUNT_THRESHOLD
  {
    hide BaseOk, Constant, Do, Inserts, Filled;
    var hash, start := Constant(size), Created<nat, bool>(size);
    var n := COLLISION_COUNT_THRESHOLD + 1;
    FillMany(size, n);
    var t := Run(hash, start, Inserts(n));
    RunConcat(hash, start, Inserts(n), [Remove(0, Undisturbed)]);
    RunOne(hash, t, Remove(0, Undisturbed));
    RemoveOne(t, size, n, 0);
  }

  /** The next insertion finds the base crowded. */
  lemma CrowdedInsert(size: nat, arrays: bool)
    requires size > 0
    ensures var hash, t := Constant(size), Run(Constant(size), Created<nat, bool>(size), Prefix());
      && t.base1.chains != [] && !t.rehashing && 0 !in Contents(t)
      && var u := Put(hash, t, 0, true);
      && 0 in Contents(u) && Filled(u, size, COLLISION_COUNT_THRESHOLD + 1)
      && Do(hash, t, PlainInsert(0, arrays)) == if arrays then (Begin(u), Done) else (u, OutOfMemory)
  {
    hide BaseOk, Constant, Do, Put, Prefix;
    Crowding(size);
    var hash, t := Constant(size), Run(Constant(size), Created<nat, bool>(size), Prefix());
    AtRestContents(t);
    InsertAtRest(hash, t, 0, arrays);
    FillOne(t, size, COLLISION_COUNT_THRESHOLD, 0);
    AtRestContents(Put(hash, t, 0, true));
  }

  /** In a table of any size a run of 103 calls stores a key and reports that memory is missing. */
  lemma StoredButRefusedIsReached(size: nat)
    requires size > 0
    ensures var hash, t := Constant(size), Run(Constant(size), Created<nat, bool>(size), Prefix());
      var (r, status) := Do(hash, t, PlainInsert(0, false));
      0 !in Contents(t) && 0 in Contents(r) && status == OutOfMemory && |Prefix()| == COLLISION_COUNT_THRESHOLD + 2
  {
    CrowdedInsert(size, false);
    InsertsCount(COLLISION_COUNT_THRESHOLD + 1);
  }

  lemma {:induction false} InsertsCount(n: nat)
    ensures |Inserts(n)| == n
  {
    if n > 0 { InsertsCount(n - 1); }
  }

  ghost function Finds(n: nat): (calls: seq<Call<nat, bool>>)
    ensures |calls| == n
  {
    if n == 0 then [] else [Find(0, Undisturbed)] + Finds(n - 1)
  }

  lemma {:induction false} FailureStays(hash: nat -> nat, t: Table<nat, bool>, n: nat)
    requires Inv(hash, t) && t.failed
    ensures Run(hash, t, Finds(n)).failed
    decreases n
  {
    hide BaseOk, Contents, Steps, Where;
    if n > 0 {
      VisitedKeepsInv(hash, t, Undisturbed);
      var r := Visited(hash, t, Undisturbed);
      if t.rehashing {
        EnteredKeepsInv(hash, t);
        StepsKeepInv(hash, Entered(t), REHASH_STEPS);
      }
      assert Finds(n)[1..] == Finds(n - 1);
      FailureStays(hash, r, n - 1);
    }
  }

  /** A migration that will leave the position outside, carried on by searches. */
  lemma {:induction false} FindsFail(hash: nat -> nat, t: Table<nat, bool>, b: nat, n: nat)
    requires Inv(hash, t) && t.rehashing && !t.onSecond && EndsAt(t, b) && b >= NEW_ENTRIES
    requires REHASH_STEPS * n >= Left(t) + 2 * REHASH_STEPS
    ensures Run(hash, t, Finds(n)).failed
    decreases n
  {
    hide BaseOk, Contents, EndsAt, Steps, Where;
    var u, rest := Entered(t), Finds(n)[1..];
    assert rest == Finds(n - 1);
    EnteredKeepsInv(hash, t);
    EnteredKeepsEnd(t, b);
    StepsAdvance(hash, u, REHASH_STEPS, b);
    var r := Visited(hash, t, Undisturbed);
    assert Run(hash, t, Finds(n)) == Run(hash, r, rest);
    if r.failed {
      FailureStays(hash, r, n - 1);
    } else if r.onSecond {
      assert Finds(n - 1)[1..] == Finds(n - 2);
      VisitedKeepsInv(hash, r, Undisturbed);
      EnteredKeepsInv(hash, r);
      StepsKeepInv(hash, Entered(r), REHASH_STEPS);
      FailureStays(hash, Visited(hash, r, Undisturbed), n - 2);
    } else {
      FindsFail(hash, r, b, n - 1);
    }
  }

  lemma EnteredKeepsEnd<K, V>(t: Table<K, V>, b: nat)
    requires EndsAt(t, b)
    ensures EndsAt(Entered(t), b) && Left(Entered(t)) == Left(t)
  {
  }

  /** The run that makes the assertion fail: after the prefix one more insertion begins a rehash, and
      searches carry it on. */
  ghost function FailingRun(n: nat): (calls: seq<Call<nat, bool>>) {
    Prefix() + ([PlainInsert(0, true)] + Finds(n))
  }

  lemma EveryLargeSizeCanFail(size: nat) returns (n: nat)
    requires size > NEW_ENTRIES
    ensures Run(Constant(size), Created<nat, bool>(size), FailingRun(n)).failed
    ensures n <= size / REHASH_STEPS + 4
  {
    hide BaseOk, Constant, Do, Put, Prefix, Contents, EndsAt;
    var hash, start := Constant(size), Created<nat, bool>(size);
    CrowdedInsert(size, true);
    var t := Run(hash, start, Prefix());
    var u := Put(hash, t, 0, true);
    var w := Begin(u);
    BeginKeepsInv(hash, u);
    BeginEndsAt(u, size);
    n := size / REHASH_STEPS + 4;
    FindsFail(hash, w, size - 1, n);
    RunConcat(hash, start, Prefix(), [PlainInsert(0, true)] + Finds(n));
    RunConcat(hash, t, [PlainInsert(0, true)], Finds(n));
    RunOne(hash, t, PlainInsert(0, true));
  }

  lemma BeginEndsAt(t: Table<nat, bool>, size: nat)
    requires size > 0 && Filled(t, size, COLLISION_COUNT_THRESHOLD + 1)
    ensures EndsAt(Begin(t), size - 1) && Left(Begin(t)) == COLLISION_COUNT_THRESHOLD + 1 + size
  {
    NoPairs(Constant(size), t.base1.chains, t.base1.model);
  }

  /** The assertion of line 293 can fail for some hash function and some run if and only if the table was
      created with more than 2048 entries. */
  lemma AssertionFailsExactly(size: nat)
    requires 0 < size < WORD
    ensures size > NEW_ENTRIES <==>
      exists hash: nat -> nat, calls: seq<Call<nat, bool>> ::
        |calls| < WORD && Run(hash, Created<nat, bool>(size), calls).failed
  {
    if size > NEW_ENTRIES {
      var n := EveryLargeSizeCanFail(size);
      InsertsCount(COLLISION_COUNT_THRESHOLD + 1);
      assert |FailingRun(n)| < WORD;
    } else {
      forall hash: nat -> nat, calls: seq<Call<nat, bool>> | |calls| < WORD
        ensures !Run(hash, Created<nat, bool>(size), calls).failed
      {
        SmallTablesNeverFail<nat, bool>(hash, size, calls);
      }
    }
  }
}
