/** The hash table of base_hash.c in place: bucket arrays, counts and the migration position.

    Every call is proved to do to the fields what HashSpec does to a value. A chain is a value in
    its bucket. A try-lock that another thread holds is a free choice.
 */
module HashTable {
  import opened Sequences
  import opened Options
  import opened HashChains
  import opened HashSpec
  import opened HashMapping

  class HashBase<K(==), V> {
    var entries: array<seq<Pair<K, V>>>
    var itemsCount: nat
    var collisionCount: nat
    ghost var model: map<K, V>

    ghost function Value(): Base<K, V>
      reads this, entries
    {
      Base(entries[..], itemsCount, collisionCount, model)
    }

    constructor (size: nat)
      ensures fresh(entries) && entries.Length == size
      ensures Value() == Base(seq(size, _ => []), 0, 0, map[])
    {
      entries := new seq<Pair<K, V>>[size](_ => []);
      itemsCount, collisionCount, model := 0, 0, map[];
    }

    /** The walk along the chain `key` belongs to. */
    method Find(hash: K -> nat, key: K) returns (found: bool, b: nat, j: nat)
      requires BaseOk(hash, Value()) && entries.Length > 0
      ensures found <==> key in model
      ensures found ==> b < entries.Length && j < |entries[b]| && entries[b][j] == Pair(key, model[key])
      ensures forall second :: PlaceIn(hash, entries[..], second, key) == if found then At(second, b, j) else Nowhere
    {
      b := hash(key) % entries.Length;
      var c := entries[b];
      LookupIsExact(hash, entries[..], model, key);
      assert entries[..][Bucket(hash, entries[..], key)] == c;
      j, found := 0, false;
      while j < |c|
        invariant j <= |c| && !found && forall i :: 0 <= i < j ==> c[i].key != key
      {
        if c[j].key == key {
          found := true;
          break;
        }
        j := j + 1;
      }
    }

    /** The inner loop of mapHashTable, `good` standing for the caller's function: the chain is followed
        until an error that is not ignored. */
    static method MapChain(c: seq<Pair<K, V>>, good: Pair<K, V> -> bool, ignore: bool, before: seq<Pair<K, V>>, wasOk: bool)
      returns (visits: seq<Pair<K, V>>, ok: bool)
      requires wasOk == NoError(before, good, ignore)
      ensures visits == before + ChainVisits(c, good, ignore) && ok == NoError(visits, good, ignore)
    {
      visits, ok := before, wasOk;
      var j := 0;
      while j < |c|
        invariant j <= |c| && visits + ChainVisits(c[j..], good, ignore) == before + ChainVisits(c, good, ignore)
        invariant ok == NoError(visits, good, ignore)
      {
        assert c[j..][1..] == c[j + 1..];
        Assoc(visits, [c[j]], ChainVisits(c[j + 1..], good, ignore));
        visits := visits + [c[j]];
        ok := ignore || good(c[j]);
        if !ok {
          return;
        }
        j := j + 1;
      }
    }

    /** The outer loop: an error does not keep it from the next chain. */
    method Map(good: Pair<K, V> -> bool, ignore: bool) returns (visits: seq<Pair<K, V>>, ok: bool)
      ensures visits == BaseVisits(Value(), good, ignore) && ok == NoError(visits, good, ignore)
    {
      visits, ok := [], true;
      if itemsCount > 0 {
        var i := 0;
        while i < entries.Length
          invariant i <= entries.Length && ok == NoError(visits, good, ignore)
          invariant visits + ArrayVisits(entries[i..], good, ignore) == ArrayVisits(entries[..], good, ignore)
        {
          assert entries[i..][1..] == entries[i + 1..];
          Assoc(visits, ChainVisits(entries[i], good, ignore), ArrayVisits(entries[i + 1..], good, ignore));
          visits, ok := MapChain(entries[i], good, ignore, visits, ok);
          i := i + 1;
        }
      }
    }

    method AddHead(hash: K -> nat, key: K, value: V)
      requires entries.Length > 0
      modifies this`model, entries
      ensures Value() == HashSpec.AddHead(hash, old(Value()), key, value)
    {
      var b := hash(key) % entries.Length;
      entries[b] := [Pair(key, value)] + entries[b];
      model := model[key := value];
    }

    method DropAt(b: nat, j: nat)
      requires b < entries.Length && j < |entries[b]|
      modifies this`model, entries
      ensures Value() == HashSpec.DropAt(old(Value()), b, j)
    {
      ghost var k := entries[b][j].key;
      entries[b] := entries[b][..j] + entries[b][j + 1..];
      model := model - {k};
    }

    method ReplaceAt(b: nat, j: nat, value: V)
      requires b < entries.Length && j < |entries[b]|
      modifies this`model, entries
      ensures Value() == HashSpec.ReplaceAt(old(Value()), b, j, value)
    {
      var k := entries[b][j].key;
      entries[b] := entries[b][j := Pair(k, value)];
      model := model[k := value];
    }
  }

  class HashTable<K(==), V> {
    const hash: K -> nat
    const base1: HashBase<K, V>
    const base2: HashBase<K, V>
    var current: HashBase<K, V>
    var insertBase: HashBase?<K, V>
    var isRehashing: bool
    var rehashPos: nat
    ghost var assertionFailed: bool

    ghost predicate Shape()
      reads this, base1, base2
    {
      && base1 != base2 && base1.entries != base2.entries
      && (current == base1 || current == base2)
      && (isRehashing ==> insertBase == base2)
    }

    ghost function Value(): Table<K, V>
      reads this, base1, base2, base1.entries, base2.entries
    {
      Table(base1.Value(), base2.Value(), current == base2, isRehashing, rehashPos, assertionFailed)
    }

    ghost predicate Valid()
      reads this, base1, base2, base1.entries, base2.entries
    {
      Shape() && Inv(hash, Value())
    }

    constructor (reserve: nat, hash: K -> nat)
      ensures Valid() && Value() == Created(if reserve < LEAST_HASH_ENTRIES then LEAST_HASH_ENTRIES else reserve)
      ensures Contents(Value()) == map[] && !isRehashing && this.hash == hash
      ensures fresh(base1) && fresh(base2) && fresh(base1.entries) && fresh(base2.entries)
      ensures base1.entries.Length == if reserve < 1024 then 1024 else reserve
    {
      var size := if reserve < LEAST_HASH_ENTRIES then LEAST_HASH_ENTRIES else reserve;
      var b1 := new HashBase(size);
      var b2 := new HashBase(0);
      this.hash, base1, base2 := hash, b1, b2;
      current, insertBase, isRehashing, rehashPos, assertionFailed := b1, null, false, 0, false;
      new;
      EmptyChains(hash, base1.entries[..]);
      EmptyChains(hash, base2.entries[..]);
    }

    /** A try-lock: free when nothing else runs, anything otherwise. */
    method TryLock(quiet: bool) returns (got: bool)
      ensures quiet ==> got
    {
      got := *;
      if quiet {
        got := true;
      }
    }

    method MoveHead()
      requires Shape() && isRehashing && current == base1
      requires rehashPos < base1.entries.Length && base1.entries[rehashPos] != [] && base2.entries.Length > 0
      modifies base1, base1.entries, base2, base2.entries
      ensures Shape() && base1.entries == old(base1.entries) && base2.entries == old(base2.entries)
      ensures Value() == Move(hash, old(Value()))
    {
      var node := base1.entries[rehashPos][0];
      base1.DropAt(rehashPos, 0);
      base1.itemsCount := Dec(base1.itemsCount);
      base2.AddHead(hash, node.key, node.value);
    }

    /** One turn of the loop of rehashNSteps. `ran`: it counts towards the steps. */
    method TurnOnce(quiet: bool, tries: nat) returns (ran: bool, retry: nat, finished: bool, ghost luck: Luck)
      requires Shape() && isRehashing && rehashPos < current.entries.Length && base2.entries.Length > 0
      modifies this`rehashPos, this`current, base1, base1.entries, base2, base2.entries
      ensures Shape() && base1.entries == old(base1.entries) && base2.entries == old(base2.entries)
      ensures Value() == Turn(hash, old(Value()), luck)
      ensures ran <==> luck != HeadBusy && luck != CountBusy
      ensures retry == Retried(old(Value()), luck, tries) && (finished ==> ran)
      ensures !finished ==> current == old(current)
      ensures finished ==> ran && current == base2
      ensures quiet ==> luck == AllFree && ran
      ensures ran ==> (finished <==> Current(Halfway(hash, old(Value()), luck)).items < 1)
    {
      ran, retry, finished, luck := false, tries + 1, false, HeadBusy;
      var headLocked := TryLock(quiet);
      if headLocked {
        luck := CountBusy;
        var countLocked := TryLock(quiet);
        if countLocked {
          ran, retry, luck := true, tries, AllFree;
          if current.entries[rehashPos] == [] {
            rehashPos := rehashPos + 1;
            if rehashPos >= current.entries.Length {
              rehashPos := 0;
            }
          } else {
            retry, luck := MoveIfFree(quiet, tries);
          }
          if current.itemsCount < 1 {
            current, finished := base2, true;
          }
        }
      }
    }

    /** The part of a turn that needs the node and its target bucket. */
    method MoveIfFree(quiet: bool, tries: nat) returns (retry: nat, ghost luck: Luck)
      requires Shape() && isRehashing && rehashPos < current.entries.Length && base2.entries.Length > 0
      requires current.entries[rehashPos] != []
      modifies base1, base1.entries, base2, base2.entries
      ensures Shape() && base1.entries == old(base1.entries) && base2.entries == old(base2.entries)
      ensures luck != HeadBusy && luck != CountBusy && (quiet ==> luck == AllFree)
      ensures retry == Retried(old(Value()), luck, tries)
      ensures Value() == if luck != AllFree || current == base2 then old(Value()) else Move(hash, old(Value()))
    {
      retry, luck := tries + 1, NodeBusy;
      var nodeLocked := TryLock(quiet);
      if nodeLocked {
        retry, luck := tries, TargetBusy;
        var targetLocked := TryLock(quiet);
        if targetLocked {
          luck := AllFree;
          // once base2 is current, the target is the bucket locked above
          if current == base1 {
            retry := 0;
            MoveHead();
          }
        }
      }
    }

    /** The loop of rehashNSteps: at most `n` turns that count, and at most REHASH_RETRY failures in
        a row. */
    method RehashLoop(n: nat, quiet: bool) returns (ghost lucks: seq<Luck>)
      requires Shape() && isRehashing && base2.entries.Length > 0
      modifies this`rehashPos, this`current, base1, base1.entries, base2, base2.entries
      ensures Shape() && base1.entries == old(base1.entries) && base2.entries == old(base2.entries)
      ensures Value() == Turns(hash, old(Value()), lucks) && AllTurns(hash, old(Value()), n, lucks)
      ensures quiet && old(current) == base1 ==>
        AllQuiet(lucks) && (current == base2 || rehashPos >= base1.entries.Length || |lucks| == n)
      ensures quiet ==> Value() == Steps(hash, old(Value()), n)
    {
      hide BaseOk, Turn, Halfway, Steps, InLoop, AllTurns;
      ghost var t := Value();
      var i: nat, retry: nat := 0, 0;
      lucks := [];
      var base := current;
      EntersLoop(hash, t, n, quiet);
      while rehashPos < base.entries.Length && i < n && retry < REHASH_RETRY
        invariant Shape() && base1.entries == old(base1.entries) && base2.entries == old(base2.entries)
        invariant InLoop(hash, t, n, lucks, Value(), i, retry, quiet)
        invariant i < n ==> current == base
        invariant current == base || current == base2
        decreases if i < n then n - i else 0, REHASH_RETRY - retry
      {
        var ran, finished;
        ghost var luck;
        ghost var r := Value();
        ghost var tries := retry;
        ran, retry, finished, luck := TurnOnce(quiet, retry);
        StaysInLoop(hash, t, n, lucks, r, i, tries, quiet, luck);
        lucks := lucks + [luck];
        if finished {
          i := n;
        }
        if ran {
          i := i + 1;
        }
      }
      LeavesLoop(hash, t, n, lucks, Value(), i, retry, quiet);
    }

    /** rehashNSteps. */
    method RehashNSteps(n: nat, quiet: bool) returns (ghost lucks: seq<Luck>)
      requires Valid() && isRehashing
      modifies this, base1, base1.entries, base2, base2.entries
      ensures Valid() && base1.entries == old(base1.entries) && base2.entries == old(base2.entries) && isRehashing
      ensures Value() == Turns(hash, Entered(old(Value())), lucks) && AllTurns(hash, Entered(old(Value())), n, lucks)
      ensures Contents(Value()) == Contents(old(Value()))
      ensures quiet && old(current) == base1 ==> AllQuiet(lucks) && (current == base2 || |lucks| == n)
      ensures quiet ==> Value() == Steps(hash, Entered(old(Value())), n)
    {
      ghost var t := Entered(Value());
      EnteredKeepsInv(hash, Value());
      assertionFailed := t.failed;
      lucks := RehashLoop(n, quiet);
      TurnsKeepInv(hash, t, lucks);
    }

    /** doRehash. */
    method DoRehash(quiet: bool) returns (ghost visit: Visit)
      requires Valid()
      modifies this, base1, base1.entries, base2, base2.entries
      ensures Valid() && base1.entries == old(base1.entries) && base2.entries == old(base2.entries)
      ensures isRehashing == old(isRehashing) && insertBase == old(insertBase)
      ensures Contents(Value()) == Contents(old(Value()))
      ensures Value() == Visited(hash, old(Value()), visit) && (quiet ==> visit == Undisturbed)
    {
      visit := if quiet then Undisturbed else Away;
      if isRehashing {
        var locked := TryLock(quiet);
        if locked {
          ghost var lucks := RehashNSteps(REHASH_STEPS, quiet);
          visit := if quiet then Undisturbed else Disturbed(lucks);
        }
      }
    }

    /** mapHashTable: the pairs the caller's function meets, and whether an error comes back. */
    method Map(good: Pair<K, V> -> bool, ignore: bool, quiet: bool)
      returns (visits: seq<Pair<K, V>>, ok: bool, ghost visit: Visit)
      requires Valid()
      modifies this, base1, base1.entries, base2, base2.entries
      ensures Valid() && Contents(Value()) == Contents(old(Value()))
      ensures Value() == Visited(hash, old(Value()), visit) && (quiet ==> visit == Undisturbed)
      ensures (visits, ok) == Visits(Value(), good, ignore)
    {
      visit := DoRehash(quiet);
      visits, ok := current.Map(good, ignore);
      if ok && isRehashing {
        var more;
        more, ok := base2.Map(good, ignore);
        visits := visits + more;
      }
    }

    /** The search through the current base and then, during a rehash, the other one. */
    method Locate(key: K) returns (found: bool, second: bool, b: nat, j: nat)
      requires Valid()
      ensures found <==> key in Contents(Value())
      ensures found ==>
        var base := if second then base2 else base1;
        b < base.entries.Length && j < |base.entries[b]| && base.entries[b][j] == Pair(key, Contents(Value())[key])
      ensures Where(hash, Value(), key) == if found then At(second, b, j) else Nowhere
    {
      second := current == base2;
      found, b, j := current.Find(hash, key);
      if !found && isRehashing {
        found, b, j := base2.Find(hash, key);
        second := true;
      }
    }

    /** findInHashTable. `quiet`: nothing else runs, so every try-lock succeeds. */
    method Find(key: K, quiet: bool) returns (value: Option<V>, ghost visit: Visit)
      requires Valid()
      modifies this, base1, base1.entries, base2, base2.entries
      ensures Valid() && Contents(Value()) == Contents(old(Value()))
      ensures value == if key in Contents(Value()) then Some(Contents(Value())[key]) else None
      ensures Value() == Do(hash, old(Value()), HashSpec.Find(key, visit)).0 && (quiet ==> visit == Undisturbed)
    {
      hide BaseOk, Contents, Visited, Where;
      visit := DoRehash(quiet);
      var found, second, b, j := Locate(key);
      value := None;
      if found {
        value := Some((if second then base2 else base1).entries[b][j].value);
      }
    }

    method ChangeAt(second: bool, b: nat, j: nat, value: V)
      requires Shape()
      requires var base := if second then base2 else base1; b < base.entries.Length && j < |base.entries[b]|
      modifies base1, base1.entries, base2, base2.entries
      ensures Shape() && base1.entries == old(base1.entries) && base2.entries == old(base2.entries)
      ensures Value() == Change(old(Value()), second, b, j, value)
    {
      if second {
        base2.ReplaceAt(b, j, value);
      } else {
        base1.ReplaceAt(b, j, value);
      }
    }

    method TakeAt(second: bool, b: nat, j: nat)
      requires Shape()
      requires var base := if second then base2 else base1; b < base.entries.Length && j < |base.entries[b]|
      modifies base1, base1.entries, base2, base2.entries
      ensures Shape() && base1.entries == old(base1.entries) && base2.entries == old(base2.entries)
      ensures Value() == Take(old(Value()), second, b, j)
    {
      var base := if second then base2 else base1;
      var crowded := |base.entries[b]| > COLLISION_COUNT_THRESHOLD;
      base.DropAt(b, j);
      if crowded {
        base.collisionCount := Dec(base.collisionCount);
      }
      base.itemsCount := Dec(base.itemsCount);
    }

    method PutHead(key: K, value: V)
      requires Shape() && base1.entries.Length > 0 && (isRehashing ==> base2.entries.Length > 0)
      modifies base1, base1.entries, base2, base2.entries
      ensures Shape() && base1.entries == old(base1.entries) && base2.entries == old(base2.entries)
      ensures Value() == Put(hash, old(Value()), key, value)
    {
      var base := if isRehashing then base2 else base1;
      base.AddHead(hash, key, value);
      base.itemsCount := Inc(base.itemsCount);
    }

    /** updateHashTable. */
    method Update(key: K, value: V, quiet: bool) returns (status: Status, ghost visit: Visit)
      requires Valid()
      modifies this, base1, base1.entries, base2, base2.entries
      ensures Valid()
      ensures status == if key in old(Contents(Value())) then Done else NoSuchKey
      ensures Contents(Value()) == if status == Done then old(Contents(Value()))[key := value] else old(Contents(Value()))
      ensures (Value(), status) == Do(hash, old(Value()), HashSpec.Update(key, value, visit))
      ensures quiet ==> visit == Undisturbed
    {
      hide BaseOk, Contents, Visited, Where, Take, Change;
      visit := DoRehash(quiet);
      var found, second, b, j := Locate(key);
      status := NoSuchKey;
      if found {
        ChangeKeepsInv(hash, Value(), second, b, j, value);
        ChangeAt(second, b, j, value);
        status := Done;
      }
    }

    /** removeFromHashTable. */
    method Remove(key: K, quiet: bool) returns (status: Status, ghost visit: Visit)
      requires Valid()
      modifies this, base1, base1.entries, base2, base2.entries
      ensures Valid()
      ensures status == if key in old(Contents(Value())) then Done else NoSuchKey
      ensures Contents(Value()) == if status == Done then old(Contents(Value())) - {key} else old(Contents(Value()))
      ensures (Value(), status) == Do(hash, old(Value()), HashSpec.Remove(key, visit))
      ensures quiet ==> visit == Undisturbed
    {
      hide BaseOk, Contents, Visited, Where, Take, Change;
      visit := DoRehash(quiet);
      var found, second, b, j := Locate(key);
      status := NoSuchKey;
      if found {
        TakeKeepsInv(hash, Value(), second, b, j);
        TakeAt(second, b, j);
        status := Done;
      }
    }

    /** The start of a rehash: base2 gets its bucket array. */
    method BeginRehash()
      requires Shape() && !isRehashing
      modifies this, base2
      ensures Shape() && isRehashing && fresh(base2.entries) && base1.entries == old(base1.entries)
      ensures Value() == Begin(old(Value()))
    {
      insertBase := base2;
      var entries := new seq<Pair<K, V>>[NEW_ENTRIES](_ => []);
      ghost var chains: Chains<K, V> := seq(NEW_ENTRIES, _ => []);
      assert entries[..] == chains;
      base2.entries := entries;
      rehashPos := 0;
      isRehashing := true;
    }

    /** The end of an insertion, which may begin a rehash. */
    method RehashIfCrowded(arrays: bool, lock: bool) returns (status: Status)
      requires Valid()
      modifies this, base2
      ensures Valid() && Contents(Value()) == Contents(old(Value()))
      ensures (Value(), status) == Finish(old(Value()), arrays, lock)
    {
      status := Done;
      var base := if isRehashing then base2 else base1;
      if 5 * base.collisionCount > base.itemsCount && !isRehashing && lock {
        if arrays {
          BeginKeepsInv(hash, Value());
          BeginRehash();
        } else {
          status := OutOfMemory;
        }
      }
    }

    /** insertToHashTable. `nodes` and `arrays` say whether memory for a node, and for a new bucket
        array, can be had, `lock` whether rehash_lock is free at the end. The last visit runs under the
        lock of the key's own bucket, so it may be disturbed even when nothing else runs. A table of
        2^64 - 1 keys does not fit into memory. */
    method Insert(key: K, value: V, nodes: bool, arrays: bool, lock: bool, quiet: bool)
      returns (status: Status, ghost first: Visit, ghost second: Visit, ghost third: Visit)
      requires Valid() && |Contents(Value())| + 1 < WORD
      modifies this, base1, base1.entries, base2, base2.entries
      ensures Valid()
      ensures key in old(Contents(Value())) ==> status == DuplicateKey
      ensures key !in old(Contents(Value())) ==>
        status == if nodes && !Refused(old(Value()), arrays, lock) then Done else OutOfMemory
      ensures Contents(Value()) ==
        if key in old(Contents(Value())) || !nodes then old(Contents(Value())) else old(Contents(Value()))[key := value]
      ensures (Value(), status)
        == Do(hash, old(Value()), HashSpec.Insert(key, value, nodes, arrays, lock, first, second, third))
      ensures quiet ==> first == second == Undisturbed
    {
      hide BaseOk, Contents, Visited, Where, Put, Finish, Refused;
      ghost var t := Value();
      third := Away;
      first := DoRehash(quiet);
      second := DoRehash(quiet);
      InsertStatus(hash, t, HashSpec.Insert(key, value, nodes, arrays, lock, first, second, third));
      var found, inSecond, b, j := Locate(key);
      if found {
        return DuplicateKey, first, second, third;
      }
      if !nodes {
        return OutOfMemory, first, second, third;
      }
      third := DoRehash(false);
      InsertStatus(hash, t, HashSpec.Insert(key, value, nodes, arrays, lock, first, second, third));
      found, inSecond, b, j := Locate(key);
      if found {
        return DuplicateKey, first, second, third;
      }
      PutKeepsInv(hash, Value(), key, value);
      PutHead(key, value);
      status := RehashIfCrowded(arrays, lock);
    }
  }
}
