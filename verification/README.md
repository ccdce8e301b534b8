# A verified model of the library's data structures and lock protocols

The project models nine parts of a C library and proves what they promise: a left-leaning red-black
tree, a marked-pointer free list, a reader/writer spin lock, a FIFO resource queue, a hash table with
incremental rehash, a skip list, a binary heap with a sort in place, the RFC 4648 codecs, and an
unrolled double-ended queue. `dafny verify dfyconfig.toml` checks everything.

Each structure that the C code updates in place has two layers. One is a value and functions on it,
about which the hard results are proved: what every step keeps, what whole runs refine. The other is a
class, or methods over arrays, with the C code's own fields and branches; its `ensures` clauses equate the new
state with those functions of the old state, so the results carry over to the linked nodes and buffers. The two
lock-free protocols are step machines: one shared read, write or compare-and-swap at a time, any
number of threads, any interleaving.

| part | value or protocol | in place |
|---|---|---|
| red-black tree | `RbSpec.dfy`, `RbProofs.dfy`, `RbRuns.dfy` over `SortedLists.dfy` | `RbTree.dfy` |
| free list | `FreeList.dfy`, `FreeListCalls.dfy` | |
| reader/writer lock | `RwLock.dfy` | |
| resource queue | `QueueSpec.dfy` | `ResourceQueue.dfy` |
| hash table | `HashChains.dfy`, `HashSpec.dfy`, `HashMapping.dfy` | `HashTable.dfy` |
| skip list | `SkipSpec.dfy` | `SkipList.dfy` |
| heap | `Heap.dfy` (lemmas) | `Heap.dfy` (methods) |
| codecs | `CodingSpec.dfy`, `CodingProofs.dfy`, `CodingBits.dfy` | `BaseCoding.dfy` |
| deque | `DequeSpec.dfy` | `Deque.dfy` |

Conventions. A caller's comparison function is assumed to be a total preorder; on finitely many machine
words that is the same as a rank, so `RankedBy(cmp, rank)` says `cmp(a, b)` has the sign of
`rank(a) - rank(b)`. Whether an allocation succeeds is a parameter. Coin flips, try-lock outcomes and
the scheduling of threads are free choices.

## What the code does not keep

- The assertions on `about_to_write` in the lock (src/port/atomic.c:227 and 232) can fail, because line 71
  sets the flag without holding the inner lock. `RwLock.AboutAssertionFailsExactly` says in which
  programs: exactly in those whose threads make blocking requests to write, demote themselves, and let
  readers unlock or promote themselves. Two threads are enough.
- The assertion at src/base/base_hash.c:293 holds in every run of a table created with at most 2048 entries; for every
  larger size there are a hash function and a run of public calls after which it fails
  (`HashSpec.AssertionFailsExactly`). The second base always has 2048 buckets, and the position is not put
  back when the bases are switched: the next entry fails exactly if, when the migration set out, some key
  lay in bucket 2048 or beyond (`HashSpec.NextEntryFailsExactly`).
- An insertion stores its key and reports out-of-memory, exactly when a rehash is due and the array of the
  second base cannot be had (src/base/base_hash.c:141-198). `HashSpec.StoredButRefusedExactly` states that
  over the fields before the call, and `HashSpec.StoredButRefusedIsReached` is a run of 103 calls to it.
- `collision_count` is never raised (src/base/base_hash.c:70), so a table from which nothing is removed never
  grows (`HashSpec.NothingRemovedNothingRehashed`); a rehash begins only after a removal from a chain of
  more than 100 nodes has taken the count below zero.
- Mapping a function over a hash table meets every pair once if and only if the bases have not been switched and
  the second base is empty or counts items (`HashMapping.MappingIsRightExactly`). A base that counts no items is
  passed over (src/base/base_hash.c:893), but a migration does not count the nodes it moves in the base they go to;
  and after the switch the current base and the one that takes insertions are the same, so it is mapped twice, or
  not at all. No run repairs that, short of emptying the table (`HashMapping.NeverRightAgain`), and
  `HashMapping.MappingCanMissEverything` is a run to a table that holds keys and of which the mapping meets none.
  An error that is not to be ignored comes back only from the last pair met (`HashMapping.ErrorIsTheLast`).
- The deque misses values. A push at the end of an empty queue whose index stands at the
  capacity leaves an empty unit in front, and popping from the front then finds nothing; the mirror
  case is a push at the front at index 0. `DequeSpec.RightExactly` is the exact condition,
  `DequeSpec.BoundaryIsReached` reaches it with a queue that never holds more than one value. A new queue is safe for
  half its capacity of pushes at each end (`DequeSpec.HalfAtEachEndIsRight`), and not for one more.
- src/base/rbtree.h:10 doubts that the tree is right. It is, up to the colour of its root, which insertion
  never paints black.
- Decoding a padded text whose unused bits are not zero succeeds, leaves those bits as one more byte
  after the data, and puts the NUL after that byte. "QR==" is such a text (`CodingProofs.AcceptedButNotReturned`).

## Model

| member | source | states |
|---|---|---|
| SortedLists.DictionaryLaws | src/base/rbtree.c:316-343 | sorted association lists are dictionaries: storing or erasing a key answers for that key, and every other key keeps its answer |
| SortedLists.LookupIs | src/base/rbtree.c:316-343 | looking a key up in a sorted list gives the value of the one entry that compares equal, and nothing exactly if there is none |
| SortedLists.StoreEraseSorted | src/base/rbtree.c:348-412 | storing and erasing keep keys strictly increasing |
| RbProofs.InsertKeepsLegal | src/base/rbtree.c:348-412 | insertion keeps a tree legal up to its root's colour; below the root it keeps the black height, and a black subtree comes back with no two reds in a row |
| RbProofs.PrepareLeftShape | src/base/rbtree.c:499-503 | the preparation before going left keeps the black height and lends the left child a red to spare |
| RbProofs.PrepareRightShape | src/base/rbtree.c:505-518 | the same going right, through the illegal shapes in between: either the right child may be entered for any key, or the old root is now its root; no rotation meets NULL |
| RbProofs.FixUpShape | src/base/rbtree.c:244-261 | a node over two legal subtrees of equal black height comes back legal with that black height, red only if it was red or had two red children |
| RbProofs.FixUpKeepsOrder | src/base/rbtree.c:244-261 | fixing up changes no key and no order |
| RbProofs.RotationsKeepOrder | src/base/rbtree.c:190-221 | both rotations keep the in-order entries |
| RbProofs.DeleteMinWorks | src/base/rbtree.c:431-447 | removes exactly the least entry, keeping legality and black height, and is red only if the input was |
| RbProofs.DeleteNodeWorks | src/base/rbtree.c:491-537 | deleting any key, present or absent, erases that key alone and keeps legality and black height |
| RbProofs.DeleteIgnoresRootColour | src/base/rbtree.c:491-537 | the colour of the root makes no difference to a deletion, which is why insertion need not repaint it |
| RbProofs.RemoveWorks | src/base/rbtree.c:491-554 | removal from a tree that is legal up to its root's colour yields a legal tree with a black root whose entries are the old ones without the key |
| RbProofs.LegalIsDeletable | src/base/rbtree.c:539-554 | every legal ordered tree meets what the recursive deletion needs |
| RbProofs.DeletableBelow | src/base/rbtree.c:491-537 | that need is met again at every subtree the deletion enters, so the assertion at line 510 cannot fail |
| RbRuns.InsertStores | src/base/rbtree.c:348-412 | insertion stores one entry and touches no other |
| RbRuns.SearchIsLookup | src/base/rbtree.c:316-343 | search answers with the entry of an equal key, exactly if there is one |
| RbRuns.EveryRunIsADictionary | src/base/rbtree.c:316-554 | after any sequence of inserts and removes the tree is legal and ordered and search returns the last value written for the key and not deleted since |
| RbRuns.RedRootOverRed | src/base/rbtree.c:391-412 | two inserts in falling order reach a red root over a red child, so legality cannot speak of the root's colour |
| RbRuns.HeightAndSize | src/base/rbtree.c:374-386 | black height bounds height from above and size from below |
| RbRuns.SearchIsLogarithmic | src/base/rbtree.c:316-343 | 2^h <= (n + 1)^2 for n entries and height h, and a search makes at most h comparisons |
| RbTree.RotateLeft | src/base/rbtree.c:190-203 | the pointer rotation is the rotation of the tree, on the same nodes |
| RbTree.RotateRight | src/base/rbtree.c:208-221 | mirror image |
| RbTree.ColorFlip | src/base/rbtree.c:226-239 | flips the node and whichever children there are |
| RbTree.FixUp | src/base/rbtree.c:244-261 | in place, what RbProofs.FixUpShape and FixUpKeepsOrder speak of |
| RbTree.InsertNode | src/base/rbtree.c:348-389 | the recursive insertion in place: links the new node or copies its value into an equal one, using no node but the tree's and the new one |
| RbTree.GetMin | src/base/rbtree.c:417-426 | the loop returns the node that holds the first entry |
| RbTree.MoveRedLeft | src/base/rbtree.c:452-466 | in place, the preparation before going left |
| RbTree.MoveRedRight | src/base/rbtree.c:471-486 | in place, the preparation before going right |
| RbTree.DeleteMin | src/base/rbtree.c:431-447 | in place, removal of the least entry |
| RbTree.DeleteNode | src/base/rbtree.c:491-537 | deletion in place with the successor copied over the node; its assertions include line 510 |
| RbTree.Descend | src/base/rbtree.c:316-343 | the search loop, counting comparisons |
| RbTree.RBTree.Search | src/base/rbtree.c:316-343 | finds exactly what the contents hold for the key in at most 2 log2(n + 1) comparisons |
| RbTree.RBTree.Insert | src/base/rbtree.c:391-412 | succeeds exactly if a node can be had, and then the key answers with the new value and every other key as before; otherwise nothing changes, even if the key was there |
| RbTree.RBTree.Remove | src/base/rbtree.c:539-554 | the key answers with nothing and every other key as before, the contents lose that one entry, and the root is black |
| FreeList.EveryStepKeepsInv | src/common/block_alloc_helper.h:16-84 | every shared step of any thread keeps the list acyclic and spelled out in memory, every node on the list or owned by one thread, the mark and the block lock each held by at most one thread; owners may hand nodes to other threads, which may free them |
| FreeList.EveryInterleaving | src/common/block_alloc_helper.h:29-84 | over any interleaving, with nodes allocated by one thread and freed by another, no node is lost or handed out twice, the chain ends, and the assertion at line 72 is never reached |
| FreeList.WalkIsList | src/common/block_alloc_helper.h:29-73 | following next pointers from the head visits the listed nodes in order and ends |
| FreeList.EveryStepIsAStackStep | src/common/block_alloc_helper.h:29-73 | no step does anything to the list but pop its first node to the stepping thread or push a chain that thread owns; which steps must do so is in FreeListCalls |
| FreeList.AllocIsAPop | src/common/block_alloc_helper.h:57-73 | a step of an allocation that changes the list takes its first node, in one compare-and-swap |
| FreeList.LinkIsAPush | src/port/resource_queue.c:358-375 | linking a chain, with the mark as the resource queue's own expansion does or without, puts it in front in one compare-and-swap |
| FreeList.RestIsAStart | src/common/block_alloc_helper.h:16-27 | any well-formed list with idle threads is a state the runs may start from |
| FreeListCalls.AllocAloneTakesTheFirst | src/common/block_alloc_helper.h:57-73 | alone, with nodes on the list, an allocation takes the first one in five steps and touches nothing else |
| FreeListCalls.AllocAloneFindsNothing | src/common/block_alloc_helper.h:59-62 | on an empty list it comes back with nothing and leaves everything as it was |
| FreeListCalls.FreeAlonePutsInFront | src/common/block_alloc_helper.h:43-55 | alone, a free puts its node in front in four steps and takes it from its owner |
| FreeListCalls.FreedByTheOther | src/common/block_alloc_helper.h:43-55 | a node handed over is freed by the thread that got it |
| FreeListCalls.AllocThenFree | src/common/block_alloc_helper.h:43-73 | a node taken and given back at once leaves the whole state as it was |
| FreeListCalls.ExpandAloneLinksTheBlock | src/port/resource_queue.c:338-375 | alone on an empty list, expanding with the mark or without leaves exactly the new nodes on the list, in their order and owned by nobody |
| FreeListCalls.ExpandAloneFindsNodes | src/common/block_alloc_helper.h:75-84 | with nodes on the list an expansion changes nothing |
| FreeListCalls.ExpandAloneFails | src/common/block_alloc_helper.h:75-84 | nor does it without memory |
| FreeListCalls.CallsEnd | src/common/block_alloc_helper.h:29-73 | among any other threads, an allocation comes back only by one step that takes the first node, or by one at which the head was NULL; a free or a link comes back only by the step that puts its chain in front |
| RwLock.EveryStepKeepsInv | src/port/atomic.c:15-244 | every step of lock, try-lock, unlock, promote and demote by threads that hold what they give back keeps the lock's bookkeeping true |
| RwLock.InitInv | src/port/atomic.c:36-143 | an initialised lock starts out so |
| RwLock.InvExcludes | src/port/atomic.c:36-143 | reader_count is the number of readers, at most one writer, never a writer with readers, is_writing implies no readers, and no assertion but the about_to_write half fails; that half exactly if line 71 wrote last |
| RwLock.EveryInterleaving | src/port/atomic.c:36-244 | the same after any interleaving |
| RwLock.ReaderEnters | src/port/atomic.c:36-102 | alone, a reader is let in beside any number of readers, with and without try |
| RwLock.WriterEnters | src/port/atomic.c:36-113 | alone, a writer is let in when nobody is inside, with and without try, and clears about_to_write |
| RwLock.ReaderLeaves | src/port/atomic.c:122-143 | alone, a reader leaves and the others stay |
| RwLock.WriterDemotes | src/port/atomic.c:208-244 | alone, a writer becomes a reader in twelve steps |
| RwLock.ReaderPromotes | src/port/atomic.c:148-203 | alone, the only reader becomes the writer |
| RwLock.WriterLeaves | src/port/atomic.c:122-143 | alone, a writer leaves the lock free |
| RwLock.ReaderIsKeptOut | src/port/atomic.c:42-53 | a writer inside, or one that waits, keeps a reader out, who writes nothing and gives up with try |
| RwLock.WriterIsKeptOut | src/port/atomic.c:54-74 | a writer or readers inside keep a writer out; without try it sets about_to_write when it meets readers |
| RwLock.PromotionIsKeptOut | src/port/atomic.c:148-203 | with other readers inside a promotion writes nothing and its thread stays a reader |
| RwLock.RefusedInside | src/port/atomic.c:42-197 | who is refused only under the inner lock gives it back; a blocking writer that met readers and a blocking promotion leave about_to_write set, and nothing else is written |
| RwLock.ReadersShare | src/port/atomic.c:42-53 | in every state of the lock in which nobody writes or waits to write, a thread can join the readers |
| RwLock.WritersTakeTurns | src/port/atomic.c:93-143 | once a writer has left, another thread can become the writer |
| RwLock.StepKeepsLate | src/port/atomic.c:62-72 | line 71 is on the way only while a reader is inside or readers can leave, and only for a blocking request to write |
| RwLock.RunsAreHarmless | src/port/atomic.c:220-244 | in a program without blocking requests to write, without demotions, or whose readers never unlock or promote themselves, the assertions on about_to_write hold in every interleaving |
| RwLock.AboutAssertionCanFail | src/port/atomic.c:208-244 | with any calls that include one of each of the three, two threads reach line 227 with about_to_write set |
| RwLock.AboutAssertionFailsExactly | src/port/atomic.c:36-244 | the assertions can fail if and only if the calls the threads make include one of each of the three |
| QueueSpec.GrantToReaders | src/port/resource_queue.c:918-942 | with readers inside, the loop lets in every reader in front of the first writer |
| QueueSpec.LeaveGrantsABatch | src/port/resource_queue.c:881-949 | a release takes out the first entry of the thread and, if it was the last holder, grants the head waiter and, if that reads, the readers right behind it |
| QueueSpec.AskKeepsFair | src/port/resource_queue.c:652-743 | after a request the holders are all readers or one writer, matching current_type, and a waiter implies holders it is incompatible with |
| QueueSpec.RequestEntersOrWaits | src/port/resource_queue.c:683-724 | a request becomes the last holder exactly if nobody waits and nobody inside is in its way, and the last waiter otherwise; it is the only entry the queue gains |
| QueueSpec.LeaveKeepsFair | src/port/resource_queue.c:881-949 | the same after a release: no wake-up is missed |
| QueueSpec.NextIsOrderly | src/port/resource_queue.c:652-949 | one event grants a prefix of the waiters and appends to their end |
| QueueSpec.HoldersAreTheGranted | src/port/resource_queue.c:652-949 | over any run, the holders are those who held the resource or were granted it and have not left, and nobody else |
| QueueSpec.WriterIsAlone | src/port/resource_queue.c:652-949 | a writer that was granted the resource and has not left is alone: everybody else ever granted it has left |
| QueueSpec.NoOvertaking | src/port/resource_queue.c:683-724 | over any run, grants followed by waiters are the old waiters followed by the requests, in order |
| QueueSpec.BoundedWaiting | src/port/resource_queue.c:901-942 | holders plus a waiter's index falls by one with every release and by nothing else, so it is granted by release number holders + index |
| ResourceQueue.Append | src/port/resource_queue.c:25-31 | the ring grows at its end |
| ResourceQueue.Unlink | src/port/resource_queue.c:33-39 | the ring closes over the removed entry, wherever it stood |
| ResourceQueue.ResourceQueue.RequestResource | src/port/resource_queue.c:652-743 | granted exactly if nobody waits and nobody inside is in the way; a granted request is linked as the last holder, any other as the last waiter, and the other ring stays |
| ResourceQueue.ResourceQueue.FindHolder | src/port/resource_queue.c:901-910 | finds the first entry of the thread on the ring |
| ResourceQueue.ResourceQueue.ReleaseResource | src/port/resource_queue.c:881-949 | the two rings become those of QueueSpec.Leave |
| ResourceQueue.ResourceQueue.GrantWaiters | src/port/resource_queue.c:918-942 | the loop that moves waiters stops exactly at the first incompatible one |
| HashChains.LookupIsExact | src/base/base_hash.c:425-480 | the chain at hash mod size holds a key if and only if the map does, with the map's value |
| HashChains.Added | src/base/base_hash.c:100-127 | a node put at the head of its bucket adds its key to the map and keeps keys unique |
| HashChains.Dropped | src/base/base_hash.c:786-836 | a node taken out of its chain removes its key alone |
| HashChains.Replaced | src/base/base_hash.c:723-744 | a value changed in a node changes that key alone |
| HashChains.TotalIsSize | src/base/base_hash.c:313-349 | the chain lengths add up to the number of keys |
| HashSpec.CreatedInv | src/base/base_hash.c:482-573 | a created table holds nothing and meets the invariant |
| HashSpec.Limits | src/base/base_hash.h:15-21 | the numbers written out: 2048 buckets in the second array, chains of more than 100 nodes, a ratio above 0.2, visits of 100 steps, 10 failures in a row |
| HashSpec.MoveKeepsInv | src/base/base_hash.c:313-340 | moving one node between bases changes no key's value, and the drained base's exact count falls by one |
| HashSpec.PassedAll | src/base/base_hash.c:297-312 | the position passes the last bucket only when nothing is left |
| HashSpec.TurnKeepsInv | src/base/base_hash.c:297-365 | one turn of the loop, whatever the try-locks answer, changes no key, and the switch happens only when the drained base is empty |
| HashSpec.TurnsKeepInv | src/base/base_hash.c:275-366 | so does any number of turns with any luck |
| HashSpec.QuietTurn | src/base/base_hash.c:297-365 | undisturbed, a turn moves a key or passes a bucket |
| HashSpec.QuietMigrationEnds | src/base/base_hash.c:297-365 | undisturbed, the bases are switched within items_count + size turns |
| HashSpec.TurnKeepsEnd | src/base/base_hash.c:297-365 | no turn, whatever the locks answer, changes where the migration ends: at the highest bucket in use, which is where the switch finds the position |
| HashSpec.StepsAdvance | src/base/base_hash.c:297-365 | undisturbed steps come nearer to the end by one each or have switched the bases there |
| HashSpec.StaysInLoop | src/base/base_hash.c:297-365 | a turn carries the loop's steps and failures on, and undisturbed leaves as many steps as it should |
| HashSpec.SmallTablesStayInside | src/base/base_hash.c:293 | the assertion holds throughout for tables created with at most 2048 entries |
| HashSpec.NextEntryFailsExactly | src/base/base_hash.c:293 | whatever the locks do, after the switch the assertion fails at the next entry exactly if a key of the table that set out lay in bucket 2048 or beyond, or, had all keys been removed, the position did |
| HashSpec.SmallTablesNeverFail | src/base/base_hash.c:293 | in a table created with at most 2048 entries the assertion holds in every run of calls, disturbed or not |
| HashSpec.EveryLargeSizeCanFail | src/base/base_hash.c:293 | for every larger size there is a run of calls on a new table after which the assertion has failed: 101 keys in the last bucket, one removed, one inserted, then searches |
| HashSpec.AssertionFailsExactly | src/base/base_hash.c:293 | the assertion can fail for some hash function and some run if and only if the table was created with more than 2048 entries |
| HashSpec.WhereIsExact | src/base/base_hash.c:425-480 | the search through both bases finds a place exactly for the keys the table holds |
| HashSpec.EveryCallKeepsInv | src/base/base_hash.c:606-859 | find, update, remove and insert, with any try-lock outcomes and any memory, keep the invariant and act on the table as on a map |
| HashSpec.EveryRunIsAMap | src/base/base_hash.c:606-859 | every run of calls is a run of calls of a map |
| HashSpec.InsertStatus | src/base/base_hash.c:63-211 | what an insertion reports, read off the table before the call |
| HashSpec.StoredButRefusedExactly | src/base/base_hash.c:141-198 | a new key is stored and out-of-memory reported exactly if a node was had, no rehash was under way, five times the collision count exceeds the count of items with the new one, rehash_lock was free, and the array could not be had |
| HashSpec.StoredButRefusedIsReached | src/base/base_hash.c:141-198 | a run of 103 calls on a new table of any size reaches that |
| HashSpec.NothingRemovedNothingRehashed | src/base/base_hash.c:63-152 | a run without removals never begins a rehash |
| HashSpec.BeginKeepsInv | src/base/base_hash.c:141-199 | starting a migration changes no key |
| HashSpec.PutKeepsInv | src/base/base_hash.c:606-629 | a new key goes into the map and nothing else changes, whichever base takes it |
| HashSpec.TakeKeepsInv | src/base/base_hash.c:761-859 | a node taken out of either base takes its key out of the map, and the drained base's count stays exact |
| HashSpec.ChangeKeepsInv | src/base/base_hash.c:723-759 | a value changed in either base changes that key alone |
| HashMapping.EachOnce | src/base/base_hash.c:893-925 | a walk through all chains of a base meets every pair of its map exactly once |
| HashMapping.MappingMeets | src/base/base_hash.c:861-930 | how often a mapping that nothing stops meets each pair, in every state |
| HashMapping.MappingIsRightExactly | src/base/base_hash.c:861-930 | it meets every pair exactly once if and only if the bases have not been switched and the second is empty or counts items, or the table is empty |
| HashMapping.ErrorIsTheLast | src/base/base_hash.c:903-921 | the error that comes back is that of the last pair met |
| HashMapping.ErrorCanBeLost | src/base/base_hash.c:903-921 | an error on a pair is lost when a pair in a later chain is good |
| HashMapping.VisitKeepsSecondCount | src/base/base_hash.c:313-350 | no part of a migration counts the moved nodes in the base they go to, or switches back |
| HashMapping.SecondCountIs | src/base/base_hash.c:132-139 | during a rehash the second base counts the insertions and what is removed from it, and nothing else |
| HashMapping.NeverRightAgain | src/base/base_hash.c:861-930 | after the switch, in every run, the mapping is right exactly when the table is empty |
| HashMapping.MappingCanMissEverything | src/base/base_hash.c:861-930 | for a table of any size a run of calls from creation after which it holds keys and the mapping meets none |
| HashTable.HashBase.Find | src/base/base_hash.c:446-470 | the walk along one chain finds the key exactly if the base holds it |
| HashTable.HashTable.TurnOnce | src/base/base_hash.c:297-365 | the loop body in place is one turn with the luck the locks gave, and counts as a step and as a failure as HashSpec.Counted says |
| HashTable.HashTable.RehashLoop | src/base/base_hash.c:297-365 | the loop ends; it is a sequence of turns, went on before each of them and no longer; undisturbed it is exactly HashSpec.Steps |
| HashTable.HashTable.RehashNSteps | src/base/base_hash.c:275-366 | no key changes; undisturbed, exactly HashSpec.Steps: n steps are made or the bases are switched |
| HashTable.HashTable.DoRehash | src/base/base_hash.c:371-383 | no key changes; the visit that HashSpec.Visited names is made, and undisturbed it is the undisturbed one |
| HashTable.HashTable.Locate | src/base/base_hash.c:425-480 | looking through both bases finds a key exactly if the table holds it |
| HashTable.HashTable.Find | src/base/base_hash.c:653-662 | the map's answer, whatever the migration does meanwhile |
| HashTable.HashTable.BeginRehash | src/base/base_hash.c:141-199 | the second base, of 2048 buckets, stands ready and empty |
| HashTable.HashTable.RehashIfCrowded | src/base/base_hash.c:137-202 | a rehash begins, or is refused for want of memory, exactly when it is due; contents stay |
| HashTable.HashTable.Insert | src/base/base_hash.c:63-211 | a duplicate changes nothing; a new key is stored exactly if a node can be had; done is reported exactly if then no due rehash is refused its array |
| HashTable.HashTable.Update | src/base/base_hash.c:746-759 | changes the key if it is there and says so |
| HashTable.HashTable.Remove | src/base/base_hash.c:761-859 | removes the key if it is there and says so |
| HashTable.HashBase.Map | src/base/base_hash.c:892-924 | the two loops over one base meet the pairs HashMapping.BaseVisits lists, and keep the error of the last |
| HashTable.HashTable.Map | src/base/base_hash.c:861-930 | meets the pairs HashMapping.Visits lists and says whether an error comes back |
| SkipSpec.LevelSorted | src/base/test_skiplist.cpp:152-209 | every level is sorted |
| SkipSpec.LevelIsSublist | src/base/test_skiplist.cpp:152-209 | every level is a sub-list of the next denser one, for any coin flips |
| SkipSpec.BottomIsAll | src/base/test_skiplist.cpp:185-206 | the densest level is the whole list |
| SkipSpec.OnlyLevel | src/base/test_skiplist.cpp:185-206 | linking or unlinking a node on one level changes that level by that node and no other level |
| SkipSpec.LevelSplits | src/base/test_skiplist.cpp:164-183 | on every level the nodes below a value come before the others, and they are the ones the whole list has in front of the value's place |
| SkipSpec.HelpIsOnNext | src/base/test_skiplist.cpp:118-124 | the last node passed on one level is passed on the next, so the search may go on from it |
| SkipSpec.OneMoreOrFewer | src/base/test_skiplist.cpp:152-227 | an entry put in changes the multiset of the densest level by exactly its value |
| SkipSpec.OneFewer | src/base/test_skiplist.cpp:211-227 | and so does an entry left out |
| SkipLists.Splice | src/base/test_skiplist.cpp:187-202 | four pointer writes put a node behind a cell, and every back link names the cell that holds its node |
| SkipLists.Unsplice | src/base/test_skiplist.cpp:214-221 | the writes through the back link take the node out and leave every other back link right; an unlinked level is not touched |
| SkipLists.SkipList.Walk | src/base/test_skiplist.cpp:125-137 | on one level the walk stops at an equal node, or knows there is none and leaves the last smaller node in help_ptr |
| SkipLists.SkipList.Descend | src/base/test_skiplist.cpp:112-141 | all levels: help_ptr holds on each level the node behind which the value belongs; a search that finds nothing has no equal node to find |
| SkipLists.SkipList.Search | src/base/test_skiplist.cpp:143-145 | membership in the whole list |
| SkipLists.SkipList.Raise | src/base/test_skiplist.cpp:186-202 | one level of the insertion: that level gains the node, all levels stay linked both ways |
| SkipLists.SkipList.LinkUp | src/base/test_skiplist.cpp:184-206 | the node reaches the first level whose flip says stop, or the sparsest |
| SkipLists.SkipList.Insert | src/base/test_skiplist.cpp:152-209 | the new node stands before the first entry that is not smaller, at the height the flips give, and the multiset of the densest level gains exactly its value |
| SkipLists.SkipList.Lower | src/base/test_skiplist.cpp:214-221 | one level of the removal |
| SkipLists.SkipList.LinkOut | src/base/test_skiplist.cpp:211-227 | the node leaves every level it is on, and the other entries stay |
| SkipLists.SkipList.Remove | src/base/test_skiplist.cpp:211-227 | one equal entry goes, exactly if there is one, and the multiset of the densest level loses exactly its value |
| Heap.StepDown | src/base/heap.c:40-63 | letting the smaller child rise moves the only possible disorder down with the hole |
| Heap.StepUp | src/base/heap.c:85-94 | letting the parent sink moves the only possible disorder up |
| Heap.TopIsLeast | src/base/heap.c:252-255 | the top of a heap is a least value |
| Heap.TopRemoved | src/base/heap.c:285-292 | putting the last value at the top removes exactly the old top from the multiset and leaves only the new top out of order |
| Heap.SortStep | src/base/heap.c:310-326 | one round of sorting keeps a heap in front and the rest in descending order behind it |
| Heap.PermutedBound | src/base/heap.c:310-326 | a bound on a prefix survives its permutation |
| Heap.Turning | src/base/heap.c:328-338 | descending values turned round ascend and are a heap |
| Heap.AdjustHeap | src/base/heap.c:25-66 | sifting down restores heap order and permutes the prefix alone |
| Heap.AdjustHeapAppend | src/base/heap.c:71-97 | sifting up restores heap order and permutes the prefix alone |
| Heap.HeapSort | src/base/heap.c:302-342 | a heap becomes a permutation of itself in ascending order that is still a heap |
| Heap.ReverseFirst | src/base/heap.c:328-338 | the prefix is turned round in place |
| Heap.Heap.Value | src/base/heap.c:209-225 | out of range exactly from the used length on; at index 0 a least value |
| Heap.Heap.Expand | src/base/heap.c:115-146 | the new length is the size times 1.1, in whole values, however the product of doubles is rounded; that makes room, given the least size of 128, and keeps the values |
| Heap.Heap.Add | src/base/heap.c:227-250 | the multiset gains that value; it fails exactly when full and without memory, and then nothing changes |
| Heap.Heap.ReplaceTop | src/base/heap.c:257-272 | the old top goes and the value comes; an empty heap just gains it |
| Heap.Heap.DeleteTop | src/base/heap.c:274-300 | returns a least value and removes it alone; fails exactly when empty |
| Heap.Heap.Sort | src/base/heap.c:302-342 | the same multiset, ascending, still a heap |
| CodingSpec.Code64 | src/base/base_coding.c:39-55 | inverts the base64 alphabet and refuses every other byte |
| CodingSpec.Code32 | src/base/base_coding.c:60-71 | inverts the base32 alphabet and refuses every other byte |
| CodingSpec.Code16 | src/base/base_coding.c:76-87 | inverts the base16 alphabet and refuses every other byte |
| CodingSpec.OctetsAre | src/base/base_coding.c:138-244 | cutting a group's number into octets gives back the octets |
| CodingSpec.DigitsAre | src/base/base_coding.c:89-136 | cutting a group's number into digits gives back the digits |
| CodingProofs.GroupRoundTrip | src/base/base_coding.c:89-244 | a group of any length decodes to itself with its padding |
| CodingProofs.RoundTrip | src/base/base_coding.c:89-556 | decoding an encoding gives back every byte string, in all three bases |
| CodingProofs.RoundTripInBuffer | src/base/base_coding.c:218-231 | in the decoder's buffer the data is followed by a NUL |
| CodingProofs.AcceptsExactly | src/base/base_coding.c:138-556 | decoding accepts whole groups of letters with a legal padding at the end, and nothing else; the error says which of the two failed |
| CodingProofs.LegalPaddings | src/base/base_coding.c:194-229 | legal paddings are 0 to 2 characters in base64, 0, 1, 3, 4 or 6 in base32, none in base16 |
| CodingProofs.GroupLeftover | src/base/base_coding.c:402-435 | the byte after a padded group's data is zero exactly if its unused bits are |
| CodingProofs.ReencodesIfCanonical | src/base/base_coding.c:89-556 | encoding what an accepted text decodes to returns the text if and only if its unused trailing bits are zero |
| CodingProofs.EncodingIsCanonical | src/base/base_coding.c:89-495 | the encoder leaves no unused bit set |
| CodingProofs.AcceptedButNotReturned | src/base/base_coding.c:194-229 | "QR==" is accepted, and encoding what it decodes to gives another text |
| CodingProofs.EncodedLength | src/base/base_coding.c:98 | the buffer size computed up front is the length of the encoding |
| CodingBits.CharIsInTable64 | src/base/base_coding.c:20-22 | every base64 letter is the one table 1 of RFC 4648 prints for its code |
| CodingBits.CharIsInTable32 | src/base/base_coding.c:25-26 | every base32 letter is the one table 3 of RFC 4648 prints for its code |
| CodingBits.CharIsInTable16 | src/base/base_coding.c:29-30 | every base16 letter is the one table 5 of RFC 4648 prints for its code |
| CodingBits.FullGroup | src/base/base_coding.c:89-495 | a full group of octets and the digits it is cut into are the same bits |
| CodingBits.DecodedBits | src/base/base_coding.c:138-556 | the bits of what an accepted text decodes to are the first bits of its letters, and less than one letter's bits are left over |
| CodingBits.EncodedBits | src/base/base_coding.c:89-495 | the letters of an encoding spell the bits of the data and fewer zeros than one letter holds |
| CodingBits.EncodedText | src/base/base_coding.c:89-495 | every letter of an encoding is the printed table's letter for the next bits of the data, zeros fill the last one, and nothing but '=' follows up to the computed length |
| BaseCoding.Spell64 | src/base/base_coding.c:109-128 | the shifts and masks spell the group as section 4 of RFC 4648 cuts it |
| BaseCoding.Encode64 | src/base/base_coding.c:89-136 | the buffer is the encoding followed by NUL, every write in bounds |
| BaseCoding.Take64 | src/base/base_coding.c:174-192 | the loop body accepts exactly four letters and puts their three octets together |
| BaseCoding.Last64 | src/base/base_coding.c:194-226 | the last group is accepted with its padding, and yields its data and what is left over |
| BaseCoding.Decode64 | src/base/base_coding.c:138-244 | NULL with the right error, or a buffer with the data, the leftover and the NULs in place |
| BaseCoding.Spell32 | src/base/base_coding.c:266-307 | the five tails and the padding loop spell the group as section 6 of RFC 4648 cuts it |
| BaseCoding.Encode32 | src/base/base_coding.c:246-315 | the buffer is the encoding followed by NUL |
| BaseCoding.Take32 | src/base/base_coding.c:353-389 | accepts exactly eight letters and puts their five octets together |
| BaseCoding.Last32 | src/base/base_coding.c:391-445 | the nested cases accept exactly the five paddings |
| BaseCoding.Decode32 | src/base/base_coding.c:317-463 | NULL with the right error, or a buffer with the data, the leftover and the NULs in place |
| BaseCoding.PaddedFrom | src/base/base_coding.c:218-226 | nothing but padding from a position on |
| BaseCoding.Encode16 | src/base/base_coding.c:465-495 | the buffer is the encoding followed by NUL |
| BaseCoding.Take16 | src/base/base_coding.c:534-540 | accepts exactly two letters and puts their octet together |
| BaseCoding.Decode16 | src/base/base_coding.c:497-556 | NULL with the right error, or exactly the data and a NUL |
| DequeSpec.PushAppends | src/base/base_dequeue.c:166-192 | a push appends its value unless memory is missing; the front stops seeing values exactly if it did not see them before or an empty unit at the capacity is left behind |
| DequeSpec.PushFrontPrepends | src/base/base_dequeue.c:231-257 | mirror image, at index 0 |
| DequeSpec.PopTakesLast | src/base/base_dequeue.c:194-226 | takes the last value, and fails exactly on an empty queue or behind an empty end unit |
| DequeSpec.PopFrontTakesFirst | src/base/base_dequeue.c:259-291 | mirror image |
| DequeSpec.EmptyExactly | src/base/base_dequeue.c:293-308 | one unit with equal indexes means no values, and conversely, in every reachable state |
| DequeSpec.RightExactly | src/base/base_dequeue.c:166-291 | every answer is that of a sequence, except exactly that of a pop whose end unit is empty before others |
| DequeSpec.CarefulRunsAreRight | src/base/base_dequeue.c:166-291 | a run that never pushes at the boundary of an empty queue is a run of a sequence |
| DequeSpec.CreatedInTheMiddle | src/base/base_dequeue.c:80-139 | a new queue, of capacity 20 at least, starts in the middle of its unit and has room at both ends |
| DequeSpec.HalfAtEachEndIsRight | src/base/base_dequeue.c:80-291 | with at most half the capacity pushed at the front of a new queue and at most the other half at its end, whatever is popped in between, a run is a run of a sequence and stays in one unit |
| DequeSpec.OnePushMoreIsWrong | src/base/base_dequeue.c:80-291 | with one push more at the end there is a run that is answered wrongly |
| DequeSpec.CarelessPushMisleads | src/base/base_dequeue.c:176-185 | after one that does, the opposite pop finds nothing although the value is there |
| DequeSpec.BoundaryIsReached | src/base/base_dequeue.c:166-291 | pushing and popping one value at a time reaches the boundary from any empty queue |
| DequeSpec.ChainIsShort | src/base/base_dequeue.c:210-219 | all units but two are full |
| DequeSpec.UnitsAreKept | src/base/base_dequeue.c:56-112 | no unit is lost: a full end takes a recycled one, and a new one exactly if there is none, and an emptied unit is recycled |
| DequeUnits.DeQueue.Take | src/base/base_dequeue.c:64-78 | a unit comes off the free list, or is new if that is empty, and is reset |
| DequeUnits.DeQueue.GrowEnd | src/base/base_dequeue.c:56-112 | a unit is linked at the end; live and recycled units stay apart |
| DequeUnits.DeQueue.GrowFront | src/base/base_dequeue.c:56-112 | a unit is linked in front with its indexes at the capacity |
| DequeUnits.DeQueue.Push | src/base/base_dequeue.c:166-192 | the linked units become those of DequeSpec.Push: the values gain that one at the end unless memory is missing |
| DequeUnits.DeQueue.PushFront | src/base/base_dequeue.c:231-257 | the values gain that one in front unless memory is missing |
| DequeUnits.DeQueue.Pop | src/base/base_dequeue.c:194-226 | gives back the last value and loses it, or finds nothing exactly on an empty queue or behind an empty end unit; an emptied unit goes to the free list |
| DequeUnits.DeQueue.PopFront | src/base/base_dequeue.c:259-291 | the same for the first value and an empty front unit |
| DequeUnits.DeQueue.IsEmpty | src/base/base_dequeue.c:293-308 | true exactly if the queue holds no value |

## Left out

- Timed requests and `rqWakeUpAllWaitingThread` (src/port/resource_queue.c:745-879, 965-992): they depend on a clock, and a timeout can race with a grant already made.
- Destroying a hash table beyond the mapping it begins with, finding with an item lock, and the counting of collisions.
- `src/storage`: unfinished and file-backed.
- `src/base/stack.c`, `src/base/queue.c`, `src/base/b64.c`, `src/base/base_string.c` and the helpers under `src/common`: thin wrappers around the parts modelled here, second versions of them, and short functions without state.
- Files, threads, environment and error manager, and the USE_234_TREE build of the red-black tree.
- Progress of the lock-free protocols under contention, weak memory and spurious condition-variable wake-ups: memory is sequentially consistent, and that a call comes to its end is claimed only of calls that run alone.
- Machine integers are unbounded, except that a hash table's counts are words that wrap, and a table is assumed to hold fewer keys than a word can count; lengths near 2^64 in the codecs are not modelled.
- RwLock.EveryInterleaving: a thread holds the lock at most once and gives back only what it holds; recursive read holds are not modelled.
- FreeList.EveryInterleaving: the function that allocates a block is modelled as in the two callers, building a chain of new nodes and linking it; blocks themselves are not.
- Red-black nodes and resource-queue entries come from and go back to their free lists in the source; in the trees and rings they are simply new or dropped, and FreeList.dfy models the lists.
- ResourceQueue.ResourceQueue.RequestResource: a call is one step under the mutex, and waiting for the condition variable is the time until the entry is moved to the holders; memory for the entry is taken as granted.
- HashSpec.StoredButRefusedExactly: the test of src/base/base_hash.c:141 divides doubles and is multiplied out here. As collision_count is 0 or, by a removal, just below 2^64, and the items are at least one, both come out alike unless about 2^63 removals were made.
- HashTable.HashTable.Insert: a chain is a sequence in its bucket, so next pointers, node locks and the free list of nodes are not captured; other threads appear only as try-locks that fail; `free_func_p` is not called.
- HashTable.HashTable.Find: keys are taken as what the comparator can tell apart, so equal means same.
- HashTable.HashTable.Map: the caller's function succeeds or fails on a pair; what else it does, and the node locks around it, are not modelled.
- SkipLists.SkipList.Insert: a link and the cell it holds are one object, so a back pointer to a cell is a reference to the link; freeing a node is forgetting it.
- BaseCoding.Decode64: here and in Decode32, within a group the bytes are put together in variables before they are stored; a buffer that is discarded on an error is the same either way.
- DequeUnits.DeQueue.Push: the buffer at the end of a unit is a sequence in its field, and the spin lock around each call makes it one step.
