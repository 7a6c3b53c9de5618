# Verified key-value trees and checksum

A Dafny 4.11 model of the four data structures at the heart of the repository, with proofs.

* `critnib.c` — a 16-way path-compressed radix tree with lock-free readers and a grace period of 16 removes.
* `tcradix.c` — a 16-level radix tree whose nodes cache "the only entry below me", read under a sequence lock.
* `critbit.c` — a crit-bit tree that looks at the lowest bit first and allocates leaf and future inner node together.
* `util.c` — two Fletcher64 loops.

## How it is modelled

Keys are digit vectors (`Digits`): sixteen nibbles for critnib and tcradix, sixty-four bits in reversed order for
critbit. `KeyBits` proves on 64-bit words that the C expressions (`path_mask`, `slice_index`, the most significant set
bit rounded down to a nibble, `x & -x`, `bit - 1`, `<`) are the digit operations, and `RadixWords` that a node given
by the words of the C struct takes the same turns and gets the same forks as its model. A node's `shift` or `bit` is
stored as the number of its digit. Ids stand for addresses, maps from ids to records for memory.

critnib and critbit share `RadixTree` (a tree invariant that speaks of one node and its children at a time, and the
blind dive), `RadixUpdates` (one lemma per store) and `RadixParts` (subtrees and free lists).

The concurrent critnib is a transition system (`CritnibModel`): one writer, whose insert or remove is cut at each
shared store, and any number of readers, whose every load is a step. An action list of any length and content is a
run. `CritnibInv`, `CritnibReaders`, `CritnibQuiet`, `CritnibStores` and `CritnibBound` hold the invariant and one
lemma per step, `CritnibRuns` and `CritnibHistory` the theorems over all runs. `CritnibCalls` says what a call
returns in terms of the action that starts it, `CritnibProgress` that calls end, `CritnibStale` exactly which lone
readers do; `CritnibWitness` holds runs that the theorems are about. `CritnibClass` is the imperative form of
`critnib_insert`, `critnib_remove`, `critnib_get` and `critnib_find_le`; it records the actions of a run, and each
of its stores is the next one, so what is proved of runs holds of its code. `CritnibDelete` is the teardown.

`TcTree`, `TcLook` and `TcRadix` are the sequential tcradix, `TcSeqlock` its read protocol, in which a writer may
store anything until its tree is right again. `TcCalls` says when a get waits, when it returns and what it answers,
`TcTorn` when an early answer is right. Each store of class `TcRadix` is a step of that system, and `TcJoin` adds
the readers. `CritbitTree` and `Critbit` are critbit, `Checksum` is the checksum pair.

Parameters in place of the outside world: what malloc answers (an id, or failure), and the order of steps. Atomics are
taken as sequentially consistent, the mutex as mutual exclusion, counters as unbounded.

## Model

| member | source | states |
|---|---|---|
| `CritnibRuns.GetIsCurrent` | critnib.c:539-566 | for every run, the answer a finished `critnib_get` gives is the lookup of its key in the abstract map at some instant between its call and its return |
| `CritnibCalls.GetAnswersItsCall` | critnib.c:97-103 | for every run and every StartGet(r, key) in it: once that get has returned, its answer is the lookup of that key in the map after some prefix of the run that contains the start |
| `CritnibCalls.WorksOn` | critnib.c:539-545 | until the next StartGet of the same reader, the reader works on the key of the action that started it, and its call is the instant of that action |
| `CritnibCalls.CallReturns` | critnib.c:350-527 | for every run: if an enabled StartRemove(key) is at i and the mutex is next free at j, it returned the lookup of key in the map at i and the map at j is that map without key; if an enabled StartInsert(key, value) is, it returned 0 for an absent key and the map has the entry, or EEXIST for a present one, or ENOMEM, and the map is the same |
| `CritnibCalls.ShortOfMemory` | critnib.c:353-404 | an insert returns ENOMEM only if neither pool nor malloc had a leaf when it began, or the key was absent and neither had a node when it asked |
| `CritnibCalls.DuplicateIsRefused` | critnib.c:353-404 | an insert of a present key that got a leaf returns EEXIST |
| `CritnibProgress.TimelyGetFinishes` | critnib.c:545-565 | from every state of every run, whatever step the writer stopped at, a get whose snapshot is less than 16 removes old returns within 37 loads of its own, in the attempt it is in |
| `CritnibProgress.StaleGetFinishes` | critnib.c:545-565 | an older one does within 74 loads, unless the node it holds was recycled |
| `CritnibProgress.LoneGet` | critnib.c:539-566 | a get that no writer step interrupts returns the lookup of its key within 37 loads and changes nothing |
| `CritnibProgress.WriterFinishes` | critnib.c:350-527 | the operation under way ends within the number of steps that its state determines, whatever malloc answers |
| `CritnibProgress.CallCompletes` | critnib.c:350-527 | an insert or remove begun with the mutex free returns within 40 steps of its own what its arguments ask for |
| `CritnibStale.ReturnsIffTimely` | critnib.c:545-565 | for every d: with the writer at rest, every get that is d removes behind its snapshot returns by itself, if and only if d is below 16 |
| `CritnibStale.StuckBehind` | critnib.c:545-565 | for every d from 16 on there is a run, writer at rest, in which a get that is d removes behind its snapshot goes round two recycled nodes for good: through the free list's link in child[0] and back through a pointer left over from the tree |
| `CritnibWitness.OverlappedGet` | critnib.c:97-103 | for every key and value there is a run in which a get that overlaps a remove returns the removed value although the key is absent when it returns: an answer is current within the call, not at its end |
| `CritnibRuns.RunInv` | critnib.c:350-566 | every state of every run satisfies the invariant and is ready for its next step |
| `CritnibRuns.StepInv` | critnib.c:350-566 | every step of writer and readers, in any order, keeps the whole invariant: tree, unlinked objects, rings, pools, history, and what each reader knows |
| `CritnibRuns.GracePeriod` | critnib.c:448-452 | while fewer than 16 removes began since snapshot w, what a reader holds is linked or was unlinked by remove w-1 or later, and is neither pooled nor being reused |
| `CritnibRuns.RecycledWhenDue` | critnib.c:448-452 | what a remove recycles while the counter stands at c was unlinked by remove c-17, and no timely reader holds it |
| `CritnibWitness.HeldWhenDue` | critnib.c:448-452 | the grace period is no longer than needed: there is a run in which a reader with snapshot w holds a leaf at the moment it is recycled and overwritten, with the counter at w+16 |
| `CritnibRuns.NothingOverwritten` | critnib.c:275-338 | no writer step changes key or value of a leaf, path or shift of a node, that a reader holds, unless it makes that reader stale; free_node and free_leaf leave all of a held node alone, child[0] included |
| `CritnibRuns.HeldPointersSound` | critnib.c:87-93 | in every reachable state every pointer of every reader, stale or not, is NULL or a correctly tagged, owned object with 16 slots and a shift in range |
| `CritnibRuns.TimelyProgress` | critnib.c:556-557 | a timely attempt loads at most 16 inner nodes, and its load from a node gives NULL, a leaf or a node with a smaller shift than the one it is at, even if that one was unlinked or another spliced in |
| `CritnibRuns.Conservation` | critnib.c:283-338 | between operations an object is allocated exactly if it is reachable from the root, in a ring or on a free list, and it is in only one of these |
| `CritnibRuns.MemoryBound` | critnib.c:297-338 | leaves ever allocated are at most 17, inner nodes at most 16, more than the keys held at some instant so far |
| `CritnibRuns.PeakReached` | critnib.c:350-527 | the peak used by the bound is the size of one of the abstract maps of the run |
| `CritnibRuns.WritesAreMapSteps` | critnib.c:350-527 | in every run each writer step, the start included, leaves the map alone or is the one step that inserts or removes the key, with the return value that belongs to it (0, EEXIST exactly on a present key, ENOMEM, the removed value, NULL); an insert returns in its first step exactly if there is no leaf to be had, a remove exactly if the tree is empty |
| `CritnibRuns.NodeShortage` | critnib.c:394-404 | where an insert runs out of nodes the key is absent, the pool is empty and malloc gave none |
| `CritnibRuns.StopsAbsent` | critnib.c:376-397 | where the dive of an insert stops at another label the key is absent |
| `CritnibHistory.ShapeDependsOnKeys` | critnib.c:394-426 | any two runs that end idle with the same keys end with the same tree of shifts, paths and slots |
| `CritnibHistory.UndoInsert` | critnib.c:498-522 | removing a key that was just inserted gives back its value, the map and the shape of the tree |
| `CritnibShape.SameKeysSameShape` | critnib.c:408-425 | two trees that satisfy the invariant and hold the same keys have the same shape |
| `CritnibReaders.ReaderKept` | critnib.c:539-566 | a writer step that keeps the protocol keeps what every reader relies on |
| `CritnibReaders.ReaderStepOk` | critnib.c:545-563 | each load of a reader keeps what it relies on; a timely one keeps its key reachable or has seen it absent |
| `CritnibQuiet.StopReason` | critnib.c:394-398 | equal labels mean a leaf: the assertion in insert never fails |
| `CritnibStores.ScanDecides` | critnib.c:500-517 | if some child is left, there is one only child or there are two: the assertion in remove never fails |
| `CritnibBound.FewerNodes` | critnib.c:112-131 | a tree has fewer inner nodes than leaves |
| `CritnibBound.LeafBound` | critnib.c:328-338 | with an empty pool, leaves are at most the keys plus 16 |
| `CritnibBound.NodeBound` | critnib.c:298-308 | with an empty pool, inner nodes are fewer than the keys plus 16 |
| `CritnibClass.Critnib.constructor` | critnib.c:214-224 | an empty map and a valid state |
| `CritnibClass.Critnib.Insert` | critnib.c:350-431 | 0: the key was absent and is stored; EEXIST: it was present and the map is unchanged; ENOMEM: the map is unchanged, and neither pool nor malloc had a leaf, or the key is absent and neither had a node; with no leaf to be had always ENOMEM; the invariant is kept |
| `CritnibClass.Critnib.DiveToInsert` | critnib.c:376-383 | ends at NULL, a leaf, or the first node whose path differs, with the place that points at it |
| `CritnibClass.Critnib.Remove` | critnib.c:436-527 | returns the value of the key and removes exactly its entry; the invariant is kept |
| `CritnibClass.Critnib.Scan` | critnib.c:500-515 | the slot of the only child, or -1 if there are two |
| `CritnibClass.Critnib.TakeLeaf` | critnib.c:327-338 | alloc_leaf: with a leaf in the pool that leaf comes out, whatever malloc would answer; else malloc's block; NULL exactly if there is neither |
| `CritnibClass.Critnib.TakeNode` | critnib.c:297-308 | alloc_node: with a node in the pool that node comes out, whatever malloc would answer; else malloc's block; NULL exactly if there is neither |
| `CritnibClass.Critnib.GiveLeaf` | critnib.c:315-322 | free_leaf: the leaf heads the pool |
| `CritnibClass.Critnib.GiveNode` | critnib.c:283-292 | free_node: the node heads the pool |
| `CritnibClass.Critnib.Recycle` | critnib.c:448-452 | bumps the counter, recycles the ring slot of this remove, leaves the map alone |
| `CritnibClass.Critnib.Get` | critnib.c:539-566 | the blind dive equals the map lookup for every key |
| `CritnibClass.Critnib.FindLe` | critnib.c:661-676 | NULL if no stored key is small enough; else the value of the greatest such key if that is not NULL, and NULL or the value of a smaller key if it is; so without NULL values NULL exactly if there is no such key |
| `CritnibFindLe.FindLe` | critnib.c:592-654 | the same below any linked node, with the left and right decision off the path |
| `CritnibFindLe.FindLeft` | critnib.c:636-653 | the first occupied slot to the left gives the answer when the path gives none |
| `CritnibFindLe.FindSuccessor` | critnib.c:571-587 | the value of the greatest key of the subtree |
| `CritnibDelete.Heap.DeleteNode` | critnib.c:229-242 | frees exactly the subtree, each object while it is still allocated |
| `CritnibDelete.Heap.DeleteNodePool` | critnib.c:255-259 | frees exactly the pooled nodes |
| `CritnibDelete.Heap.DeleteLeafPool` | critnib.c:261-265 | frees exactly the pooled leaves |
| `CritnibDelete.Heap.DeleteRings` | critnib.c:267-270 | frees what waits in the rings, each once |
| `CritnibDelete.Heap.Delete` | critnib.c:247-273 | no object is left and none is freed twice, although unlinked nodes point into live subtrees |
| `RadixTree.DiveDecides` | critnib.c:551-561 | a dive that looks at one digit per node and at the key once, at its end, equals the lookup, for present and absent keys |
| `RadixTree.Climb` | critnib.c:478-489 | a key that agrees with a linked object's label is led from the root to it |
| `RadixTree.OnPath` | critnib.c:113-117 | a linked node whose path agrees with a linked object's label leads to that object |
| `RadixUpdates.Splice` | critnib.c:407-426 | storing the new fork keeps the tree and adds exactly the new key, which was absent |
| `RadixUpdates.FillSlot` | critnib.c:385-391 | storing the leaf in an empty slot keeps the tree and adds exactly the new key, which was absent |
| `RadixUpdates.PlantRoot` | critnib.c:367-374 | the first leaf becomes the tree |
| `RadixUpdates.Cut` | critnib.c:498-498 | the NULL store removes exactly the leaf's key and leaves one node that may be thin |
| `RadixUpdates.Relink` | critnib.c:517-519 | handing the node's place to its only child keeps the tree and all keys |
| `KeyBits.PathTest` | critnib.c:379-379 | the masked comparison of words is the comparison of masked digit vectors |
| `KeyBits.PathMaskClears` | critnib.c:196-200 | `key & path_mask(shift)` clears the digits at and below the node's own |
| `KeyBits.MssbIsTopDiff` | critnib.c:395-408 | the shift of a new node addresses the highest digit where path and key differ |
| `KeyBits.OutOfPath` | critnib.c:604-611 | the shifted exclusive-or is non-zero exactly if the key leaves the node's path |
| `KeyBits.KeyOrder` | critnib.c:601-616 | the order of words is the order of digit vectors |
| `KeyBits.SameKey` | critnib.c:492-492 | equality of words is equality of digit vectors |
| `KeyBits.Mssb` | util.h:260-260 | the index of the most significant set bit of a non-zero word |
| `KeyBits.LowestDiff` | critbit.c:138-138 | `x & -x` of the exclusive-or is the first bit, from below, where two words differ |
| `KeyBits.LowTest` | critbit.c:131-131 | the comparison under `bit - 1` is the comparison of masked digit vectors |
| `KeyBits.LowMask` | critbit.c:148-148 | `key & (bit - 1)` keeps the bits below the node's own |
| `KeyBits.BitSelects` | critbit.c:133-133 | `!!(bit & key)` is the key's digit at the node |
| `KeyBits.SameBits` | critbit.c:208-208 | equality of words is equality of bit vectors |
| `RadixWords.SameTurn` | critnib.c:379-381 | a node given by the words path and shift lets a dive go on, and picks the slot, as its digit-vector node does |
| `RadixWords.SameFork` | critnib.c:395-425 | the words that insert stores into a new node stand for the fork of the model, and the children go into its slots |
| `RadixWords.SameSide` | critnib.c:611-616 | find_le leaves the path, and to which side, alike on words and digits |
| `RadixWords.SameBitTurn` | critbit.c:131-133 | the same turn for a node given by path and bit |
| `RadixWords.SameBitFork` | critbit.c:138-148 | the same fork for a node given by path and bit |
| `RadixWords.DuplicateIsNoFork` | critbit.c:138-148 | for a key that is there already the new node gets bit 0 and the key as path, that is, it is a leaf |
| `TcRadix.TcRadix.constructor` | tcradix.c:48-60 | an empty map and a valid state |
| `TcRadix.TcRadix.Insert` | tcradix.c:215-239 | the map with the entry stored or overwritten, for every key including 0 and the all-ones key; a NULL value changes nothing; otherwise the stores are one writer section of the seqlock system, which ends with this map and write_status even |
| `TcRadix.TcRadix.InsertAt` | tcradix.c:184-213 | the nodes at and below n become right for the map with the entry; nothing else is written |
| `TcRadix.TcRadix.InsertChild` | tcradix.c:147-182 | the child for the key takes it, or a new child does; the other slots and only_key stay |
| `TcRadix.TcRadix.NewChild` | tcradix.c:156-178 | a new child at a free position represents exactly the entry; unless the key is 0 it is compressed, with no node below it |
| `TcRadix.TcRadix.MakeRoom` | tcradix.c:198-210 | materialising another only entry keeps the represented map; the node then has a child for every entry; the same only entry is overwritten in place and stays compressed |
| `TcRadix.TcRadix.Remove` | tcradix.c:284-295 | returns the value or NULL, and removes exactly that entry; the stores are one writer section of the seqlock system |
| `TcRadix.TcRadix.Store` | tcradix.c:144-282 | every store into a node is a step of the seqlock system |
| `TcRadix.TcRadix.Enter` | tcradix.c:223-224 | the first write_poke is the step that makes write_status odd |
| `TcRadix.TcRadix.Leave` | tcradix.c:232-233 | the second write_poke is the step that ends the section; the tree is right then |
| `TcRadix.TcRadix.RemoveAt` | tcradix.c:241-282 | the nodes at and below n become right for the map without the key; an occupied node reports empty exactly if nothing is left below it |
| `TcRadix.TcRadix.RemoveBottom` | tcradix.c:253-263 | the same at level 0, where only_key may be stale in its value but not in its key |
| `TcRadix.TcRadix.RemoveBelow` | tcradix.c:265-281 | the same above level 0; a node that keeps its only_key is not written |
| `TcRadix.TcRadix.Unlink` | tcradix.c:271-278 | an empty child goes to the free list, zeroed but for its link |
| `TcRadix.TcRadix.AllocNode` | tcradix.c:127-142 | a node from the free list if there is one, else from malloc, zeroed and unlinked |
| `TcRadix.TcRadix.Get` | tcradix.c:361-391 | the map's value for every key, NULL if there is none |
| `TcRadix.TcRadix.Teardown` | tcradix.c:89-108 | frees exactly the nodes at and below n, each while it is still allocated |
| `TcRadix.TcRadix.DeletePool` | tcradix.c:113-118 | frees exactly the free list |
| `TcRadix.TcRadix.Delete` | tcradix.c:110-124 | nothing is left, although one slot is followed at compressed nodes |
| `TcLook.LookRight` | tcradix.c:303-318 | the GETL steps from any linked node find the map's value for every key below that node |
| `TcLook.CacheAgreement` | tcradix.c:147-213 | a node above level 0 with non-zero only_key, other than the root before the first insert, represents exactly that entry; its one possible child sits in that key's slot and represents the same entry |
| `TcLook.Bookkeeping` | tcradix.c:253-281 | nchildren counts the occupied slots, and every node but the root represents something |
| `TcTree.Materialised` | tcradix.c:204-208 | once the only entry has its child, only_key can be cleared |
| `TcTree.BlankTest` | tcradix.c:225-225 | the test for TOP_EMPTY with no children holds exactly before the first insert, also when the all-ones key is stored |
| `TcTree.Emptied` | tcradix.c:268-281 | a node that represents nothing has no children, no only entry and no node below it |
| `TcSeqlock.ValidatedIsCurrent` | tcradix.c:329-358 | for every interleaving, a value returned through the validated exit is not NULL and is the map's value for the key in a state with no writer active between call and return |
| `TcCalls.ValidatedAnswersItsCall` | tcradix.c:361-391 | for every run and every StartGet(r, key) in it: a value returned through the validated exit is that of this key in the map at an instant since that action with no writer active |
| `TcCalls.WaitsWhileOdd` | tcradix.c:337-342 | a reader without a snapshot neither returns nor loads anything of the tree while write_status is odd |
| `TcCalls.LoneGet` | tcradix.c:361-391 | from every run with write_status even: a get of any key, stored or not, that no writer interrupts returns within 34 loads, by either exit, with the map's value; if key 0 is stored, by the validated exit |
| `TcCalls.UntouchedPath` | tcradix.c:329-391 | a get none of whose path nodes is stored into since its call is never lost and answers by either exit with the map's value for its key, which is the same whenever no writer is active, however many writers came and went |
| `TcTorn.EarlyRightIffCalm` | tcradix.c:303-318 | for every d: each early return that write_status has moved by d since its snapshot gives the value the key had at some time of the call, if and only if d is 0 |
| `TcTorn.TornRead` | tcradix.c:303-318 | for every such d above 0 there is a run in which a get of a key that is never stored returns the value of another key, read from only_val after only_key was compared; for d = 1 the writer is the first insert between its stores of only_val and only_key |
| `TcSeqlock.EarlyWhileCalm` | tcradix.c:308-317 | an early return is right if write_status still is the snapshot at its last load |
| `TcSeqlock.CalmNeverLost` | tcradix.c:303-318 | while its snapshot is current a reader follows nothing but nodes |
| `TcSeqlock.StepInv` | tcradix.c:62-65 | every step of writer and readers keeps the invariant, the writer storing anything until its tree is right again |
| `TcSeqlock.MapsOk` | tcradix.c:215-295 | successive maps differ by one insert or remove and hold no NULL |
| `TcJoin.ReadersDoNotDisturb` | tcradix.c:325-391 | whatever readers do in between, nodes, write_status and maps are those of the writer's own run |
| `TcJoin.ValidatedFromTree` | tcradix.c:215-391 | in any interleaving of readers with the inserts and removes of the tree, a validated value is that of the key in one of the maps these operations produced |
| `TcJoin.ZeroValidated` | tcradix.c:337-358 | an undisturbed get of key 0, if stored, leaves by the validated exit |
| `TcJoin.ValidatedExit` | tcradix.c:215-391 | there is a run of the tree's own operations with a reader that leaves by the validated exit |
| `Critbit.Critbit.constructor` | critbit.c:37-48 | an empty map and a valid state |
| `Critbit.Critbit.Insert` | critbit.c:105-152 | for an absent key: the map with the entry, or ENOMEM and no change |
| `Critbit.Critbit.DiveToInsert` | critbit.c:129-136 | ends at a leaf or at the first node whose path differs, with the place that points at it |
| `Critbit.Critbit.FillFork` | critbit.c:142-148 | the four stores make the second half of the block the fork of the model |
| `Critbit.Critbit.Graft` | critbit.c:138-149 | the second half of the new block becomes the fork and exactly the new key is added |
| `Critbit.Critbit.Remove` | critbit.c:154-192 | returns the value of the key and removes exactly its entry |
| `Critbit.Critbit.DiveToRemove` | critbit.c:172-180 | blindly down to a leaf, with the leaf's place and its node's place |
| `Critbit.Critbit.Take` | critbit.c:185-190 | the sibling takes the node's place and the leaf's block goes to the deleted list |
| `Critbit.Critbit.Get` | critbit.c:194-209 | the blind dive equals the map lookup for every key |
| `Critbit.Critbit.DeleteNode` | critbit.c:56-64 | every leaf below the node goes to the deleted list, once |
| `Critbit.Critbit.FreeBlocks` | critbit.c:71-79 | every block of the list is freed, and none twice |
| `Critbit.Critbit.Delete` | critbit.c:66-81 | no block is left |
| `CritbitTree.CriticalBit` | critbit.c:138-148 | a node's `bit` is the lowest bit where two keys below it differ, and `path` is what all keys below it have in common under that bit |
| `CritbitTree.PairedBlocks` | critbit.c:107-110 | every linked inner node lives in a block whose leaf is live or on the deleted list, and only one of these |
| `CritbitTree.Pruned` | critbit.c:185-188 | relinking the sibling keeps the tree and removes exactly the leaf's key |
| `CritbitTree.ShapeDependsOnKeys` | critbit.c:105-192 | two valid trees with the same keys have the same shape |
| `Checksum.ChecksumSeq` | util.c:155-170 | the lower half of the result is the lower half of csum plus the sum of the words, the upper half the upper half of csum plus the number of words times the lower half plus the sum of the words weighted by their distance from the end, both modulo 2^32; it is the fold of the words |
| `Checksum.ClosedForm` | util.c:163-169 | the two halves are the plain and the weighted sum of the words modulo 2^32 |
| `Checksum.Chained` | util.c:149-170 | over a concatenation: chaining over the two parts |
| `Checksum.RangeChecksum` | util.c:106-147 | insert stores, check compares, the checksum of the range with slot and skipped words taken as zero, for a slot before, in or after the range; a pair of skipped words that reaches beyond the range counts as two; the first word of the slot is the plain sum of the words taken, the second their weighted sum |
| `Checksum.RangeLoop` | util.c:127-138 | the loop with its pairwise skips computes that checksum, its two sums being the plain and the weighted sum of the words taken |
| `Checksum.InsertThenCheck` | util.c:142-147 | a check after an insert succeeds for every memory, skip_off and slot, unless the slot ends in the first word of the range |
| `Checksum.OverlappingSlot` | util.c:127-147 | if it does, the check succeeds exactly if that word already was the upper half of the checksum |
| `Checksum.OverlapFails` | util.c:127-147 | a buffer for which it does not |
| `Checksum.NoSkip` | util.c:120-138 | with skip_off 0 it is util_checksum_seq from 0 over the range with the slot zeroed |
| `Checksum.OneWordDetected` | util.c:96-105 | a range that checks stops checking when any one word that counts, outside the slot, is changed |

## Left out

- Concurrent `critnib_find_le`: critnib.c:100-102 promises it the guarantee of get; it loads several slots one after another, and the transition system has no such reader, so the promise is not examined. It is modelled on a tree that nobody is changing.
- tcradix early returns after write_status has moved: they skip the second read of write_status and can be wrong (TcTorn.TornRead); what is claimed of them is TcCalls.UntouchedPath.
- TcRadix.TcRadix.Insert: allocation does not fail, so ENOMEM is never returned, because the source leaves root.only_key and root.only_val set when it does.
- TcRadix.TcRadix.InsertAt: no error return, for the same reason.
- TcRadix.TcRadix.InsertChild: no error return, for the same reason.
- TcRadix.TcRadix.NewChild: no failed allocation and no teardown of a half-built child, for the same reason.
- TcRadix.TcRadix.MakeRoom: no error return, for the same reason.
- TcRadix.TcRadix.AllocNode: never NULL, for the same reason.
- Critbit.Critbit.Insert: only for absent keys, because for a present one the new node is no fork (RadixWords.DuplicateIsNoFork) and the tree no longer holds the key's value.
- Concurrent critbit reads: `free_node` overwrites a leaf's value at once.
- critnib-tag.c: an earlier near-copy of critnib.c.
- Weak memory ordering, mutex internals and wrap-around of remove_count and write_status.
- CritnibClass.Critnib.Insert: the mutex is not a member of the class; mutual exclusion is built into the transition system.
- Stores that only the writer can see (rings and pool heads) are part of the neighbouring shared step.
- Checksum.RangeChecksum: words are little-endian and the length is a multiple of four; the abort on other lengths is not modelled.
- tcradix and critbit `find_le`: not implemented in the source.
- Tests, benchmarks, dispatch tables, logging, tracing, memory counters, and the string, time and size helpers of util.c.
