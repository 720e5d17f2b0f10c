# TerichDB: a verified model of its containers, row visibility, record codec, JSON text and argument scanner

The project models six parts of TerichDB and proves what they are for.

1. **The threaded red-black tree** of `src/terark/threaded_rbtree.h`. A node is a cell in a pool; a missing child is a
   *thread* to the in-order neighbour. There are no parent links: insertion and removal climb a path stack of fixed
   length. Cells are a sequence that methods take and give back, the stack is an object with an array, and a ghost
   inductive tree says what the cells stand for (`Threads.Holds` fixes every bit of every cell of the tree). The two
   mirrored halves of every operation are one method with a side as parameter.
   `SortedContainers.SortedContainer` is the container object over such a tree.
2. **The hash table** of `src/terark/threaded_rbtree_hash.h`: many trees in one pool, rehashed in place.
3. **Row visibility** in `src/mongo_terichdb/terichdb_kv_engine.cpp`. `Visibility` is the specification, a state machine
   with no delete marks, clocks or records; `RowTables.ThreadSafeTable` is the code, an object proved to follow it step
   by step for every interleaving of recovery units. The recovery unit itself is the surroundings: it resolves changes
   in registration order to commit and in reverse to roll back (`src/mongo_terichdb/terichdb_recovery_unit.cpp:94-116`).
4. **The schema-less record codec** of `src/mongo_terichdb/record_codec.cpp`. `Bson` gives the bytes of a document by
   the BSON specification 1.1, `Codec` what the encoder writes and what the decoder makes of any bytes, and
   `RecordCoder` is the code: an output buffer, a moving position, and lengths filled in afterwards. `CodecSafety` says
   what comes out for bytes that no encoder wrote.
5. **JSON text** in `src/nlohmann/json.hpp`: dumping a value, with escaping into a buffer of precomputed size, and the
   scanner and recursive parser that read it back. `Json` gives the text and the parser as functions, `JsonStrings` the
   loops over the bytes of a string, and `JsonParser.Parser` is the object that advances from token to token. What the
   parser must do is told without it: `JsonPieces` and `JsonNumbers` define strings and numbers, `JsonGrammar` the texts
   of RFC 7159 as trees with their blanks, and `JsonAccepts` proves that exactly these are accepted, with exactly the
   meaning the trees have. The source takes three liberties, and the grammar has them: byte order marks are blanks,
   strings may hold the control bytes from 16 on, and a zero byte ends the input. `JsonLayout` proves which texts dumping
   writes.
6. **The argument permutation** of `3rdparty/getopt_win/getopt.c`, in place on an array.

Comparators, hash functions, load factors, bucket counts and the arity of options are parameters. A comparator is a
strict weak order, and equivalent keys hash alike.

## What is false, and exactly when

- *Storing a document and reading it back gives the same bytes.* Not for an array that holds nothing but undefined, null
  or largest keys unless no byte of the record follows it, nor for an array of nothing but smallest keys if none follows
  (its type byte is read back as 255 and misses the case it was meant for), nor for a DBRef with a zero byte in its name.
  `Codec.RoundTrip` has the condition in both directions; `Codec.ArraysLost` shows two documents that are lost.
- *A registered delete hides the row from its unit, and a rollback finds what it is to undo.* Not at the limits of the
  32-bit clock. `RowRuns.Replay` tells the clock of every unit at every moment of every legal schedule, and holds exactly
  up to the first registration at a limit: an insert as the 2^32-th since the unit was last idle, or a delete as the one
  before that, modulo 2^32 (`RowRuns.ReadyIsBelowLimit`). `RowTables.ThreadSafeTable.RegisterDelete` and `RegisterInsert`
  follow the specification if and only if the clock is not at its limit. `ClockLimits.ForgottenDelete` is the legal run of
  2^32 - 2 inserts and one delete after which the unit is shown the deleted row; `ClockLimits.LostRecord` is the legal
  run in which undoing an insert does not find its record, and `ClockLimits.InsertAndUndo` has the exact condition.
- *Nobody sees an insert before its commit.* The row is written first and marked afterwards, and in between every unit is
  shown it (`RowTables.ThreadSafeTable.WriteRow`). `Visibility.NoDirtyReads` is about schedules in which the two are one
  step.
- *An allocation that fails changes nothing.* An insertion into a multi-container takes its slot before it looks for the
  path. The slot is then in neither the tree nor the free list exactly if the path of the new slot is longer than the
  stack (`SortedContainers.InsertMulti`). `StackLimits.LoseSlot` is the smallest such case for every stack length; with
  48 entries it takes 3 * 2^24 - 2 elements (`Heights.PathsOf48`, `Heights.PathOf49`).
- *A removal stays inside the path stack.* It writes exactly `Removal.StackNeeded` entries: the path to the node, on to
  its successor, and one more if the first sibling there is red. `StackLimits.RemovalOverruns` is the smallest container,
  for every stack length, in which removing the root needs one entry more than there are; with 48 entries it has
  2^26 - 2 elements (`StackLimits.Spacious48`), and no smaller one has a removal that leaves the stack
  (`SortedContainers.SpaciousNeeds`).
- *Growing gives room for the next element.* Exactly if the rounded request is more than the old capacity
  (`HashTables.CheckGrow`), which holds whenever the byte count does not wrap (`HashTables.SteadyBelow`) and fails on an
  empty table with a load factor of 2^61 / 5 (`HashMaps.LoadTooHigh`).

- *Whatever bytes it is given, the decoder fails or puts out a well-formed document.* Not if a code with scope claims
  fewer than the four bytes of its own length (`CodecSafety.ScopeTooShort`); for all other bytes it does
  (`CodecSafety.DecodedWell`).
- *One more element keeps the load factor.* Not for the first element if all buckets together may hold less than one
  (`HashTables.LoadExceeded`), nor when no more buckets are to be had; otherwise it does (`HashTables.GrownKeepsLoad`).
- *JSON numbers are equal if and only if they are the same number.* Not for unsigned numbers from 2^63 on: such a number
  equals the signed one that is 2^64 less (`JsonEquality.EqualNumbers`). Below that limit equal values are exactly those
  that stand for the same thing (`JsonEquality.EqualNormal`).

## Model

| member | source | states |
|---|---|---|
| `NodeBits32.PackedThread` | src/terark/threaded_rbtree.h:28-72 | On 32-bit words, setting or clearing the thread bit changes exactly the thread flag of the cell that the two words stand for |
| `NodeBits32.PackedLink` | src/terark/threaded_rbtree.h:74-92 | Keeping the two top bits and or-ing in a link changes exactly the link |
| `NodeBits32.PackedRed` | src/terark/threaded_rbtree.h:114-132 | The colour is the top bit of the left word, and masking it disturbs nothing else |
| `NodeBits32.PackedEmpty` | src/terark/threaded_rbtree.h:94-112 | The empty flag is the top bit of the right word, and masking it disturbs nothing else |
| `NodeBits32.CellLayout` | src/terark/threaded_rbtree.h:12-133 | The colour is set exactly if the left word is 2^31 or more, emptiness exactly if the right one is, and a thread exactly if the rest of its word is 2^30 or more |
| `NodeBits32.PackedPool` | src/terark/threaded_rbtree.h:12-133 | Every masked write to a pool of words stands for the cell-level write that the rest of the model uses, for every slot below the sentinel and for the sentinel |
| `NodeBits32.PackedEntry` | src/terark/threaded_rbtree.h:393-443 | A stack entry packed into one word gives back its slot and its side, and overwriting the slot keeps the side |
| `NodeBits64.PackedPool` | src/terark/threaded_rbtree.h:12-133 | The same on 64-bit words, as the hash table uses them |
| `NodeBits64.CellLayout` | src/terark/threaded_rbtree.h:12-133 | The same with 2^63 and 2^62 |
| `NodeBits64.PackedEntry` | src/terark/threaded_rbtree.h:393-443 | The same on 64-bit words |
| `NodeLinks.ContainerLinks` | src/terark/threaded_rbtree.h:2654-2657 | In every valid container that has lost no slot, the root, the free list, all links of the tree and of the free chain are slots of the pool or the sentinel, and the word of any slot is a link and not the sentinel |
| `PathStacks.PathStack.PushIndex` | src/terark/threaded_rbtree.h:423-430 | Pushes exactly if there is room; otherwise nothing changes |
| `PathStacks.PathStack.UpdateIndex` | src/terark/threaded_rbtree.h:432-442 | Replaces one entry inside the stack and no other |
| `Rotation.RotateInner` | src/terark/threaded_rbtree.h:1165-1177 | The inner half of a double rotation, done on cells, gives cells that hold the rotated tree with every thread right and the same order, and no cell outside the tree changes |
| `Rotation.RotateOuter` | src/terark/threaded_rbtree.h:1178-1200 | The same for the outer rotation, which also redirects the link from the parent on the stack or the root |
| `Insertion.RecolouredOk` | src/terark/threaded_rbtree.h:1147-1157 | Recolouring keeps balance and leaves at most one red-red edge, two levels further up |
| `Insertion.RotatedOk` | src/terark/threaded_rbtree.h:1158-1202 | After the rotation under the grandparent the whole tree is red-black |
| `Insertion.FixUp` | src/terark/threaded_rbtree.h:1137-1266 | From a tree with one red-red edge at the top of the stack the loop ends in a red-black tree with the same order, and every stack access is in range |
| `Insertion.Insert` | src/terark/threaded_rbtree.h:1094-1267 | The result is a threaded red-black tree with exact count and cached ends whose order is the old one with the new slot at the place the stack points to, and no cell outside it changes |
| `RemovalBalance.RedSiblingOk` | src/terark/threaded_rbtree.h:1465-1487 | Rotating a red sibling up keeps the tree one black node short in the same place, now with a black sibling |
| `RemovalBalance.PassedUpOk` | src/terark/threaded_rbtree.h:1488-1492 | With a black sibling and black nephews the shortage moves one level up |
| `RemovalBalance.NearRisenOk` | src/terark/threaded_rbtree.h:1495-1511 | Raising a red near nephew keeps the shortage in place and makes the far nephew red |
| `RemovalBalance.FarRisenOk` | src/terark/threaded_rbtree.h:1512-1542 | Raising the sibling over a red far nephew ends the shortage |
| `Splicing.SpliceDeep` | src/terark/threaded_rbtree.h:1378-1447 | Putting the leftmost node of the right subtree in the place of the removed one, with its path on the stack, leaves cells that hold exactly the spliced tree; it writes as many entries as the path is deep, no more and no fewer |
| `Splicing.Splice` | src/terark/threaded_rbtree.h:1285-1448 | All four ways to take a node out give the order without it and a stack that leads to the place where a black node may be missing; the stack has to be as long as that place is deep |
| `Removal.FixUp` | src/terark/threaded_rbtree.h:1449-1642 | From any tree with a deficit at the top of the stack the loop ends in a red-black tree with the same order; it takes one more entry exactly if the first sibling is red |
| `Removal.Remove` | src/terark/threaded_rbtree.h:1269-1643 | The order is the old one without the slot; balance, colours, threads, count and cached ends all hold; the removed cell is marked empty and none outside the tree changes; it writes to exactly the entries below `StackNeeded` and needs no longer stack than that |
| `Removal.NeededByHeight` | src/terark/threaded_rbtree.h:1369-1487 | No more entries are needed than the path to the node has, or than the tree is high less one |
| `Heights.HeightBound` | src/terark/threaded_rbtree.h:1669 | A red-black tree with fewer nodes than the least number for height d + 1 is at most d high |
| `Heights.HeightCosts` | src/terark/threaded_rbtree.h:1669 | A red-black tree of height h has at least 2 * 2^(h/2) - 2 nodes for even h and 3 * 2^((h-1)/2) - 2 for odd h |
| `Heights.TallOk` | src/terark/threaded_rbtree.h:1669 | For every height there is a red-black tree with exactly that many nodes, so the bound cannot be improved |
| `Heights.PathsOf48` | src/terark/threaded_rbtree.h:1669 | With fewer than 3 * 2^24 - 2 nodes no path of a red-black tree is longer than 48 |
| `Heights.PathOf49` | src/terark/threaded_rbtree.h:1669 | With that many nodes there is a red-black tree with a path of 49 |
| `Traversal.MoveNext` | src/terark/threaded_rbtree.h:135-151 | One step from a node of any tree leads to its successor in order, or to the sentinel |
| `Traversal.MovePrev` | src/terark/threaded_rbtree.h:153-169 | The same for the predecessor, so the two undo each other |
| `Traversal.Distance` | src/terark/threaded_rbtree.h:2440-2444 | Stepping from one position to a later one takes as many steps as lie between them |
| `Search.LowerBound` | src/terark/threaded_rbtree.h:745-777 | The first slot in order that is not below the key, or the sentinel |
| `Search.UpperBound` | src/terark/threaded_rbtree.h:904-936 | The first slot in order above the key, or the sentinel |
| `Search.ReverseLowerBound` | src/terark/threaded_rbtree.h:870-902 | The last slot in order that is not above the key, or the sentinel |
| `Search.ReverseUpperBound` | src/terark/threaded_rbtree.h:937-969 | The last slot in order below the key, or the sentinel |
| `Search.EqualUnique` | src/terark/threaded_rbtree.h:795-869 | A slot level with the key, or the sentinel if there is none in the whole tree |
| `Search.EqualRange` | src/terark/threaded_rbtree.h:971-1031 | The two-phase search, which restarts from the first greater node it met, gives the lower and the upper bound |
| `Search.FindPathForMulti` | src/terark/threaded_rbtree.h:466-535 | Succeeds exactly if the path fits on the stack, and then the stack leads to the gap where the slot belongs |
| `Search.FindPathForUnique` | src/terark/threaded_rbtree.h:558-743 | Succeeds exactly if the path fits on the stack; the stack then leads to a level slot, or to the gap if there is none. Also the search for removal by slot |
| `Ordering.SlotCut` | src/terark/threaded_rbtree.h:1759-1778 | Comparing by key and then by slot number singles out exactly one slot of any sorted sequence, duplicates included |
| `SlotPool.Alloc` | src/terark/threaded_rbtree.h:2688-2698 | The slot comes from the head of the free chain or from the end of the pool and is in neither the tree nor the rest of the chain |
| `SlotPool.PoolGive` | src/terark/threaded_rbtree.h:2700-2705 | A freed slot goes to the head of the chain; tree, chain and lost slots still divide the pool |
| `SortedContainers.InsertUnique` | src/terark/threaded_rbtree.h:2728-2748 | Puts the element at its sorted place, in a new slot, if no level key is there, every other slot keeping its own; else names the slot that has it; a path error comes exactly if the path is longer than the stack and changes nothing |
| `SortedContainers.InsertMulti` | src/terark/threaded_rbtree.h:2716-2726 | Puts the element among its equals, in a new slot, every other slot keeping its own; a path error comes exactly if the path of the new slot is longer than the stack, changes no element and loses the slot |
| `SortedContainers.EraseAll` | src/terark/threaded_rbtree.h:2409-2421 | The loop ends with exactly the slots level with the key gone, all others with their elements and in their order, and returns how many there were; if a path does not fit it stops with some of them gone |
| `SortedContainers.EraseSlot` | src/terark/threaded_rbtree.h:2771-2787 | Exactly the named slot goes, also among duplicates, and all others keep their elements; a length error comes exactly if its path is longer than the stack and changes nothing |
| `SortedContainers.EraseIterator` | src/terark/threaded_rbtree.h:2402-2407 | The same, and the result is the slot that followed |
| `SortedContainers.SpaciousNeeds` | src/terark/threaded_rbtree.h:1369-1487 | Below the least number of nodes for a tree two higher than the stack is long, every removal whose path fits stays inside the stack |
| `StackLimits.LoseSlot` | src/terark/threaded_rbtree.h:2716-2726 | For every stack length: a valid container with the least number of elements for a path to be too long, in which the insertion of a new greatest key loses its slot |
| `StackLimits.RemovalOverruns` | src/terark/threaded_rbtree.h:1369-1392 | For every stack length: a valid container with the least number of elements for a removal to leave the stack, in which removing the root needs one entry too many |
| `StackLimits.Spacious48` | src/terark/threaded_rbtree.h:1669 | With 48 entries that number is 2^26 - 2 |
| `SortedContainers.SortedContainer.constructor` | src/terark/threaded_rbtree.h:1671-1683 | An empty container |
| `SortedContainers.SortedContainer.Insert` | src/terark/threaded_rbtree.h:2707-2748 | Refused as too long exactly at the maximal size; otherwise a new slot holds the element, every other slot keeps its own and the listing has it at its sorted place, or a level key was there |
| `SortedContainers.SortedContainer.EraseKey` | src/terark/threaded_rbtree.h:2409-2421 | Exactly the slots level with the key go, the listing is the old one without them, and their number is returned |
| `SortedContainers.SortedContainer.EraseAt` | src/terark/threaded_rbtree.h:2402-2407 | Exactly the named slot goes, every other slot keeps its element, and the result is the slot that followed; a length error comes exactly if the path to it is longer than the stack |
| `SortedContainers.SortedContainer.LowerBound` | src/terark/threaded_rbtree.h:2524-2533 | The position in the listing that divides the smaller keys from the others |
| `SortedContainers.SortedContainer.UpperBound` | src/terark/threaded_rbtree.h:2534-2543 | The position in the listing that divides the greater keys from the others |
| `SortedContainers.SortedContainer.ReverseLowerBound` | src/terark/threaded_rbtree.h:2544-2553 | The slot just before the upper bound |
| `SortedContainers.SortedContainer.ReverseUpperBound` | src/terark/threaded_rbtree.h:2554-2563 | The slot just before the lower bound |
| `SortedContainers.SortedContainer.Find` | src/terark/threaded_rbtree.h:2344-2400 | A slot level with the key if and only if there is one |
| `SortedContainers.SortedContainer.Count` | src/terark/threaded_rbtree.h:2440-2444 | The number of elements level with the key |
| `SortedContainers.SortedContainer.Forward` | src/terark/threaded_rbtree.h:135-151 | Stepping from the cached first slot visits every slot in order, once, and ends |
| `SortedContainers.SortedContainer.Backward` | src/terark/threaded_rbtree.h:153-169 | Stepping back from the cached last slot visits them in reverse |
| `SortedContainers.SortedContainer.Accounting` | src/terark/threaded_rbtree.h:2688-2787 | In every reachable state the count is the number of elements, every slot of the pool is in the tree, the free chain or lost, and the empty flag tells which |
| `SortedRuns.Replay` | src/terark/threaded_rbtree.h:2402-2787 | Over any run of insertions, removals by key and by iterator, look-ups, counts, all four bounds, sizes and walks, in unique and multi mode, every answer is correct for a finite map from handles to elements: an insertion returns a new handle, removal by iterator drops exactly that handle and returns the next one in order, the bounds are the first or last handles with their property; the container holds that map until it is full or paths may not fit |
| `HashGrowth.RoundedEnough` | src/terark/threaded_rbtree_hash.h:1207-1222 | Rounding in 64-bit arithmetic gives at least the request exactly if the rounded byte count does not wrap |
| `HashGrowth.RoundedWraps` | src/terark/threaded_rbtree_hash.h:1207-1222 | A request for 2^61 slots is rounded to none |
| `HashGrowth.RoundedNext` | src/terark/threaded_rbtree_hash.h:1207-1222 | A request that does not wrap is rounded to the next whole block, of 16, 256 or 4096 bytes according to its size |
| `HashGrowth.RequestLeast` | src/terark/threaded_rbtree_hash.h:1252-1258 | A full table asks for the least number of slots that is at least twice the old one and at least bucket count times load factor |
| `HashGrowth.NextPrimeLeast` | src/terark/threaded_rbtree_hash.h:1109-1181 | In an ascending table the chosen bucket count is the least entry that is large enough |
| `HashGrowth.GetPrime` | src/terark/threaded_rbtree_hash.h:1109-1181 | The first table entry that is large enough, or else the last |
| `HashTables.LocateKey` | src/terark/threaded_rbtree_hash.h:1270-1282 | Searching one bucket decides for the whole table: a level slot is found, or no occupied slot anywhere is level |
| `HashTables.InsertUncheck` | src/terark/threaded_rbtree_hash.h:1267-1330 | A new slot holds the element and every other slot keeps its own, or a level key was there and nothing changed |
| `HashTables.FindValue` | src/terark/threaded_rbtree_hash.h:1352-1362 | A slot with a level key, or the end if no occupied slot has one |
| `HashTables.RemoveValue` | src/terark/threaded_rbtree_hash.h:1364-1389 | Exactly the slot with the level key goes to the free list, or there was none |
| `HashTables.RemoveOffset` | src/terark/threaded_rbtree_hash.h:1401-1412 | Exactly the named slot goes to the free list |
| `HashTables.MoveAll` | src/terark/threaded_rbtree_hash.h:1190-1199 | At each step the new trees, built in cells that still hold old links, reach exactly the slots moved so far |
| `HashTables.Rehash` | src/terark/threaded_rbtree_hash.h:1183-1205 | The new trees hold the same slots and elements, each in the bucket its key hashes to; the free list and all cells outside the trees are untouched |
| `HashTables.Realloc` | src/terark/threaded_rbtree_hash.h:1207-1236 | Old cells stay, new ones are empty, and the capacity is the rounded request or the maximum |
| `HashTables.CheckGrow` | src/terark/threaded_rbtree_hash.h:1239-1259 | Unless it fails there is a bucket afterwards, and a slot below the capacity for the next element even though the check looks at the live count; a length error comes exactly at the maxima; too few slots come exactly if the rounded request is no more than the capacity; no element changes |
| `HashTables.SteadyBelow` | src/terark/threaded_rbtree_hash.h:1239-1259 | The request gives more slots for every capacity below 2^60 and bucket count times load factor below 2^61 |
| `HashTables.SteadyFails` | src/terark/threaded_rbtree_hash.h:1207-1259 | An empty table with a load factor of 2^61 / 5 asks for 2^61 slots and gets none |
| `HashTables.GrownKeepsLoad` | src/terark/threaded_rbtree_hash.h:1239-1250 | One more element keeps the load factor if the others did, unless no more buckets are to be had or it is the first one and the buckets together may hold less than one |
| `HashTables.LoadExceeded` | src/terark/threaded_rbtree_hash.h:1239-1250 | With a load factor of a tenth the first element exceeds it |
| `HashMaps.Fits126` | src/terark/threaded_rbtree_hash.h:94 | With 64-bit links every permitted size fits on the 126-deep stack |
| `HashMaps.HashTable.constructor` | src/terark/threaded_rbtree_hash.h:120-142 | An empty table |
| `HashMaps.HashTable.Size` | src/terark/threaded_rbtree_hash.h:824-827 | The high-water mark less the free count is the number of occupied slots |
| `HashMaps.HashTable.Insert` | src/terark/threaded_rbtree_hash.h:1261-1330 | Growth and insertion together put the element in a new slot with every other slot unchanged, or change nothing if a level key is there; the bucket count is the grown one; refused exactly at the maxima; without a slot exactly if the rounded request is too small |
| `HashMaps.HashTable.Find` | src/terark/threaded_rbtree_hash.h:655-670 | A level slot or the end, also on a table that never had a bucket |
| `HashMaps.HashTable.Erase` | src/terark/threaded_rbtree_hash.h:724-731 | One level slot goes, or there was none |
| `HashMaps.HashTable.EraseAt` | src/terark/threaded_rbtree_hash.h:705-713 | Exactly the named slot goes, and the result is the next occupied one |
| `HashMaps.HashTable.Resize` | src/terark/threaded_rbtree_hash.h:889-892 | The contents stay, and afterwards there are at least eight buckets, at least as many as asked for, and so many that the load factor is not exceeded, unless no more are to be had |
| `HashMaps.HashTable.SetMaxLoad` | src/terark/threaded_rbtree_hash.h:894-905 | The contents stay, a load factor that is not positive is ignored, and a new one is not exceeded unless no more buckets are to be had |
| `HashMaps.HashTable.Walk` | src/terark/threaded_rbtree_hash.h:976-998 | Iteration visits every occupied slot once, in ascending order |
| `HashMaps.LoadTooHigh` | src/terark/threaded_rbtree_hash.h:894-905 | The first insertion after such a load factor is set finds no slot |
| `HashRuns.Replay` | src/terark/threaded_rbtree_hash.h:655-1412 | Over any run of insertions, look-ups, removals by key and by iterator, rehashes, load factors, sizes and walks, for any strict weak order and compatible hash, every answer is correct for a finite map from handles to elements and the table holds that map, until an insertion finds the table at a maximum or gets too few slots |
| `HashRuns.CorrectKeepsApart` | src/terark/threaded_rbtree_hash.h:1267-1330 | Correct answers alone keep all keys of the map inequivalent, so a key finds at most one element |
| `Visibility.RunInv` | src/mongo_terichdb/terichdb_kv_engine.cpp:347-464 | In every run, a row inserted by a unit and not yet resolved is committed nowhere and known to no other unit |
| `Visibility.NoDirtyReads` | src/mongo_terichdb/terichdb_kv_engine.cpp:488-509 | In every reachable state no unit sees what another has inserted and not committed |
| `Visibility.ReadYourWrites` | src/mongo_terichdb/terichdb_kv_engine.cpp:488-509 | A unit sees its insert and no longer sees its deleted row at once, and nothing else changes for it |
| `Visibility.Unnoticed` | src/mongo_terichdb/terichdb_kv_engine.cpp:488-509 | No step of one unit changes what another sees, except the commit of a change of that very row; provisional deletes stay visible to others |
| `Visibility.AtomicCommit` | src/mongo_terichdb/terichdb_kv_engine.cpp:361-442 | Whatever interleaves, when all changes of a committing unit are resolved a row is committed exactly if it was or the unit inserted it, and the unit did not delete it, unless another unit has committed a change of it |
| `Visibility.AtomicRollback` | src/mongo_terichdb/terichdb_kv_engine.cpp:383-464 | A unit that rolls back leaves no trace in the committed rows |
| `RowTables.ResolveUnit` | src/mongo_terichdb/terichdb_kv_engine.cpp:361-464 | The record a handler looks for is always there, its times tell whether the unit inserted and deleted the row, and dropping it exactly when no change of the row is left keeps that true |
| `RowTables.RolledBackFree` | src/mongo_terichdb/terichdb_kv_engine.cpp:383-397 | A row put on the free list is committed nowhere and known to no unit |
| `RowTables.ThreadSafeTable.GetRecoveryUnitData` | src/mongo_terichdb/terichdb_kv_engine.cpp:269-281 | Creates the data of a unit if it is missing |
| `RowTables.ThreadSafeTable.RemoveRegisterEntry` | src/mongo_terichdb/terichdb_kv_engine.cpp:291-314 | The record goes, and with the last one the unit's data unless an iterator is open; clocks stay |
| `RowTables.ThreadSafeTable.WriteRow` | src/mongo_terichdb/terichdb_record_store.cpp:477-480 | A row that is written and not yet registered is shown to every unit, and nothing else changes for any |
| `RowTables.WrongTime` | src/mongo_terichdb/terichdb_kv_engine.cpp:347-409 | A registration at the wrong time leaves a record that contradicts the specified state |
| `RowTables.ThreadSafeTable.RegisterInsert` | src/mongo_terichdb/terichdb_kv_engine.cpp:347-359 | Marks the row and records it; the table then stands for the specified state if and only if the clock was not zero |
| `RowTables.ThreadSafeTable.InsertRecord` | src/mongo_terichdb/terichdb_record_store.cpp:477-480 | Writing and registering together are the specified insert if and only if the clock was not zero |
| `RowTables.ThreadSafeTable.CommitInsert` | src/mongo_terichdb/terichdb_kv_engine.cpp:361-381 | Succeeds exactly if the record is there; clears the mark and drops the record unless a delete is recorded; in step with the specification the record is always there and the result is the specified state |
| `RowTables.ThreadSafeTable.RollbackInsert` | src/mongo_terichdb/terichdb_kv_engine.cpp:383-397 | Succeeds exactly if the record is there; the row becomes free and the record goes; in step with the specification the record is always there and the result is the specified state |
| `RowTables.ThreadSafeTable.RegisterDelete` | src/mongo_terichdb/terichdb_kv_engine.cpp:399-409 | The unit is still shown the row if and only if the clock was at its largest value, and otherwise the table stands for the specified state |
| `RowTables.ThreadSafeTable.CommitDelete` | src/mongo_terichdb/terichdb_kv_engine.cpp:411-442 | Succeeds exactly if a delete is recorded; marks the row unless the unit inserted it; in step with the specification neither check fails and the result is the specified state |
| `RowTables.ThreadSafeTable.RollbackDelete` | src/mongo_terichdb/terichdb_kv_engine.cpp:444-464 | Succeeds exactly if the record is there; drops it unless the insert is still to be undone; in step with the specification the record is always there and the result is the specified state |
| `RowTables.ThreadSafeTable.OpenIterator` | src/mongo_terichdb/terichdb_kv_engine.cpp:475-482 | Keeps the unit's data alive and changes nothing that is seen |
| `RowTables.ThreadSafeTable.CloseIterator` | src/mongo_terichdb/terichdb_kv_engine.cpp:483-487 | Drops the data with the last iterator exactly if no change is left; its data is always found |
| `RowTables.ThreadSafeTable.GetVal` | src/mongo_terichdb/terichdb_kv_engine.cpp:488-509 | The unit's record decides, else the mark; in step with the specification a row is shown exactly if the unit sees it |
| `RowIters.StoreIter.Increment` | src/mongo_terichdb/terichdb_kv_engine.cpp:521-561 | The next visible row in the iterator's direction, none skipped; without one a forward iterator stands behind the last row and a backward one before the first |
| `RowIters.StoreIter.SeekExact` | src/mongo_terichdb/terichdb_kv_engine.cpp:529-569 | Finds a row exactly if it is visible, and goes on behind it |
| `RowIters.StoreIter.ScanForward` | src/mongo_terichdb/terichdb_kv_engine.cpp:511-527 | A full scan lists the visible rows |
| `RowIters.StoreIter.ScanBackward` | src/mongo_terichdb/terichdb_kv_engine.cpp:544-561 | A backward scan lists them in the reverse order |
| `RowIters.VisibleMembers` | src/mongo_terichdb/terichdb_kv_engine.cpp:511-527 | The list of a scan holds exactly the visible rows, in ascending order |
| `RowRuns.Replay` | src/mongo_terichdb/terichdb_kv_engine.cpp:347-509 | For every legal schedule of any number of units the table stands for the specified state after each step, every look is answered as specified and every unit's clock is told by its age, exactly up to the first registration at a limit of the clock |
| `RowRuns.ClockWraps` | src/mongo_terichdb/mongo_terichdb_common.hpp:84-99 | The time after n registrations is n + 1 modulo 2^32, so it comes to its two limits exactly at those n |
| `RowRuns.ReadyIsBelowLimit` | src/mongo_terichdb/terichdb_kv_engine.cpp:347-409 | With clocks told by age, the next registration can be made exactly if the age of its unit is not at the limit |
| `RowRuns.LimitIsFar` | src/mongo_terichdb/terichdb_kv_engine.cpp:347-409 | No schedule comes to a limit in its first 2^32 - 2 steps |
| `ClockLimits.LoadTable` | src/mongo_terichdb/terichdb_kv_engine.cpp:347-359 | After n registrations of a unit that an open iterator keeps, its clock has gone on n times |
| `ClockLimits.ForgottenDelete` | src/mongo_terichdb/terichdb_kv_engine.cpp:399-509 | A legal run of 2^32 - 2 inserts and one delete after which the unit is shown the row that it has deleted |
| `ClockLimits.InsertAndUndo` | src/mongo_terichdb/terichdb_kv_engine.cpp:347-464 | After insert, delete and rollback of both, the last handler finds its record if and only if the insert was not registered at time zero |
| `ClockLimits.LostRecord` | src/mongo_terichdb/terichdb_kv_engine.cpp:347-464 | A legal run in which it does not |
| `Bson.Le32RoundTrip` | src/mongo_terichdb/record_codec.cpp:1061-1076 | A length of four bytes is read back, whatever follows |
| `Bson.Le32Value` | src/mongo_terichdb/record_codec.cpp:33 | The four bytes are the base-256 digits of the number modulo 2^32, low one first |
| `Bson.Read32Value` | src/mongo_terichdb/record_codec.cpp:1061-1070 | A length is read with the low byte first, each byte counting 256 times the one before |
| `Bson.DocumentLength` | src/mongo_terichdb/record_codec.cpp:1396-1425 | The first four bytes of every document are its length, low byte first |
| `Bson.DigitsMean` | src/mongo_terichdb/record_codec.cpp:1145-1159 | The name of an array item is its number in decimal digits, without zeros in front |
| `Bson.HelloWorld` | src/mongo_terichdb/record_codec.cpp:1007-1099 | The first example of the BSON specification, byte for byte |
| `Bson.Awesome` | src/mongo_terichdb/record_codec.cpp:1123-1164 | The second one, with an array of a string, a double and an int32, byte for byte |
| `Bson.Elements` | src/mongo_terichdb/record_codec.cpp:1007-1121 | The bytes of booleans, nulls, references, binary data, patterns, code with scope and nested objects, as the specification lays them out |
| `Codec.RecordElements` | src/mongo_terichdb/record_codec.cpp:88-164 | The bytes the encoder writes for each type without parts and for objects: the length in front of strings and references is gone, all else is as in BSON |
| `Codec.RecordArrays` | src/mongo_terichdb/record_codec.cpp:166-191 | The bytes of an empty array, of one with items of one type and of one with mixed types, with 129 in front and a type before each item |
| `Codec.CountRoundTrip` | src/mongo_terichdb/record_codec.cpp:177-180 | The number of items is read back, whatever follows |
| `Codec.ItemsDecode` | src/mongo_terichdb/record_codec.cpp:1145-1159 | The items of an array that have bytes come back under regenerated names exactly if each is good where it stands |
| `Codec.FieldsDecode` | src/mongo_terichdb/record_codec.cpp:1101-1121 | The fields of a nested object come back exactly if each is good |
| `Codec.ArrayDecodes` | src/mongo_terichdb/record_codec.cpp:1123-1164 | An array comes back exactly if it is good, also if its items take no bytes |
| `Codec.RefFails` | src/mongo_terichdb/record_codec.cpp:1047-1054 | A DBRef with a zero byte in its name never comes back |
| `Codec.Decodes` | src/mongo_terichdb/record_codec.cpp:1007-1099 | For every value and anything behind it: decoding its encoding gives its BSON bytes and stops behind it if it is good, and otherwise fails or puts out a different byte |
| `Codec.RoundTrip` | src/mongo_terichdb/record_codec.cpp:902-917 | A record decodes to the document it was made from, byte for byte in the format that the rows above fix, if and only if the document is good |
| `Codec.OrdinaryRoundTrip` | src/mongo_terichdb/record_codec.cpp:1396-1425 | Every document without arrays of nothing but byteless values and without zero bytes in DBRef names comes back |
| `Codec.ArraysLost` | src/mongo_terichdb/record_codec.cpp:1133-1152 | Two documents that do not come back |
| `CodecSafety.DecodedWell` | src/mongo_terichdb/record_codec.cpp:1396-1425 | For every byte string the decoder fails or puts out a document of known types with names and strings free of zero bytes, as long as every code with scope it meets has a length of four or more |
| `CodecSafety.ScopeTooShort` | src/mongo_terichdb/record_codec.cpp:1060-1066 | A code with scope that claims three bytes is put out with three, and none has fewer than four |
| `RecordCoder.EncodeElemVal` | src/mongo_terichdb/record_codec.cpp:88-164 | Appends the encoding, or refuses a string with a zero byte anywhere inside the value |
| `RecordCoder.ScanKinds` | src/mongo_terichdb/record_codec.cpp:166-176 | The loop finds the common type, or the mark for mixed types |
| `RecordCoder.EncodeArray` | src/mongo_terichdb/record_codec.cpp:166-191 | Appends the encoding of the array |
| `RecordCoder.EncodeObject` | src/mongo_terichdb/record_codec.cpp:193-200 | Appends the encoding of the object |
| `RecordCoder.DecodeElemVal` | src/mongo_terichdb/record_codec.cpp:1007-1099 | Moves the position and appends to the buffer as specified, for any bytes |
| `RecordCoder.DecodePlain` | src/mongo_terichdb/record_codec.cpp:1012-1089 | Each type without parts moves the position and appends as specified, with the lengths of strings put back |
| `RecordCoder.DecodeObject` | src/mongo_terichdb/record_codec.cpp:1101-1121 | Reserving four bytes and filling in the length at the end gives a well-formed document |
| `RecordCoder.DecodeArray` | src/mongo_terichdb/record_codec.cpp:1123-1164 | The same for arrays |
| `RecordCoder.Decode` | src/mongo_terichdb/record_codec.cpp:1396-1425 | A whole record, for any bytes: it fails exactly when the specification does, and its result begins with its length, low byte first |
| `RecordCoder.StoreAndLoad` | src/mongo_terichdb/record_codec.cpp:902-917 | Encoder and decoder run one after the other: refused exactly for zero bytes in strings, and given back byte for byte exactly if good |
| `StrZero.StrZeroRoundTrip` | src/mongo_terichdb/record_codec.cpp:38-85 | Binary data in a zero-ended column is accepted exactly without zero bytes and with another subtype than 255, and comes back in the last column and in any other |
| `JsonStrings.ExtraSpace` | src/nlohmann/json.hpp:5757-5793 | The number of bytes that escaping adds |
| `JsonStrings.EscapeString` | src/nlohmann/json.hpp:5806-5910 | The precomputed buffer is filled exactly, and holds the escapes of all bytes in order, each in the form that `JsonPieces.EscapeForm` gives |
| `JsonStrings.GetString` | src/nlohmann/json.hpp:8082-8183 | The loop over a token gives what the token stands for or fails; which of the two, and what, is said by `JsonPieces.ReadsExactly` and `JsonPieces.FailsExactly` |
| `JsonStrings.Utf8RoundTrip` | src/nlohmann/json.hpp:7148-7210 | Every code point up to 0x10FFFF is written in UTF-8: it reads back, all bytes but the first are continuation bytes, and it takes no more bytes than it needs |
| `JsonStrings.StringRoundTrip` | src/nlohmann/json.hpp:5806-5910 | Every byte string, escaped, is a string token that reads back as it was |
| `JsonPieces.PieceReads` | src/nlohmann/json.hpp:8082-8183 | A plain byte, each of the eight short escapes, a code point in four hexadecimal digits of either case, and one above 0xFFFF as the two halves of its UTF-16 form are read as what they stand for, whatever follows |
| `JsonPieces.ReadsExactly` | src/nlohmann/json.hpp:8082-8183 | A token is read as some bytes if and only if it can be cut into pieces that stand for these bytes |
| `JsonPieces.FailsExactly` | src/nlohmann/json.hpp:8146-8153 | A token is refused if and only if, behind some pieces, a first half is not followed by a second one |
| `JsonPieces.EscapeForm` | src/nlohmann/json.hpp:5806-5910 | Each byte is written as its short escape if it has one, the slash excepted, as four lower-case digits if it is another control byte, and else as itself |
| `JsonNumbers.FigureScanned` | src/nlohmann/json.hpp:7483-7747 | Every number of RFC 7159 is scanned to its end if nothing follows that could continue it |
| `JsonNumbers.FigureFound` | src/nlohmann/json.hpp:7483-7747 | What is scanned as a number is one: sign, whole part without a leading zero, fraction and exponent |
| `JsonNumbers.FigureConverted` | src/nlohmann/json.hpp:8307-8368 | An integer in 64 bits is converted exactly, everything else is a float, and it is refused only if a digit follows |
| `JsonObjects.PrecedesExactly` | src/nlohmann/json.hpp:329-333 | Keys are in the order of their bytes, and a prefix comes first |
| `JsonObjects.PutHolds` | src/nlohmann/json.hpp:8489-8494 | Assigning to a key puts the value there and leaves all other members as they are |
| `JsonObjects.PutAscends` | src/nlohmann/json.hpp:8489-8494 | It keeps the members in the order of their keys |
| `JsonObjects.LastWins` | src/nlohmann/json.hpp:8457-8496 | After any assignments the members are in order, and each key has the value given to it last, or the one it had |
| `Json.NormalEqual` | src/nlohmann/json.hpp:5209-5287 | What comes back, with non-negative numbers unsigned, is equal to the value that was dumped; what equal means is said by the rows below |
| `JsonEquality.EqualExactly` | src/nlohmann/json.hpp:5209-5287 | Values without floats are equal if and only if they are the same once every number is cast to a signed one |
| `JsonEquality.EqualNormal` | src/nlohmann/json.hpp:5209-5287 | If all unsigned numbers are below 2^63, values are equal if and only if they stand for the same numbers, strings, arrays and objects |
| `JsonEquality.EqualNumbers` | src/nlohmann/json.hpp:5278-5285 | An unsigned number from 2^63 on equals the signed one that is 2^64 less, and no other |
| `JsonEquality.KindsDiffer` | src/nlohmann/json.hpp:5209-5287 | Values of different kinds are not equal |
| `JsonGrammar.Reads` | src/nlohmann/json.hpp:8425-8614 | Every text of the grammar, with any blanks, is parsed to what it stands for and leaves what follows it |
| `JsonAccepts.EndExactly` | src/nlohmann/json.hpp:7430-7434 | The input ends exactly behind blanks, at its last byte or at a zero byte |
| `JsonAccepts.ParseExactly` | src/nlohmann/json.hpp:8412-8614 | A text is parsed to a value if and only if it is blanks, a text of that value by the grammar, and the end of the input |
| `JsonAccepts.ParsedObject` | src/nlohmann/json.hpp:8457-8506 | A parsed object has its members in the order of their keys, each key with the value that its text gives it last |
| `JsonLayout.DumpText` | src/nlohmann/json.hpp:5929-6080 | The dumped text is that of the value, with a line break and depth times step spaces modulo 2^32 before every item, member and closing bracket, and a space behind every colon, if it is pretty |
| `JsonLayout.Compact` | src/nlohmann/json.hpp:5929-6080 | A text that is not pretty has no blanks outside its strings |
| `JsonLayout.JsonRoundTrip` | src/nlohmann/json.hpp:5929-6080 | Every value without floats, dumped with any indentation or none, parses to an equal value |
| `JsonParser.Parser.ParseInternal` | src/nlohmann/json.hpp:8425-8614 | The recursive parser that advances from token to token accepts exactly what the functional one does and gives the same value and position |
| `JsonParser.Parser.ParseElements` | src/nlohmann/json.hpp:8535-8560 | The loop over the items of an array does |
| `JsonParser.Parser.ParsePairs` | src/nlohmann/json.hpp:8457-8506 | The loop over the members of an object does; `JsonAccepts.ParsedObject` says what object that is |
| `JsonParser.ParseText` | src/nlohmann/json.hpp:8412-8422 | A text is accepted exactly if it is a text of some value by the grammar, and the result is that value |
| `JsonParser.DumpAndParse` | src/nlohmann/json.hpp:2079-2094 | Dumping and then running the parser gives the value itself, with non-negative numbers as unsigned ones, and equal to what was dumped |
| `Getopt.Exchange` | 3rdparty/getopt_win/getopt.c:77-112 | The two adjacent blocks change order in place and nothing else moves |
| `Getopt.SortedPermutes` | 3rdparty/getopt_win/getopt.c:151-191 | The sorted command line is a permutation of the given one |
| `Getopt.SplitByPlace` | 3rdparty/getopt_win/getopt.c:151-283 | The words in front are, in order, those at the places of options, of their arguments and of the first "--" that is no argument; all other places hold the others, in order; an argument is told by its place behind an option that takes one and is no argument itself |
| `Getopt.SplitExample` | 3rdparty/getopt_win/getopt.c:151-283 | A lone minus is no option, an option takes the next word even if that looks like one, and everything behind "--" stays |
| `Getopt.GetoptData.Advance` | 3rdparty/getopt_win/getopt.c:151-191 | Either an option is next, or all options stand before all other words, both in their old order, and the index is between them |
| `Getopt.GetoptData.Consume` | 3rdparty/getopt_win/getopt.c:253-283 | An option takes up two words exactly if it takes an argument and there is one, and else one; the invariant of the scan stays |
| `Getopt.Permute` | 3rdparty/getopt_win/getopt.c:151-191 | Over a whole run of calls the words are sorted stably into options with their arguments and the rest, in the sense of `Getopt.SplitByPlace` |

## Left out

- SortedContainers.EraseAll: requires a container so small that no removal can leave the path stack, or unique keys and a removal that does not, because the source goes on behind the end of the stack without a check.
- SortedContainers.EraseSlot: requires that the removal stays inside the path stack (`Secure`), for the same reason; `Removal.StackNeeded` says exactly when it does.
- Removal.Remove: requires a stack as long as `StackNeeded`, because what a write behind its end does is not defined.
- HashTables.CheckGrow: stops at a request that is rounded to too few slots; the source goes on with a slot that does not exist. Load factors are real numbers without rounding.
- HashMaps.HashTable: unique mode only; multi mode, local iterators, copying and clearing are not modelled.
- NodeBits32.PackedLink: takes the word of a link; that the word of a slot number is that number is taken from the conversion between words and numbers.
- Visibility.NoDirtyReads: writing a row and registering it are one event; `RowTables.ThreadSafeTable.WriteRow` states what is shown between the two.
- RowTables.ThreadSafeTable: the count of open iterators is unbounded; locks, thread data, caches and the rows' bytes are not modelled.
- RecordCoder.DecodeElemVal: reading past the end of the bytes counts as failure; an item count of 2^31 or more is not treated as negative.
- RecordCoder.DecodePlain: a negative length and reading past the end of the bytes count as failure.
- Codec.CountRoundTrip: the variable-length number is external; it is taken as seven bits to a byte, low ones first.
- Schema columns, index keys, numeric conversions and excluded fields of the record coder; top-level field names are taken as distinct, as the source's bookkeeping of stored fields expects.
- JsonLayout.JsonRoundTrip: floating-point numbers are kept as the text of their token and not dumped; the scanner is written over tokens and not as the generated automaton; streams and callbacks are not modelled.
- Getopt.GetoptData.Consume: what an option is and whether it takes a word are a parameter; error messages, long-option matching, the other two orderings and a caller that changes the index are not modelled.
- `trb_clear_` and the reverse equal range of the tree; move construction, allocators and exceptions thrown by element constructors.
- The adapters for other databases, the capped store, options, server status and snapshots.
- Segments, indices and the table's own free list: a new row gets a number that is neither committed nor pending.
