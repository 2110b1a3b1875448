# A verified model of SoftWrAP

SoftWrAP groups writes to persistent memory into atomic *wraps*. A wrap streams every
write to a redo log, keeps it in an alias table until the outermost close, and only then
lets it go to its home location. Around that core the repository has a B+ tree for
persistent data, hash alias tables that are retired in the background, a balanced tree
that finds the base of an object, and a graph kernel used as a workload.

This project models that code in Dafny and proves what it promises, in five parts:

- **The B+ tree** with insertion, erasure with all six repairs, the searches, the leaf
  list, the statistics, and dump and restore. Nodes are objects with key, data and child
  arrays that are shifted in place. `BTreeModel`, `BTreeInsert`, `BTreeErase` and
  `BTreeEraseProof` say on values what each operation makes of a tree and what that means;
  `BTreeNode`, `BTreeMoves`, `BTreeRefs`, `BTreeErasing`, `BTreeFixing`, `BTreeChild` and
  `BPlusTree` prove that the code on the heap makes exactly that; `BTreeShape` and
  `BTreeGrowth` say, in numbers of slots alone, which nodes an operation mends, merges or
  splits; `BTreeRuns` is about whole runs, `BTreeLookup` about the searches, `BTreeImage`
  and `BTreeDump` about files.
- **The redo log and the lookaside alias table** (`Memory`, `WrapLog`, `Bloom`,
  `LogAliasTable`, `WrapSoftware`, `WrapRuns`), and what a crash leaves of them
  (`CrashAtomicity`, `Reopening`).
- **The hash alias tables** (`HashTable`, `Variables`, `Retirement`, `Lookaside`), the
  double-buffered retirement (`DoubleBuffer`, `HalfRetired`, `Stalling`) and the protocol of two tables
  with five states each (`TableProtocol`). These are state machines over single steps.
- **The index of address ranges** (`RangeTree`, `RangeBalance`, `RangeIndex`).
- **The graph kernels**: levels of a breadth-first tree (`Levels`), the scrambling of
  vertex numbers (`Words`, `Scramble`) and arithmetic modulo 2^31 - 1 (`ModularArithmetic`).

`Sequences`, `Powers` and `Wrappers` hold what several modules share.

Memory is a sequence or an array of bytes and an address is an index into it. Tree keys
are integers. `leafslotmax` and `innerslotmax` are any numbers of at least eight.

## Model

| member | source | states |
|---|---|---|
| `OrderedItems.PutAsMap` | include/btree.h:2027-2036 | putting a pair in is the update of a map without duplicates: a new key is added, a present key keeps its value |
| `OrderedItems.PutSorted` | include/btree.h:2228-2242 | the order stays strict, and there is one pair more exactly for a new key |
| `OrderedItems.RemoveAsMap` | include/btree.h:2491-2507 | taking a key out is the removal from that map |
| `OrderedItems.RemoveSorted` | include/btree.h:2491-2507 | the order stays strict, and there is one pair less exactly for a present key |
| `BTreeNode.FindLower` | include/btree.h:1556-1596 | the binary search, which narrows to `mid - 1` even when `mid` may be the answer and then mends that, returns the first slot whose key is not below the given one |
| `BTreeNode.FindUpper` | include/btree.h:1603-1643 | the other search returns the first slot whose key is above the given one |
| `BTreeModel.Descend` | include/btree.h:1783-1788 | following that slot enters the one child that can hold the key: everything left of it is smaller, everything right of it larger |
| `BTreeInsert.InsertChildIsCut` | include/btree.h:2133-2200 | a full inner node that takes a new child comes out as the overfull node cut in two at one place, in the ordinary case on either side and in the special case where the inserted key becomes the split key |
| `BTreeInsert.InsertDescendOk` | include/btree.h:2116-2252 | the recursion hands up one or two nodes that are well filled, have exact separators and together hold the old pairs with the new one put in |
| `BTreeInsert.InsertCorrect` | include/btree.h:2070-2252 | on every valid tree and on the empty one insertion makes a valid tree that holds the old pairs with the new one put in, and reports an insertion exactly for a new key |
| `BTreeEraseProof.JoinAndCut` | include/btree.h:3187-3242 | moving slots between two inner nodes and their separator is cutting the joined node at another place, and both parts are well filled |
| `BTreeEraseProof.EraseDescendOk` | include/btree.h:2474-2746 | whatever neighbours the recursion is given, across parents too, it removes the key and nothing else, and the outcome is balanced, or merged with one node empty, in the form the caller repairs |
| `BTreeEraseProof.EraseCorrect` | include/btree.h:2397-2746 | on every valid tree and on the empty one erasure makes a valid or empty tree without that key and otherwise the same, reports an erasure exactly for a present key, and leaves the tree as it was for an absent one |
| `BTreeMoves.SplitInnerSlots` | include/btree.h:2296-2329 | the copying loop leaves the slots up to the split point in the old node, moves those behind it to the new one and hands the key between them up |
| `BTreeMoves.MergeInnerSlots` | include/btree.h:3093-3135 | the left node ends with its own slots, the separator from the parent and the slots of the right one |
| `BTreeMoves.ShiftLeftLeafSlots` | include/btree.h:3140-3182 | the first items of the right leaf are at the end of the left one and the rest have closed up, in order |
| `BTreeMoves.ShiftLeftInnerSlots` | include/btree.h:3187-3242 | the separator comes down, slots follow it, and the next key of the right node goes up |
| `BTreeMoves.ShiftRightLeafSlots` | include/btree.h:3247-3296 | the last items of the left leaf are in front of the right one's, in order |
| `BTreeMoves.ShiftRightInnerSlots` | include/btree.h:3301-3354 | the right node takes the separator and the last children of the left one in front, and the key before them goes up |
| `BTreeFixing.PickFix` | include/btree.h:2555-2596 | on slot counts and parents: the fuller of the siblings that are above their least fill lends, at a tie the right one; only when none is do nodes merge, with the left one if that is a sibling and else with the right one; this is the choice of the model |
| `BTreeErase.RepairByCounts` | include/btree.h:2555-2596 | the same of the model's choice, for every pair of neighbours, cousins included |
| `BTreeShape.EraseRows` | include/btree.h:2397-2746 | told by the numbers of slots in use at every level, from left to right: the leaf on the way loses one, a node below its least fill is mended by that rule among its siblings, with half of the difference where one lends, a merge costs the parent a child, nothing else changes at any level, and the top node makes way when nothing is left in it |
| `BTreeGrowth.InsertRows` | include/btree.h:2070-2329 | by the same numbers, for every new key: only full nodes on the way split, into which two parts, and only as far up as they are full; nothing else changes at any level, and a split of the top node puts a new root of one key above it |
| `BTreeGrowth.PresentKeyKeeps` | include/btree.h:2206-2214 | a key that is there leaves the whole tree, not only its content, as it was |
| `BPlusTree.BTree.SplitLeafNode` | include/btree.h:2256-2290 | the new leaf holds the upper items and stands behind the old one in the doubly linked list, and the count of leaves is right |
| `BPlusTree.BTree.MergeLeaves` | include/btree.h:3062-3088 | the left leaf holds the items of both, and the right one is out of the list from both sides |
| `BPlusTree.BTree.FixLeafUnderflow` | include/btree.h:2529-2599 | a leaf that has lost an item is repaired on the heap as the model's repair says: nodes, separators, links and counts |
| `BPlusTree.BTree.FixInnerUnderflow` | include/btree.h:2685-2743 | the same for an inner node, with the collapse of a root that has one child left |
| `BPlusTree.BTree.Insert` | include/btree.h:2070-2107 | in place: the nodes hold a valid tree again, the leaves are linked in its order in both directions, items, leaves and inner nodes are counted truly, the content is the old one with the pair put in, the numbers of slots at every level are those of `InsertRows`, and the result says whether the key was new |
| `BPlusTree.BTree.EraseOne` | include/btree.h:2397-2416 | in place: the same invariant again, the content is the old one without the key, the numbers of slots at every level are those of `EraseRows`, the result says whether the key was there, and no new node appears |
| `BPlusTree.BTree.LowerBound` | include/btree.h:1776-1793 | the cursor stands at the first pair of the whole content whose key is not below the given one, or at the end |
| `BPlusTree.BTree.UpperBound` | include/btree.h:1819-1836 | the cursor stands at the first pair whose key is above the given one, or at the end |
| `BPlusTree.BTree.Find` | include/btree.h:1699-1717 | the cursor stands at the pair with the key if there is one, and at the end exactly otherwise |
| `BPlusTree.BTree.Exists` | include/btree.h:1678-1695 | true exactly if the content has the key |
| `BPlusTree.BTree.Walk` | include/btree.h:1494-1505 | stepping from the beginning to the end along the leaf links visits exactly the content, in strict key order |
| `BTreeRuns.RunRefinesMap` | include/btree.h:2070-2746 | every run of insertions, erasures and lookups on a valid tree keeps it valid, gives the answers that a map gives and ends with that map |
| `BTreeRuns.OrderIsSettled` | include/btree.h:2070-2746 | two runs, on whatever trees, that end with the same map end with the same pairs in the same order |
| `BTreeRuns.HeightBound` | include/btree.h:3457-3539 | what the self-check asks of every node makes the height logarithmic: the least number of pairs grows with the power of the least fan-out |
| `BTreeImage.RoundTrip` | include/btree.h:3704-3785 | reading back the records of a tree, whatever follows them in the stream, gives that tree and stops right behind them |
| `BTreeImage.ImageIsUnique` | include/btree.h:3704-3785 | two trees never have the same records, nor are the records of one the start of those of another |
| `BTreeImage.StreamOrder` | include/btree.h:3704-3727 | the root comes first, the node behind an inner one is one level lower, and the pairs of the leaf records, in the order of the file, are the content |
| `BTreeImage.CutShort` | include/btree.h:3731-3785 | the reader reports failure for a stream cut short exactly if it is empty, and builds a tree without a hole exactly if nothing is missing |
| `BTreeDump.Dump` | include/btree.h:3650-3661 | the file is the image of the tree: signature, version, sizes, both capacities, no duplicates and the count, each in its header field, and the nodes in preorder |
| `BTreeDump.Restore` | include/btree.h:3667-3696 | from a file with a valid tree, whatever its signature, that tree comes back, with shape, keys, data, levels, a fresh leaf list in both directions and true counts; a header is taken exactly if version, sizes, both capacities and the flag for duplicates are the tree's own, and any other leaves the old tree alone; and the result is true exactly if the header is taken and the count is zero or a first node can be read |
| `BTreeDump.SignatureIsNotCompared` | include/btree.h:3630-3641 | a file and the same file with any other signature restore with the same result and to the same tree |
| `Memory.NtStore` | src/main/memtool.c:566-623 | the word loop and the last partial word store exactly the given bytes: the padding of the last word rewrites what was there |
| `Memory.LEByte` | src/main/LAT.cpp:299-315 | byte `i` of a machine value is its quotient by 256^i modulo 256 |
| `Memory.LastWriteWins` | src/main/LAT.cpp:322-383 | after a replay every byte is that of the last write that covers it, and the old one if none does |
| `Memory.ReplayAbsorbs` | src/main/WrapLogger.cpp:187-262 | replaying writes over a memory that differs only where they write, in whatever way, has the same result |
| `WrapLog.WrapLogger.WrapLogOpen` | src/main/WrapLogger.cpp:84-101 | the parity is inverted, the log counts as incomplete, has no entries and carries the wrap's number |
| `WrapLog.WrapLogger.AddWrapLogEntry` | src/main/WrapLogger.cpp:136-175 | one entry more, behind the others, in the bytes of the format; nothing else on the log changes |
| `WrapLog.EntryFormat` | src/main/WrapLogger.cpp:151-174 | both forms of an entry, byte by byte: the parity in bit 0 of the mask, a one in bit 1, the size above, the destination and the data; or, for four bytes, what home memory holds behind its destination, and the data |
| `WrapLog.WrapLogger.WrapLogClose` | src/main/WrapLogger.cpp:103-117 | the terminator is behind the entries and the log is complete, and the bytes stored since the open, in order, are those of `LogStores` |
| `WrapLog.RoundTripExactly` | src/main/WrapLogger.cpp:136-262 | for every list of writes: the decoder reads back what was appended, whatever home memory holds and whatever was in the buffer, if and only if no entry has four bytes or a null destination |
| `WrapLog.DecodeStops` | src/main/WrapLogger.cpp:196-251 | when home memory has the other parity the decoder returns exactly the entries before the first such one |
| `WrapLog.ClosedLogReadsBack` | src/main/WrapLogger.cpp:84-251 | a closed log with readable entries is complete, has the parity of its wrap and decodes to the writes in order |
| `WrapLog.RestoreWrapLogEntries` | src/main/WrapLogger.cpp:187-262 | home memory is the old one with the writes replayed in order, the result is their number, and the log is then incomplete with the same parity |
| `WrapLog.CloseStaysInside` | src/main/WrapLogger.cpp:103-107 | after entries that all passed the room check of an append, the close leaves everything behind the log as it was, whatever that is, if and only if the entries leave sixteen bytes |
| `WrapLog.AppendCheckLeavesNoRoom` | src/main/WrapLogger.cpp:144-150 | an entry that the room check admits and whose terminator ends fifteen bytes behind the log |
| `Bloom.BloomFilter.SetBloomRange` | src/main/bloom.h:25-29 | after it exactly those addresses are flagged that were, or that share a bit with an address the loop visits |
| `Bloom.BloomFilter.CheckBloomRange` | src/main/bloom.h:31-37 | true exactly if some address the loop visits is flagged |
| `Bloom.SharedBit` | src/main/bloom.h:11-37 | which addresses the filter cannot tell apart, in terms of the addresses: 256 of them share one of 1024 words, and a word keeps the granules modulo 32 only |
| `Bloom.StepsCover` | src/main/bloom.h:25-37 | the loop visits the granule of every byte of a range if and only if the offset of its start and the rest of its size together stay within one granule |
| `Bloom.NeverMissed` | src/main/bloom.h:25-37 | every aligned read that overlaps a write finds a flag of it if and only if the write is aligned in that sense or its last byte folds onto a bit that was set for a granule before it |
| `Bloom.MissedOverlap` | src/main/bloom.h:25-37 | a two-byte write at address 3 that a read of its second byte does not find |
| `LogAliasTable.OverlayIsWrite` | src/main/LAT.cpp:97-172 | the three cases of overlap, or none, leave in the buffer what the entry's write leaves in the range that is read |
| `LogAliasTable.LAT.WriteTo` | src/main/LAT.cpp:179-217 | the list of writes is the old one with this write behind it; slices of the data area do not overlap; the filter covers it; and the data area has been used for the writes of this wrap with more than eight bytes and nothing else |
| `LogAliasTable.LAT.OnWrapOpen` | src/main/LAT.cpp:390-395 | the table has no writes, the filter no marks, and the whole data area is free, whatever earlier wraps have written |
| `LogAliasTable.RoomForAll` | src/main/LAT.cpp:188-202 | every write of a list within the two limits of the table, its number and its bytes in long writes, finds room when its turn comes |
| `LogAliasTable.LAT.Store` | src/main/LAT.cpp:269-319 | the same for a machine value: byte `i` of the write is the value's quotient by 256^i modulo 256 |
| `LogAliasTable.ReadsOwnWritesExactly` | src/main/LAT.cpp:72-177 | over all memories, a read returns home memory with the writes replayed if and only if it meets the mark of one of them in the filter or none of them covers any of it |
| `LogAliasTable.AlignedReadsMeet` | src/main/LAT.cpp:72-177 | an aligned read meets a mark wherever aligned writes cover a byte of it |
| `LogAliasTable.LAT.ReadInto` | src/main/LAT.cpp:72-177 | the buffer has the bytes of home memory with all writes replayed in order whenever the scan is not skipped or all ranges are aligned, and those of home memory when it is skipped; which of the two is exactly whether the read meets a mark, if the filter has those of this wrap alone |
| `LogAliasTable.LAT.RestoreToCacheHierarchy` | src/main/LAT.cpp:362-383 | home memory is the old one with all writes replayed in order and the table is empty, whether or not write-back is delayed; every write is streamed home exactly if it is not |
| `WrapSoftware.WrapImplSoftware.WrapImplOpen` | src/main/WrapImplSoftware.cpp:55-66 | only the outermost open starts a wrap, with an empty log and an empty table; the writes pending stay as they are |
| `WrapSoftware.WrapImplSoftware.WrapImplWrite` | src/main/WrapImplSoftware.cpp:119-129 | where the writes of this wrap leave room, the write is both on the log and in the table, which hold the same writes in the same order; home memory is unchanged |
| `WrapSoftware.WrapImplSoftware.WrapImplStore` | src/main/WrapImplSoftware.cpp:145-178 | the same for stores of one, two, four or eight bytes, byte `i` being the value's quotient by 256^i modulo 256 |
| `WrapSoftware.WrapImplSoftware.WrapImplRead` | src/main/WrapImplSoftware.cpp:131-143 | any read inside a wrap, aligned or not, is of home memory with the pending writes replayed if it meets a mark of one, else of home memory alone; so it sees the wrap's own writes if it meets a mark or none of them covers any of it |
| `WrapSoftware.WrapImplSoftware.WrapImplClose` | src/main/WrapImplSoftware.cpp:68-117 | inner closes change nothing but the count; the outermost one leaves a complete log of exactly the wrap's writes, home memory with all of them, streamed there unless write-back is delayed, and on record the stores that `CrashAtomicity` takes apart |
| `WrapRuns.OneWrap` | src/main/WrapImplSoftware.cpp:55-129 | a list of writes that fits an empty log and an empty table is carried out as a wrap after whatever wraps came before it |
| `WrapRuns.RunWraps` | src/main/WrapImplSoftware.cpp:55-129 | so is any run of such lists, and home memory ends with all their writes in order |
| `CrashAtomicity.StoresOfLogger` | src/main/WrapLogger.cpp:84-175 | the stores whose prefixes the crash theorems range over are those that the logger has on record after a close |
| `CrashAtomicity.NotYetComplete` | src/main/WrapLogger.cpp:84-117 | from the first byte stored by an open to the last before the final flag, the log does not count as complete |
| `CrashAtomicity.CompleteOnceMarked` | src/main/WrapLogger.cpp:103-117 | from the first byte of the final flag on it is complete and decodes to the wrap's writes |
| `CrashAtomicity.WrapIsAtomic` | src/main/WrapImplSoftware.cpp:55-83 | wherever a crash comes, recovery finds home memory as before the wrap or with all its writes, even when any part of them had already reached home |
| `CrashAtomicity.RunIsAtomic` | src/main/WrapImplSoftware.cpp:55-83 | over any run of wraps in one log, recovery finds the outcome of the first so many wraps, each complete |
| `CrashAtomicity.RecoveryMayCrash` | src/main/WrapLogger.cpp:187-262 | a crash during recovery itself is harmless |
| `CrashAtomicity.ReopenSafeExactly` | src/main/LAT.cpp:371-377 | over all states that a crash may leave between the close of a wrap and the next open: opening the log again changes nothing about what recovery finds if and only if write-back was not delayed or the wrap writes no byte |
| `CrashAtomicity.LostWrap` | src/main/LAT.cpp:371-377 | for every wrap and every byte it writes, a crash state with delayed write-back in which recovery finds the whole wrap before the open and not after it |
| `Reopening.OpenedTooEarly` | src/main/LAT.cpp:371-377 | on real objects, with a delayed table: a wrap of one byte is opened, written and closed, and the log opened a second time; nothing has been streamed home, recovery finds the byte before the second open, and without it after |
| `HashTable.LFHT.SetItem` | src/main/LFHT.cpp:185-241 | the table maps the key to the value and is otherwise the same map; the slot is the first, from the hash modulo the size on around the table, that is free or has the key; no probe path gets a hole; the count grows exactly for a new key |
| `HashTable.LFHT.GetItem` | src/main/LFHT.cpp:143-163 | the probe ends, with the value and size last set, or zeros for an absent key |
| `HashTable.LFHT.GetItemAddress` | src/main/LFHT.cpp:165-183 | the slot of the key, found exactly if the map has it, since the filter never hides one; in a table with slots freed since, found exactly if a probe for it ends at it |
| `HashTable.FreeMeansAbsent` | src/main/LFHT.cpp:145-162 | a free slot on the way of a probe means that the key is nowhere in the table |
| `Variables.StoresMakeImage` | src/main/AliasTableHash.cpp:117-121 | storing to variables that do not overlap one after the other makes the image of the last stores |
| `Retirement.RestoreAllElements` | src/main/AliasTableHash.cpp:124-222 | home memory is the old one with every slot in use stored, and the table and its count are empty |
| `Lookaside.ATL.StoreTo` | src/main/ATL.cpp:92-100 | the table holds the last stores of the wrap and the list names the slot of each as far as it goes |
| `Lookaside.ATL.RestoreToCacheHierarchy` | src/main/ATL.cpp:135-174 | through the list or by the full scan: home memory is the old one with all stores of the wrap made in order, and the table is empty |
| `Lookaside.ListedMakeImage` | src/main/ATL.cpp:142-153 | writing the listed slots in the order of the list, however often it names one, comes to the stores of the wrap |
| `DoubleBuffer.AT2.Store` | src/main/AT2.cpp:279-283 | a store into the table in use is a store step |
| `DoubleBuffer.AT2.OnWrapClose` | src/main/AT2.cpp:198-244 | exactly if the table in use has more items than its size over the divisor, the close is a swap step and a clear step; else nothing changes |
| `DoubleBuffer.AT2.SwapTables` | src/main/AT2.cpp:198-244 | the change of tables under the lock is a swap step |
| `DoubleBuffer.AT2.RetireSlot` | src/main/AliasTableHash.cpp:130-166 | one slot of the retirement loop is one step for a free slot, else a store step home and a freeing step |
| `DoubleBuffer.NothingIsLost` | src/main/AT2.cpp:84-283 | home memory overlaid by the table being retired and then by the one in use is the memory that all stores would have made one after the other |
| `DoubleBuffer.RunLosesNothing` | src/main/AT2.cpp:84-283 | this holds in every state of every interleaving of stores, swaps, clears and single retirement steps |
| `DoubleBuffer.SwapFindsEmpty` | src/main/AT2.cpp:208-240 | a table is only gone over to when it is empty and not being retired |
| `DoubleBuffer.AT2.Load` | src/main/AT2.cpp:266-277 | the slot where a probe of the table in use ends, else that of the other table, else home |
| `HalfRetired.FoundExactly` | src/main/AliasTableHash.cpp:130-166 | in a table that was whole until its first so many slots were freed, a probe finds a key that is still there if and only if no slot has been freed, or the key hashes behind the freed slots and not behind its own |
| `HalfRetired.LookupExactly` | src/main/AT2.cpp:266-277 | in every state of every interleaving and for every variable stored to: what a lookup returns is the last store to it if and only if it is not such a key in the table being retired, or home memory happens to hold that value |
| `HalfRetired.StaleLookup` | src/main/AT2.cpp:266-277 | a run from the start in which a lookup returns a value older than the last store |
| `DoubleBuffer.RetirementAdvances` | src/main/AT2.cpp:84-131 | while a table is being retired the thread has a step to make if and only if it is not at a slot of a width that it cannot store, and every step brings the end nearer |
| `DoubleBuffer.NeverStuck` | src/main/AliasTableHash.cpp:135-160 | if every store has a width that the loop can store, no state of a run is stuck |
| `Stalling.StallsExactly` | src/main/AliasTableHash.cpp:135-160 | for every run on variables of home memory: some continuation without stores gets the retirement thread stuck if and only if some store of the run had two bytes or more than eight |
| `Stalling.TwoByteStore` | src/main/AliasTableHash.cpp:140-146 | a run from the start, of one two-byte store, a change of tables and a retirement step, that ends stuck |
| `TableProtocol.EveryRun` | src/main/AT3.cpp:138-444 | in every state of every run the counts are those of the open wraps, a table on its way out has no writer, one that waits for its writers has some, one that is free, waits for its readers or is being cleared has no item that is not home, one handed over has too many, and no wake-up is lost |
| `TableProtocol.OpenReadsItems` | src/main/AT3.cpp:138-188 | an open that finds a table gets A if that may be taken, and reads the other one whenever that one has items that are not home, but no table that is free or waits for its readers |
| `TableProtocol.EveryOpenReadsItems` | src/main/AT3.cpp:138-188 | so does every open in every run |
| `TableProtocol.CloseHandsOver` | src/main/AT3.cpp:192-272 | a close hands its table over exactly when that has too many items, to retirement if no writer is left and else to wait for them; nobody takes it then |
| `TableProtocol.ClearingBegins` | src/main/AT3.cpp:384-409 | a table is cleared only after its items have gone home, and when that begins nobody reads it |
| `TableProtocol.BlockedOpenIsServed` | src/main/AT3.cpp:147-165 | when an open finds no table the retirement thread has one to work on and is awake, or some wrap is open and can close |
| `TableProtocol.EveryMoveCounts` | src/main/AT3.cpp:138-433 | while an open is blocked every close and every retirement step makes a table available or lowers what is left, and further opens and stores do not raise it |
| `TableProtocol.BlockedForSoLong` | src/main/AT3.cpp:138-433 | in whatever order the steps come, no more closes and retirement steps than are left go by while no table is available |
| `TableProtocol.WayToTable` | src/main/AT3.cpp:138-433 | from every reachable state so many closes and retirement steps, or fewer, lead to a table that may be taken |
| `TableProtocol.ClearedUnwritten` | src/main/AT3.cpp:384-433 | nobody writes to a table that is being restored or cleared, and one that is cleared after waiting has no reader |
| `TableProtocol.OpenReads` | src/main/AT3.cpp:166-185 | beside a table that is being cleared: an open gives it a reader exactly if it is still marked as retiring and the other one may be taken |
| `TableProtocol.ReadWhileCleared` | src/main/AT3.cpp:138-433 | some run of opens, closes and stores gives a table that nobody reads a reader while it is cleared if and only if, when the clearing begins, it is marked as retiring and the other table may be taken |
| `TableProtocol.ReaderWhileCleared` | src/main/AT3.cpp:384-409 | a run from the start that ends with such a reader |
| `RangeTree.InsertInOrder` | src/main/avl.cpp:90-134 | whatever rotations it makes, an insertion puts the range behind all that begin at or below its key and keeps the order |
| `RangeTree.LogarithmicHeight` | src/main/avl.cpp:90-134 | a balanced tree is at most about twice as high as the logarithm of its size |
| `RangeTree.GetBasePtrIs` | src/main/avl.cpp:149-178 | where ranges lie apart: the base of the one range that holds the address, or the address itself if none does |
| `RangeTree.BaseInOrdered` | src/main/avl.cpp:149-178 | in any ordered tree, with ranges that repeat or overlap: the base of the topmost holding range on the way of the search; the range put last under the greatest key at or below the address is always on it |
| `RangeBalance.BalancedExactly` | src/main/avl.cpp:90-134 | an insertion keeps a balanced tree balanced if and only if no node on its way falls through all four cases without being repaired further up, which is read off the tree and the key before the insertion |
| `RangeBalance.NewKeyBalanced` | src/main/avl.cpp:90-134 | a key that is not in the tree never falls through |
| `RangeBalance.EqualKeysUnbalance` | src/main/avl.cpp:109-131 | three insertions of one key do |
| `RangeBalance.RepairedAbove` | src/main/avl.cpp:109-131 | a tree in which a node falls through and the rotation at its parent repairs it |
| `RangeIndex.InsertAtNode` | src/main/avl.cpp:90-134 | the nodes on the heap, after links and heights have been changed in place, hold the tree that the insertion function makes |
| `RangeIndex.AddressIndex.PutBasePtr` | src/main/avl.cpp:162-166 | any range is put in order; the tree stays balanced exactly if the insertion does not fall through, and the index valid if the range overlaps none of the others |
| `RangeIndex.AddressIndex.GetBasePtr` | src/main/avl.cpp:169-178 | whatever was put there: the base of the topmost range on the way that holds the address, or the address itself; where ranges lie apart but for those put again under the same key, that of the last put if it holds the address; where they lie apart, that of whichever holds it |
| `RangeIndex.AddressIndex.AdjBasePtrSize` | src/main/avl.cpp:180-184 | the range that the search finds, and no other, gets the new length; where the ranges lay apart they still do exactly if the length fits before the next one |
| `Levels.ComputeLevels` | src/graph500-2.1.4/verify.c:17-81 | every level set is the distance from the root; the result is zero exactly if every vertex with a parent reaches the root, and then exactly the vertices that reach it have a level; else there is a first vertex whose climb is bad, and the result is -2 if that climb runs off the end and -1 if it never ends |
| `Levels.EndsSoon` | src/graph500-2.1.4/verify.c:43-53 | a climb that ends makes fewer hops than there are vertices, which is what the bound in the loop relies on |
| `Levels.VerdictZero` | src/graph500-2.1.4/verify.c:38-78 | when the result is zero, in terms of reaching the root |
| `Words.TrueReversal` | src/graph500-2.1.4/generator/graph_generator.c:78-91 | bit `i` of the reversed word is bit `63 - i` of the word |
| `Words.TrueReversalByHalves` | src/graph500-2.1.4/generator/graph_generator.c:93-113 | so it is for the form that reverses two halves and swaps them |
| `Scramble.ReversedNumber` | src/graph500-2.1.4/generator/graph_generator.c:73-116 | the number of the reversed word is the number with its 64 bits reversed |
| `Scramble.OrOfWords` | src/graph500-2.1.4/generator/graph_generator.c:123-126 | the disjunction in the multipliers, as a number, is that of the words |
| `Scramble.ScrambleIs` | src/graph500-2.1.4/generator/graph_generator.c:120-130 | the number that comes out, as a formula: two rounds, each a product with the seed and a constant in it, modulo 2^n, and a reversal of n bits; the width of the word does not matter |
| `Scramble.ScrambleOfWords` | src/graph500-2.1.4/generator/graph_generator.c:73-130 | the operations of the machine on words of 64 bits, reversal, disjunction and shift, given sum and products modulo 2^64, make that number |
| `Scramble.UnscrambleAfterScramble` | src/graph500-2.1.4/generator/graph_generator.c:120-130 | the result is below 2^n and determines the lowest n bits of the argument: numbers below 2^n never collide, for all seeds |
| `Scramble.ScrambleAfterUnscramble` | src/graph500-2.1.4/generator/graph_generator.c:120-130 | every number below 2^n is the scrambling of one, so it is a permutation |
| `ModularArithmetic.Mac32` | src/graph500-2.1.4/generator/mod_arith_32bit.h:47-60 | product, sum and fold agree with exact arithmetic modulo 2^31 - 1, and no intermediate value leaves its word |
| `ModularArithmetic.Mac4_32` | src/graph500-2.1.4/generator/mod_arith_32bit.h:82-93 | so do four products and a sum |
| `ModularArithmetic.Schrage` | src/graph500-2.1.4/generator/mod_arith_32bit.h:110-128 | multiplication by a constant through quotient and remainder is exact modulo 2^31 - 1, with both parts within a signed word |
| `ModularArithmetic.MulX32` | src/graph500-2.1.4/generator/mod_arith_32bit.h:110-118 | for the first constant of the generator |
| `ModularArithmetic.MulY32` | src/graph500-2.1.4/generator/mod_arith_32bit.h:120-128 | for the second |
| `ModularArithmetic.Mac4_64` | src/graph500-2.1.4/generator/mod_arith_64bit.h:59-70 | the single expression with one division has the same value, and four products and a sum do not overflow 64 bits |

## Findings

Where the code does not do what it is for, the model follows the code, a member shows an
input, and another says exactly when it does.

- *Four-byte and null entries.* A four-byte log entry stores, instead of a mask and its
  destination, eight bytes read at the destination itself, and the branch that would decode
  it is commented out (src/main/WrapLogger.cpp:152-160 and 209-226); a null destination
  reads as the end. `WrapLog.UnreadableLog` has the input for every such list, and
  `WrapLog.RoundTripExactly` the condition.
- *Room for the terminator.* An append checks for twelve bytes and the data, a close stores
  sixteen more (src/main/WrapLogger.cpp:105-106 and 144). `WrapLog.AppendCheckLeavesNoRoom`
  and `WrapLog.CloseStaysInside`.
- *A log reopened too early.* With delayed write-back nothing flushes the copies to home
  memory at the close (src/main/LAT.cpp:371-377). `Reopening.OpenedTooEarly` is a run that
  loses a byte and `CrashAtomicity.LostWrap` a lost crash state for every wrap that writes;
  `CrashAtomicity.ReopenSafeExactly` has the condition.
- *Reads that the filter loses.* The range loops go up by four from an address that need not
  be a multiple of four. `Bloom.MissedOverlap`, with `Bloom.StepsCover` and
  `Bloom.NeverMissed` for the exact conditions.
- *The signature of a dump.* The header check looks at its own signature, not at the file's
  (include/btree.h:3630-3641), and only the first node of a file can make a restore fail
  (include/btree.h:3684). `BTreeDump.SignatureIsNotCompared` and `BTreeImage.CutShort`.
- *A reader while a table is cleared.* A table that was restored without readers stays marked
  as retiring while it is cleared without the lock, so an open on the other table may begin
  to read it (src/main/AT3.cpp:384-409). `TableProtocol.ReaderWhileCleared` and
  `TableProtocol.ReadWhileCleared`.
- *Equal keys in the range tree.* No case of the rebalancing is meant for a key equal to the
  heavy child's. `RangeBalance.EqualKeysUnbalance` and `RangeBalance.BalancedExactly`; the
  guard alone does not decide it (`RangeBalance.RepairedAbove`).
- *Lookups in a table that is being retired.* The loop frees slots one by one, which cuts the
  ways to keys behind them (src/main/AliasTableHash.cpp:164), and a lookup probes that table
  too (src/main/AT2.cpp:272). `HalfRetired.StaleLookup` is a run in which it misses a key and
  the address returned holds an older value; `HalfRetired.FoundExactly` and
  `HalfRetired.LookupExactly` say exactly when.
- *Widths that the retirement loop cannot store.* A slot of two bytes stops the program and
  one of more than eight holds a pointer (src/main/AliasTableHash.cpp:140-156).
  `Stalling.TwoByteStore` is a run that ends stuck, `Stalling.StallsExactly` the condition
  over all runs and `DoubleBuffer.RetirementAdvances` that at one state.

## Left out

- The iterator classes, duplicate keys, `erase(iterator)`, bulk and copy operations, allocators and debug output of the B+ tree: nothing deeper than the tree itself.
- `include/WrapBTree.h`: the same algorithm over persistent cells of fixed capacity; keys of other types than integers.
- BPlusTree.BTree.EraseOne: what happens to the memory of freed nodes is not modelled; they are only outside the tree.
- BTreeDump.Restore: a file whose nodes are malformed, with more slots in use than there are slots or levels that do not descend, is not covered; the code uses it unchecked.
- `erase`, `clear` and `size` as separate operations: repetitions of `EraseOne` and fields of the model.
- `WrapVar.h`, `WrapArray.h`, `WrapMap.h`, `palloc.h` and the older tables (`AliasTable`, `AliasTableMap`, `AliasTableSingle`, `LATsaved`, `AT2Lock`): containers and earlier versions of what is modelled.
- The choice and removal of logs by the log manager, the undo log, and streaming writes that bypass the log: no recovery code, or not atomic by design.
- Memory.NtStore: fences, flushes, delays and cache lines; a store is modelled as the bytes it leaves.
- CrashAtomicity.WrapIsAtomic: log stores are taken to persist in program order, byte by byte, since the synchronization between the entries and the flag is commented out (src/main/WrapLogger.cpp:110).
- CrashAtomicity.RunIsAtomic: home memory is taken to have all writes of a wrap before its log is opened again; `CrashAtomicity.ReopenSafeExactly` says what that assumption is worth.
- LogAliasTable.LAT.ReadInto: one thread. The entries are per thread but the filter belongs to the object, so another thread's open would clear it.
- WrapSoftware.WrapImplSoftware.WrapImplWrite: a write from a location to itself, which the code ignores, and more entries or data than the table holds, which it asserts against.
- WrapSoftware.WrapImplSoftware.WrapImplClose: the cleanup options other than none.
- HashTable.LFHT.SetItem: the exchange of several threads for one slot; room for one more key is required, which the code asserts by a limit on the probe.
- HashTable.LFHT.Clear: it does not reset the count of items, as in the code; retirement does.
- The hash function: any function of the key.
- Retirement.RestoreAllElements: values of more than eight bytes, which are pointers to copies, and the assertion on two bytes, are outside `Storable`.
- Stalling.StallsExactly: a slot of more than eight bytes counts as one that the loop cannot store, since the copy behind its pointer is not modelled.
- Lookaside.ATL.RestoreToCacheHierarchy: stores go to variables of one width each that do not overlap, of the four widths the copy has a case for.
- HalfRetired.LookupExactly: a lookup is one step; one whose probe is overtaken by the retirement loop on its way is not covered.
- TableProtocol.EveryRun: what is in the tables, and which of two open wraps on different tables wrote last; the forced flush and the destructor, which bypass the protocol.
- RangeIndex.AddressIndex.AdjBasePtrSize: an address for which the search finds no range; there the code follows a null pointer.
- Levels.ComputeLevels: the sequential reading of the loop, and a build without assertions: with them a vertex other than the root that is its own parent stops the program at src/graph500-2.1.4/verify.c:49, where the model returns -1.
- Scramble.ScrambleOfWords: that a sum or product of machine words is the word of the number modulo 2^64, as C defines it, is taken as given.
- The random number generator, the Kronecker edges, floating point, OpenMP, MPI and XMT variants, timing, statistics, simulators and tests.
