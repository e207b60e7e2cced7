# little-things, the verified core

A Dafny model of three small C# data-structure libraries, with proofs of what each promises.

**The Game of Life grid.** `LifeGrid` is an immutable toroidal grid whose cells are packed eight to a byte, with the most significant bit leftmost. `SetLiveCell` ORs one bit into a copy of the state. `GetLiveCells` lists the live cells row by row and skips zero bytes. `Step` computes the next generation byte by byte:
- it wraps the block offsets at the row ends and the rows at the top and bottom;
- it skips a byte whose 3×3 block neighbourhood is all zero;
- it counts the eight neighbours with rotated left and right masks;
- it applies "born with 3, survives with 2 or 3".

The model proves that `Step` computes exactly the abstract Life rule on the torus. This includes the degenerate sizes:
- On a grid one byte (8 cells) wide, the bytes to the left and right of a byte are the byte itself; the cells x − 1, x and x + 1 stay distinct.
- On a grid one or two rows high, the row above and the row below are the same row. On a grid one row high, that row is the cell's own row, so `Step`'s centre probes above and below count a live cell twice as its own neighbour. The abstract rule counts neighbours by position on the torus and counts it twice as well, so "a cell is never its own neighbour" does not hold on one-row grids.

**Two separate-chaining hash tables.**
- `HashMap.MyDictionary` keeps an `int[]` of bucket heads and an `Entry[]` linked by index. It appends entries at `m_nextAvailable`, unlinks them on removal, and rebuilds both arrays at size 2n+1 when the entry array is full.
- `DataStructures.MyDictionary` chains heap nodes from a bucket array. It prepends on `Add` and grows to 2n+1 when the count reaches the bucket count.

Both hash tables are proved to behave as finite maps. Each operation's result is stated against the map the table stored before. The bucket of a key is `Math.Abs(hash % count)` with C#'s truncating remainder.

**The binary-heap priority queue.** `DataStructures.PriorityQueue` is an array heap with a min and a max variant. It uses `ComparerUtility`'s `Is(...).LessThanOrEqualTo(...)` style of comparison and `ObjectUtility.Swap`. `Enqueue` bubbles up, `Dequeue` moves the last item to the root and bubbles down, and `Peek` reads the root. The model proves the heap invariant, that the root is extremal, and the exact multiset of items after each operation.

## Files and modules

- `common.dfy` (`Common`): the error kinds, `Result` and `Option`. It also has C#'s truncating `%`, `Math.Abs`, and the bucket index both dictionaries use.
- `entry_maps.dfy` (`EntryMaps`): a set of key/value pairs with unique keys, and the map it denotes.
- `chains.dfy` (`BucketChains`): bucket chains as sequences of bindings. It covers what prepending, appending, unlinking and overwriting do to the stored pairs and to the table's shape.
- `life_grid.dfy` (`LifeGrid`): the grid, the abstract rule and the three operations.
- `comparer_utility.dfy` (`ComparerUtility`): `Comparison<T>` and `Is`. A comparer is a function `(T, T) -> int`.
- `object_utility.dfy` (`ObjectUtility`): `Swap`, on a pair and on two slots of a sequence.
- `priority_queue.dfy` (`PriorityQueue`): the heap, bubbling, resizing, `Create`, `Enqueue`, `Dequeue` and `Peek`.
- `data_structures_dictionary.dfy` (`DataStructuresDictionary`): the node-chained dictionary.
- `hashmap_dictionary.dfy` (`HashmapDictionary`): the index-chained dictionary.

All values are immutable. Every operation returns a new grid, queue or dictionary instead of mutating one. Exceptions are `Err` results, or a `thrown` out-parameter where the operation also returns the table.

## Model

| member | source | states |
|---|---|---|
| Common.CsRem | algorithm-design-manual/DataStructures/MyDictionary.cs:121 | C#'s `%` truncates toward zero: the remainder has the dividend's sign, is smaller than the divisor in magnitude, and `a == q * n + r` |
| Common.BucketIndex | hashmap/MyDictionary.cs:55-56 | `Math.Abs(hash % count)` is always a valid bucket; for a negative hash it is `(-hash) mod count`, not the Euclidean residue |
| LifeGrid.NewGrid | game-of-life/GameOfLife/LifeGrid.cs:16-30 | construction succeeds exactly when width > 0, height > 0 and width is a multiple of 8; otherwise it gives the out-of-range error for width, then for height, then an `ArgumentException` with no parameter name (its message is "width") for a width that is not a multiple of 8; a new grid has width/8 × height zero bytes and no live cell |
| LifeGrid.BitOfWithBit | game-of-life/GameOfLife/LifeGrid.cs:63-64 | OR-ing in the mask of cell i sets bit i and leaves every other bit as it was |
| LifeGrid.BlockIndex | game-of-life/GameOfLife/LifeGrid.cs:63 | `y * bytesPerRow + x / 8` lies in the state, in row y and byte column x / 8 |
| LifeGrid.CellOfBlock | game-of-life/GameOfLife/LifeGrid.cs:83-89 | bit j of byte `row * bytesPerRow + column` is set exactly when cell (column × 8 + j, row) is live |
| LifeGrid.SetLiveCell | game-of-life/GameOfLife/LifeGrid.cs:53-67 | succeeds exactly for in-bounds cells, with the x error checked before the y error; the result has the same size and its live cells are the old ones plus (x, y) |
| LifeGrid.SetLiveCellCell | game-of-life/GameOfLife/LifeGrid.cs:63-64 | after setting (x, y), a cell is alive exactly when it was alive before or is (x, y) |
| LifeGrid.SetLiveCellIdempotent | game-of-life/GameOfLife/LifeGrid.cs:53-67 | setting the same cell twice gives the same grid as setting it once |
| LifeGrid.SetLiveCellCommutes | game-of-life/GameOfLife/LifeGrid.cs:53-67 | setting two cells in either order gives the same grid |
| LifeGrid.BlockCells | game-of-life/GameOfLife/LifeGrid.cs:86-90 | the inner loop yields exactly the set bits of the byte, as cells of row y at `baseX + i`, left to right |
| LifeGrid.EarlierBlockFirst | game-of-life/GameOfLife/LifeGrid.cs:75-84 | a cell in an earlier byte comes earlier in row-major order |
| LifeGrid.ScanBlock | game-of-life/GameOfLife/LifeGrid.cs:79-90 | the cells emitted for one byte, nothing when it is zero, are exactly the live cells stored in that byte, all in bounds, in strictly row-major order |
| LifeGrid.ScanFrom | game-of-life/GameOfLife/LifeGrid.cs:75-91 | scanning from byte b yields exactly the live cells in bytes b and later, in strictly row-major order |
| LifeGrid.GetLiveCells | game-of-life/GameOfLife/LifeGrid.cs:73-92 | a cell is listed exactly when it is live; every listed cell is in bounds; the list is strictly row-major and has no duplicates |
| LifeGrid.LeftMaskRotates | game-of-life/GameOfLife/LifeGrid.cs:129-130 | `(centre << 1) \| (centre >> 7)` is the mask of cell (i + 7) mod 8, the left neighbour, wrapping into the previous byte at cell 0 |
| LifeGrid.RightMaskRotates | game-of-life/GameOfLife/LifeGrid.cs:129-131 | `(centre >> 1) \| (centre << 7)` is the mask of cell (i + 1) mod 8, wrapping into the next byte at cell 7 |
| LifeGrid.LeftNeighbourCell | game-of-life/GameOfLife/LifeGrid.cs:110-133 | the left neighbour on the torus, (x − 1) mod width, lies in the byte `x / 8 + cellLeftBlockOffset`, at bit (i + 7) mod 8 |
| LifeGrid.RightNeighbourCell | game-of-life/GameOfLife/LifeGrid.cs:114-134 | the right neighbour, (x + 1) mod width, lies in the byte `x / 8 + cellRightBlockOffset`, at bit (i + 1) mod 8 |
| LifeGrid.RowsAround | game-of-life/GameOfLife/LifeGrid.cs:107-108 | the rows Step reads above and below are (y − 1) mod height and (y + 1) mod height |
| LifeGrid.NarrowGridOffsets | game-of-life/GameOfLife/LifeGrid.cs:110-116 | both block offsets are 0, so the neighbouring bytes are the cell's own byte, exactly when the grid is 8 cells wide |
| LifeGrid.ShortGridRows | game-of-life/GameOfLife/LifeGrid.cs:107-108 | the rows above and below coincide exactly when the grid is 1 or 2 rows high, in Step and on the abstract torus alike |
| LifeGrid.ProbeCell | game-of-life/GameOfLife/LifeGrid.cs:141-156 | testing the centre mask in the byte above or below counts the cell straight above or below |
| LifeGrid.ProbeLeft | game-of-life/GameOfLife/LifeGrid.cs:139-153 | testing the left mask in the byte at `cellLeftBlockOffset` counts the left neighbour on the torus |
| LifeGrid.ProbeRight | game-of-life/GameOfLife/LifeGrid.cs:143-157 | testing the right mask in the byte at `cellRightBlockOffset` counts the right neighbour on the torus |
| LifeGrid.RowHitsCount | game-of-life/GameOfLife/LifeGrid.cs:138-158 | the probes into one row count the live cells among that row's three (or two, beside the cell) neighbour positions |
| LifeGrid.NeighbourCountCorrect | game-of-life/GameOfLife/LifeGrid.cs:136-158 | `aliveNeighbors` equals the number of live cells among the eight torus neighbours, for every grid size |
| LifeGrid.Value | game-of-life/GameOfLife/LifeGrid.cs:119-121 | a byte's value is between 0 and 255 and is 0 exactly when no bit is set, so the nine-byte sum is 0 only when all nine bytes are 0 |
| LifeGrid.ZeroRowNoHits | game-of-life/GameOfLife/LifeGrid.cs:118-125 | when the three bytes of a row around the block are zero, no probe into that row counts a neighbour |
| LifeGrid.SkipSound | game-of-life/GameOfLife/LifeGrid.cs:118-125 | when the 3×3 block neighbourhood sums to zero, no cell of the byte is alive in the next generation, so skipping it is sound |
| LifeGrid.AssembleByte | game-of-life/GameOfLife/LifeGrid.cs:160-162 | OR-ing the centre masks of the cells that live gives a byte whose bit j is set exactly when cell j lives |
| LifeGrid.NextBlock | game-of-life/GameOfLife/LifeGrid.cs:118-163 | bit i of the new byte is set exactly when the neighbour count makes cell i live, whether the byte was skipped for a zero neighbourhood or assembled cell by cell |
| LifeGrid.SkipAllSound | game-of-life/GameOfLife/LifeGrid.cs:118-125 | when the nine bytes around a byte sum to zero, keeping it zero agrees with the count for all eight of its cells |
| LifeGrid.Step | game-of-life/GameOfLife/LifeGrid.cs:98-167 | the next grid has the same size and its live cells are exactly the next generation of the abstract rule on the width × height torus |
| LifeGrid.StepLive | game-of-life/GameOfLife/LifeGrid.cs:102-166 | a state built byte by byte from the new bytes holds exactly the next generation |
| LifeGrid.StepCell | game-of-life/GameOfLife/LifeGrid.cs:160-162 | a cell of the next grid is alive exactly when it has 3 live neighbours, or 2 and was alive |
| ComparerUtility.Is | algorithm-design-manual/DataStructures/ComparerUtility.cs:47-50 | the comparison holds the comparer and the value it was made from |
| ComparerUtility.Comparison.GreaterThan | algorithm-design-manual/DataStructures/ComparerUtility.cs:17-21 | `comparison > 0` is the negation of LessThanOrEqualTo |
| ComparerUtility.Comparison.GreaterThanOrEqualTo | algorithm-design-manual/DataStructures/ComparerUtility.cs:23-27 | `comparison >= 0` is the negation of LessThan, and is GreaterThan widened by exactly the comparison 0 |
| ComparerUtility.Comparison.LessThan | algorithm-design-manual/DataStructures/ComparerUtility.cs:29-33 | `comparison < 0` holds exactly when the comparison's sign is −1 |
| ComparerUtility.Comparison.LessThanOrEqualTo | algorithm-design-manual/DataStructures/ComparerUtility.cs:35-39 | `comparison <= 0` is LessThan widened by exactly the comparison 0, and holds exactly when the sign is not 1 |
| ComparerUtility.Converse | algorithm-design-manual/DataStructures/ComparerUtility.cs:17-39 | for a valid comparer, a is less than b exactly when b is greater than a, and likewise for the "or equal" forms |
| ComparerUtility.Total | algorithm-design-manual/DataStructures/ComparerUtility.cs:23-39 | for a valid comparer, any two values are ordered one way or the other by LessThanOrEqualTo and by GreaterThanOrEqualTo |
| ComparerUtility.Transitive | algorithm-design-manual/DataStructures/ComparerUtility.cs:23-39 | for a valid comparer, LessThanOrEqualTo and GreaterThanOrEqualTo are transitive |
| ComparerUtility.IntComparerValid | algorithm-design-manual/DataStructures/PriorityQueue.cs:62 | `Comparer<int>.Default`, answering −1, 0 or 1 as `Int32.CompareTo` does, meets the comparer requirements the queue relies on |
| ObjectUtility.Swap | algorithm-design-manual/DataStructures/ObjectUtility.cs:6-11 | after the call the first location holds the old second value and the second the old first |
| ObjectUtility.SwapTwice | algorithm-design-manual/DataStructures/ObjectUtility.cs:6-11 | swapping twice restores both values |
| ObjectUtility.SwapAt | algorithm-design-manual/DataStructures/ObjectUtility.cs:6-11 | swapping two slots exchanges their items and leaves every other slot and the length unchanged |
| ObjectUtility.SwapAtSelf | algorithm-design-manual/DataStructures/ObjectUtility.cs:6-11 | swapping a slot with itself changes nothing |
| ObjectUtility.SwapAtTwice | algorithm-design-manual/DataStructures/ObjectUtility.cs:6-11 | swapping the same two slots twice restores the sequence |
| ObjectUtility.SwapAtPermutes | algorithm-design-manual/DataStructures/ObjectUtility.cs:6-11 | a swap inside the first n slots permutes them and leaves the rest alone |
| PriorityQueue.HeapPropertySatisfied | algorithm-design-manual/DataStructures/PriorityQueue.cs:113-136 | a parent may sit above a child exactly when the comparison's sign is not 1 (min variant) or not −1 (max variant) |
| PriorityQueue.HeapPropertyReflexive | algorithm-design-manual/DataStructures/PriorityQueue.cs:113-136 | for both variants, an item satisfies the heap property against itself |
| PriorityQueue.HeapPropertyTotal | algorithm-design-manual/DataStructures/PriorityQueue.cs:113-136 | for both variants, of any two items one may be the parent of the other |
| PriorityQueue.HeapPropertyTransitive | algorithm-design-manual/DataStructures/PriorityQueue.cs:113-136 | for both variants, the heap property is transitive |
| PriorityQueue.Parent | algorithm-design-manual/DataStructures/PriorityQueue.cs:83 | `(i + 1) / 2 - 1` is an earlier index |
| PriorityQueue.ChildrenOfParent | algorithm-design-manual/DataStructures/PriorityQueue.cs:83-100 | j has parent i exactly when j is `2i + 1` or `2i + 2`, the children BubbleDown considers |
| PriorityQueue.RootExtremal | algorithm-design-manual/DataStructures/PriorityQueue.cs:52-58 | in a heap the root satisfies the heap property against every item: the minimum of a min-queue, the maximum of a max-queue |
| PriorityQueue.BubbleUpStep | algorithm-design-manual/DataStructures/PriorityQueue.cs:81-88 | swapping an item with a parent that violates the heap property moves the only violation up to the parent's slot |
| PriorityQueue.BubbleUp | algorithm-design-manual/DataStructures/PriorityQueue.cs:78-90 | from a heap broken only at slot i toward its parent, the loop yields a heap, permuting the first n items and leaving the rest unchanged |
| PriorityQueue.BetterChild | algorithm-design-manual/DataStructures/PriorityQueue.cs:99-102 | the chosen child is a child of i and satisfies the heap property against its sibling |
| PriorityQueue.BubbleDownStep | algorithm-design-manual/DataStructures/PriorityQueue.cs:104-108 | swapping with the chosen child moves the only violation down to the child's slot and permutes the items |
| PriorityQueue.BubbleDownStop | algorithm-design-manual/DataStructures/PriorityQueue.cs:104-105 | when the item satisfies the heap property against the chosen child, the whole array is a heap |
| PriorityQueue.LeafHeap | algorithm-design-manual/DataStructures/PriorityQueue.cs:96 | when slot i has no child in the heap, the array is already a heap |
| PriorityQueue.BubbleDownOnce | algorithm-design-manual/DataStructures/PriorityQueue.cs:97-109 | one iteration either stops with a heap or moves the violation to a later slot, permuting the items |
| PriorityQueue.BubbleDown | algorithm-design-manual/DataStructures/PriorityQueue.cs:92-111 | from a heap broken only at slot i toward its children, the loop yields a heap, permuting the first n items and leaving the rest unchanged |
| PriorityQueue.CeilLog2 | algorithm-design-manual/DataStructures/PriorityQueue.cs:70 | `Ceiling(Log2(n))` is the least k with 2^k ≥ n |
| PriorityQueue.CeilLog2Exact | algorithm-design-manual/DataStructures/PriorityQueue.cs:70 | the ceiling of log2 of a power of two is its exponent |
| PriorityQueue.NewCapacity | algorithm-design-manual/DataStructures/PriorityQueue.cs:70-72 | the new size `2^(ceil(log2 n) + 1)` is larger than n and at most 4n − 2, or 2 for n = 1, computed exactly; for n ≥ 2^29 the source's `int` result departs (see Left out) |
| PriorityQueue.NewCapacityOfPower | algorithm-design-manual/DataStructures/PriorityQueue.cs:70-72 | a power-of-two array, the only size the queue grows from after the first resize, exactly doubles |
| PriorityQueue.Resize | algorithm-design-manual/DataStructures/PriorityQueue.cs:68-76 | the new array has the new size, starts with the old items, and is filled with `default(T)` after them |
| PriorityQueue.Create | algorithm-design-manual/DataStructures/PriorityQueue.cs:60-64 | a null comparer means the default one and a null capacity means 8; a negative capacity throws an overflow error; a new queue is empty and valid |
| PriorityQueue.Peek | algorithm-design-manual/DataStructures/PriorityQueue.cs:52-58 | throws InvalidOperation exactly when empty; otherwise returns an item of the queue that satisfies the heap property against every item |
| PriorityQueue.Enqueue | algorithm-design-manual/DataStructures/PriorityQueue.cs:26-34 | the queue stays valid, gains exactly the item, and its array grows, to the new capacity, only when full |
| PriorityQueue.PlaceItem | algorithm-design-manual/DataStructures/PriorityQueue.cs:32-33 | writing the item after the last one breaks the heap only at that slot toward its parent and adds the item to the contents |
| PriorityQueue.Dequeue | algorithm-design-manual/DataStructures/PriorityQueue.cs:36-50 | returns what Peek returns, with the same error on an empty queue; on success the queue stays valid, loses exactly that item, and its freed slot holds `default(T)` |
| PriorityQueue.DequeueItems | algorithm-design-manual/DataStructures/PriorityQueue.cs:42-46 | after the two swaps, the first count − 1 slots hold the items less the root, and the freed slot holds the default |
| PriorityQueue.DequeueShape | algorithm-design-manual/DataStructures/PriorityQueue.cs:46-47 | after moving the last item to the root, the heap is broken only at the root toward its children |
| DataStructuresDictionary.Create | algorithm-design-manual/DataStructures/MyDictionary.cs:11-15 | a null capacity means 5 buckets and a null comparer the default; a negative capacity throws an overflow error; a new dictionary is valid and empty |
| DataStructuresDictionary.GetBucketIndex | algorithm-design-manual/DataStructures/MyDictionary.cs:117-122 | fails with DivideByZero exactly when there are no buckets; otherwise gives `Math.Abs(hash % count)`, a valid bucket |
| DataStructuresDictionary.FindEntryForKey | algorithm-design-manual/DataStructures/MyDictionary.cs:67-86 | finds the key's bucket and the first node holding the key, or reports that no node of that chain holds it; with no buckets it throws DivideByZero |
| DataStructuresDictionary.Resize | algorithm-design-manual/DataStructures/MyDictionary.cs:88-110 | the table grows to 2n + 1 buckets holding exactly the same pairs, each placed by its hash, with keys still unique |
| DataStructuresDictionary.Add | algorithm-design-manual/DataStructures/MyDictionary.cs:17-29 | throws `ArgumentException` for "key" exactly when the key is present, leaving the map unchanged; otherwise binds the key and increments the count; it grows to 2n + 1 buckets when the count equalled the bucket count, even when it then throws |
| DataStructuresDictionary.FindResult.PrecedingEntry | algorithm-design-manual/DataStructures/MyDictionary.cs:124-136 | the node before the found one is absent exactly when the found node is the bucket head, and otherwise is the node just before it in the chain |
| DataStructuresDictionary.Remove | algorithm-design-manual/DataStructures/MyDictionary.cs:31-47 | returns true exactly when the key was present; the map loses the key and nothing else, and the count drops by one exactly when it returns true. With no buckets the C# code throws `DivideByZeroException` (see Findings); this member returns false and the dictionary unchanged |
| DataStructuresDictionary.TryGetValue | algorithm-design-manual/DataStructures/MyDictionary.cs:49-60 | finds the value exactly when the key is present, returning the bound value, and returns the default value otherwise. With no buckets the C# code throws `DivideByZeroException` (see Findings); this member reports the key absent with the default value |
| DataStructuresDictionary.AddEach | algorithm-design-manual/DataStructures/MyDictionaryTests.cs:35-48 | adding distinct new keys in any order throws nothing, counts them all, binds each to its own value, and keeps the earlier bindings |
| DataStructuresDictionary.RemoveTwice | algorithm-design-manual/DataStructures/MyDictionaryTests.cs:61-76 | Remove returns true exactly for a present key; after it, TryGetValue fails and a second Remove returns false |
| DataStructuresDictionary.NegativeHashLookups | algorithm-design-manual/DataStructures/MyDictionaryTests.cs:21-33 | with every hash −1, two added keys are both found with their own values |
| DataStructuresDictionary.ZeroCapacityLookupThrows | algorithm-design-manual/DataStructures/MyDictionary.cs:117-122 | on a dictionary created with capacity 0, which holds nothing, computing a key's bucket fails with DivideByZero |
| BucketChains.PrependKeepsShape | algorithm-design-manual/DataStructures/MyDictionary.cs:26-27 | prepending a new key's node to its own bucket keeps every node placed by hash and keys unique, and adds one node |
| BucketChains.UnlinkEntries | algorithm-design-manual/DataStructures/MyDictionary.cs:37-43 | unlinking one node removes exactly that node's pair from the stored pairs |
| BucketChains.AppendKeepsShape | hashmap/MyDictionary.cs:110-117 | appending a new key's entry to the tail of its own bucket keeps every entry placed by hash and keys unique, and adds one entry |
| BucketChains.ReplaceKeepsShape | hashmap/MyDictionary.cs:125 | overwriting an entry's value keeps the table's shape and size |
| HashmapDictionary.Count | hashmap/MyDictionary.cs:27-30 | `m_nextAvailable - m_removedCount` is the number of entries reachable from the buckets |
| HashmapDictionary.EmptyTable | hashmap/MyDictionary.cs:20-24 | buckets all −1 and no entries form a well-linked table with every chain empty |
| HashmapDictionary.Create | hashmap/MyDictionary.cs:9-25 | a null comparer throws `ArgumentNullException("comparer")`; otherwise the table is valid and empty, with 5 buckets and that comparer |
| HashmapDictionary.WalkChain | hashmap/MyDictionary.cs:57-65 | walking the chain from the bucket head returns the first entry holding the key, or −1 when no entry of the chain holds it |
| HashmapDictionary.GetValue | hashmap/MyDictionary.cs:53-69 | `GetValue`, behind the indexer getter at lines 32-34, hashes the key, walks its bucket's chain, and returns the bound value exactly when the key is present, and otherwise throws an `ArgumentException` |
| HashmapDictionary.RemoveEntry | hashmap/MyDictionary.cs:129-167 | returns true exactly when the key was present; the map loses the key and nothing else; the count drops and `m_removedCount` rises by one exactly then; the arrays keep their sizes |
| HashmapDictionary.RemoveAfterHead | hashmap/MyDictionary.cs:145-166 | when the chain's head holds another key, the walk removes the key exactly when it is present, with the same effect on map, count and `m_removedCount` as RemoveEntry |
| HashmapDictionary.UnlinkedHead | hashmap/MyDictionary.cs:135-143 | pointing the bucket past its head entry removes exactly that entry's key and keeps the table valid |
| HashmapDictionary.FindPredecessor | hashmap/MyDictionary.cs:145-161 | the walk stops at the entry whose successor holds the key, or gives −1 when no entry of the chain holds the key |
| HashmapDictionary.UnlinkSuccessor | hashmap/MyDictionary.cs:153-157 | pointing an entry past its successor that holds the key removes exactly that key, keeps the table valid, lowers the count by one and raises `m_removedCount` by one |
| HashmapDictionary.UnlinkedAfter | hashmap/MyDictionary.cs:148-158 | linking an entry past its successor removes exactly the successor's key and keeps the table valid |
| HashmapDictionary.SearchChain | hashmap/MyDictionary.cs:76-95 | the search finds the entry holding the key, or stops at the chain's tail, or at −1 for an empty bucket |
| HashmapDictionary.LinkLast | hashmap/MyDictionary.cs:110-117 | the new entry goes to slot `m_nextAvailable`, one past the old entries; every old entry keeps its key and value, only slot `t` may change (its `NextValue`), and only bucket b may change |
| HashmapDictionary.LinkLastChain | hashmap/MyDictionary.cs:110-117 | linking from the bucket when it is empty, else from its tail entry, keeps the arrays well linked and extends that bucket's chain by exactly the new slot |
| HashmapDictionary.LinkLastOther | hashmap/MyDictionary.cs:110-117 | every other bucket keeps exactly the bindings it had |
| HashmapDictionary.ViewLinkLast | hashmap/MyDictionary.cs:110-117 | the table's view is the old one with the new key and value appended to that bucket alone |
| HashmapDictionary.Appended | hashmap/MyDictionary.cs:110-117 | writing the entry at `m_nextAvailable` and linking it from the tail or the bucket binds the new key and keeps the table valid |
| HashmapDictionary.Overwritten | hashmap/MyDictionary.cs:125 | overwriting the found entry's value rebinds its key and keeps the count |
| HashmapDictionary.GetNextSize | hashmap/MyDictionary.cs:233-238 | the next size is larger than the capacity |
| HashmapDictionary.SetValue | hashmap/MyDictionary.cs:71-127 | throws an `ArgumentException` exactly when asked to and the key is present, changing nothing; otherwise binds the key, counting a new key once; the arrays grow to the next size exactly when a new key meets a full entry array |
| HashmapDictionary.FindTail | hashmap/MyDictionary.cs:206-217 | the walk from a bucket head ends at the chain's last entry, or at −1 for an empty bucket |
| HashmapDictionary.InsertLast | hashmap/MyDictionary.cs:202-222 | appending a new key's entry to its bucket's chain in the rebuilt arrays keeps them well formed and adds exactly that pair |
| HashmapDictionary.FirstEntry | hashmap/MyDictionary.cs:182-188 | the new entry alone in fresh arrays of the new size forms a well-formed table holding just its pair |
| HashmapDictionary.MoveChain | hashmap/MyDictionary.cs:193-224 | moving one old bucket's chain adds its pairs, in order, to the rebuilt arrays and keeps them well formed |
| HashmapDictionary.MoveChains | hashmap/MyDictionary.cs:191-225 | after the loop over the old buckets, the rebuilt arrays hold every old pair plus the new one |
| HashmapDictionary.MovedAll | hashmap/MyDictionary.cs:227-230 | the rebuilt arrays with `m_removedCount` reset to 0 form a valid table storing the old map plus the new binding |
| HashmapDictionary.ResizeAndAdd | hashmap/MyDictionary.cs:169-231 | the table grows to the next size, binds the new key, keeps every old binding, counts one more entry and resets `m_removedCount` |
| HashmapDictionary.Add | hashmap/MyDictionary.cs:38-41 | throws an `ArgumentException` exactly when the key is present, changing nothing; otherwise binds the key and counts one more entry |
| HashmapDictionary.SetItem | hashmap/MyDictionary.cs:35 | the indexer setter binds the key, replacing any old value, and counts a new key once |

## Left out

- The WPF front end (`LifeGridControl`, `MainWindow`), `LifeCell`'s own members, the console programs and the NUnit fixtures' permutation machinery are not part of this model. The test scenarios appear only as the lemmas and methods cited above.
- Comparers are abstract. `IEqualityComparer.Equals` is Dafny equality on keys and `GetHashCode` is a function. `IComparer.Compare` is a function `(T, T) -> int` that the queue requires to be a valid comparer: sign-antisymmetric and transitive.
- Exception messages are not modelled. An `ArgumentException` thrown without a parameter name is `Argument("")`.
- 32-bit integers are unbounded. The model does not wrap `2n + 1` or `m_nextAvailable`. The argument of `Math.Abs` is always a remainder by a positive count, so its overflow cannot arise.
- PriorityQueue.Create: requires an initial capacity other than 0. With capacity 0 the source's first `Resize` takes `Math.Log(0, 2)`, which is −∞, and converts it to `int`, which is platform-defined. Every other capacity is modelled.
- PriorityQueue.Resize: the floating-point `Math.Ceiling(Math.Log(n, 2))` and `Math.Pow` are replaced by the exact integer ceiling log2 and power of two on unbounded integers. The model departs from the source for every array length n ≥ 2^29. For 2^29 < n < 2^31 the new size is 2^31 or 2^32, which does not fit in an `int`: the cast `(int) Math.Pow(2, currentPower)` gives a platform-defined value and `new T[newSize]` fails, while the model returns the exact power. For n = 2^29 itself, a typical `libm` rounds `Log(n) / Log(2)` to 29.000000000000004, so the source also asks for 2^31 slots where the model gives 2^30. Below 2^29 the two agree.
- PriorityQueue.NewCapacity: its bounds (larger than n, at most 4n − 2) are stated on unbounded integers; for n ≥ 2^29 the source's 32-bit result differs, as described under PriorityQueue.Resize.
- PriorityQueue.Dequeue: the intermediate state after the first `Swap`, where the root holds `default(T)`, is folded into one step.
- HashmapDictionary.ResizeAndAdd: does not model the clearing of the old entries' `NextValue`, because the old arrays are dropped and nothing reads them afterwards.
- HashmapDictionary.ResizeAndAdd: the loop over the old buckets is bounded by `m_nextAvailable`. The model requires `m_nextAvailable == Capacity`, which is the only state in which `SetValue` calls it.
- HashmapDictionary.Valid: the entry slots past `m_nextAvailable` are never read, so the model keeps only the used slots.
- The `hashmap` console scenario, which checks counts 5, 6 and 3 after a run of adds and a removal, is not a lemma. The per-call contracts of `Add`, `SetItem` and `RemoveEntry` state each step of it.
- LifeGrid.GetLiveCells: the deferred `yield return` sequence is modelled as the finished sequence it enumerates.

## Findings

| source | as written | input that shows it | evidently intended | confidence | as-written member | corrected member |
|---|---|---|---|---|---|---|
| algorithm-design-manual/DataStructures/MyDictionary.cs:117-122 | `GetBucketIndex` computes `hashCode % BucketCount` without a check, and the constructor accepts `initialCapacity: 0`; `Add` survives because it resizes first, but `TryGetValue` divides by zero | `new MyDictionary<K, V>(initialCapacity: 0)` then `TryGetValue(k, out v)` throws `DivideByZeroException` on an empty dictionary | an empty dictionary reports every key as missing, with `default(TValue)` | not executed | DataStructuresDictionary.ZeroCapacityLookupThrows | DataStructuresDictionary.TryGetValue |
| algorithm-design-manual/DataStructures/MyDictionary.cs:117-122 | the same unchecked `hashCode % BucketCount` is reached from `Remove` through `FindEntryForKey` | `new MyDictionary<K, V>(initialCapacity: 0)` then `Remove(k)` throws `DivideByZeroException` on an empty dictionary | removing from an empty dictionary returns false and changes nothing | not executed | DataStructuresDictionary.ZeroCapacityLookupThrows | DataStructuresDictionary.Remove |
