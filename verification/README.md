# A verified model of MyDB

MyDB is a small relational engine: slotted heap files and a B+ tree index over a buffer pool
with LRU replacement, serial and parallel query operators, and a recursive-descent SQL parser.
This Dafny project models its storage layer, its operators, the thread pool and lock-free hash
table under the parallel operators, and the expression parser, and proves what each of them is
for. `dafny verify dfyconfig.toml` checks the whole project.

The model takes the form of the code. Objects that change their fields are classes
(`LRUReplacer`, `BufferPoolManager`, `BPlusTree`, `HeapFile`, `HashJoin`, `HashAggregate`,
`ParallelSorter`, `Parser`), with methods proved against a specification that does not mention
them. What several threads do at once is a transition system whose steps interleave in any
order; its theorems are about every run.

## How it is built

| files | what they hold |
|---|---|
| `Basics` | small facts about sequences and numbers |
| `Page`, `LruReplacer`, `PoolState`, `Recency`, `BufferPool`, `PoolTrace`, `PageAccess` | the buffer pool, and in what it differs from an uncached memory |
| `TreeEntries`, `TreeModel`, `TreeLinks`, `TreeIndex`, `TreeShape` | the B+ tree as a value: contents, order, balance, leaf chain, page footprint |
| `TreeFrames` | when the pool has frames enough for an insert, a search or a scan, and what an insert leaves when it has not |
| `NodePages`, `StoredTree`, `TreeSteps`, `BPlusTree` | the B+ tree on pages: entry arrays shifted in place, splits, search and range scan through fetch and unpin |
| `HeapFile`, `StorageRuns` | heap files, and whole runs of inserts into both structures |
| `Bags`, `WorkClaim`, `ParallelScan`, `LockFreeTable`, `ParallelJoin`, `ThreadPool` | the concurrent parts |
| `Values`, `SortOrder`, `ParallelSort`, `Equijoin`, `HashJoin`, `GroupKeys`, `Aggregate` | sort, join and aggregation |
| `Decimal`, `Types` | numerals, schemas, values and tuples as bytes |
| `Grammar`, `Parser`, `Rendering` | the expression grammar, the parser, and writing trees back as tokens |

The buffer pool keeps three ghost fields: the contents of every page as its users see it
(`pages`), the pin counts (`pins`), and the pages written since they were last declared dirty
(`written`). Everything above the pool is proved against these, so evictions, dirty bits and
the choice of frames do not appear in the tree or the heap file. Two more ghost fields count the
pins taken and not yet given back and their high-water mark (`held`, `peak`); with them the tree
methods state that they never hold more than two pins of their own.

## What turned out to need a condition

- *Dirty flags.* After the last unpin of a page and its eviction, the next fetch shows what the page
  held if and only if the unpin carried the dirty flag, the frame was dirty already, or the disk
  had those contents before (`PoolState.NextFetchIff`). `PoolState.LostWrite` is a run from a new
  pool in which a write is lost. Under the protocol that writers declare their page dirty, the
  pool shows what an uncached memory shows.
- *Flush answers.* The one call that tells whether a page is resident is `FlushPage`. Its answer is
  true for a pinned page and false for one that does not exist (`PoolTrace.OneAnswer`); for any
  other page it depends on what was evicted (`PoolState.ResidencyVaries`), and that depends on the
  calls alone: from a new pool they determine all answers (`PoolTrace.OneRun`), since the page
  given up is always the unpinned one whose last NewPage or FetchPage is the earliest
  (`PoolTrace.RunIsLru`).
- *Tree inserts.* The "buffer pool full" exception comes if and only if a page on the way down cannot
  be fetched or a page that splits has no frame beside it (`TreeFrames.Fits`). If others have
  pinned no page of the tree, that is: every frame is pinned, or all but one are and the insert
  allocates (`TreeFrames.InsertFitsIff`). When a page cannot be fetched, nothing has changed. When
  a page cannot split, the key is bound, and that page is left pinned, written but not declared
  dirty, and holding exactly one entry more than it may, while all other pages keep their order
  and fill (`BPlusTrees.BPlusTree.Insert`, `TreeFrames.StuckTooFull`;
  `TreeFrames.OneFrameFails` is an input). If others hold a
  child, the child can have split already when its parent is refused (`TreeFrames.ParentStuck`,
  `TreeFrames.HalfDoneSplit`).
- *Tree searches.* A search gives up when it cannot fetch a page, so a present key is reported absent
  exactly when some page on its way is not pinned and every frame is
  (`BPlusTrees.BPlusTree.Search`). A range scan uses its pages without looking; it follows a null
  pointer exactly when one it visits cannot be fetched (`BPlusTrees.BPlusTree.RangeScan`), and so
  does opening a heap file (`HeapFiles.HeapFile.Open`).
- *Internal pages.* A node holds one entry more than its limit just before it splits, so the
  pages overflow unless the limit is below the capacity of the page. The default limit equals
  the capacity. `TreeShape.InternalFitsIff` proves that "below" is exactly what is needed, over
  all runs of inserts and for limits of any size, and `TreeShape.FullRunPeaks` gives a run that
  gets to one above the limit.
- *Sort slices.* With chunks of `ceil(N/n)` rows the last slices can start past the end of the
  input: five rows and four threads (`ParallelSort.FiveRowsFourThreads`). All slices are in
  order exactly when the last one starts within the input (`ParallelSort.SlicesOkIff`), and
  `(n-1)^2` rows suffice (`ParallelSort.EnoughRows`).
- *Serial join.* The empty string means "no current key", so a right row with an empty key
  joins nothing. The join is an equijoin if and only if not both sides have such a row
  (`HashJoins.EquijoinIff`). `Init` keeps the current key of an abandoned run; it starts over
  correctly if and only if that key is empty or no new left row has it
  (`HashJoins.HashJoin.Init`), and a run drained to its end leaves it empty.
- *Parallel join.* Keys are read as integers, so VARCHAR keys all read as 0. That is an equijoin
  if and only if all keys of both sides are equal (`HashJoins.TextKeysInParallel`).
- *Grouping.* Rendered values are joined with `|`. The key tells all stored rows of a schema apart if
  and only if no two VARCHAR columns stand side by side and at most one of them is longer than one
  character (`GroupKeys.SeparatesIff`): in (VARCHAR(1), INT, VARCHAR(1)) nothing collides
  (`GroupKeys.ShortColumnsApart`). Values without bars are always told apart. The rows
  `("a|", "b")` and `("a", "|b")` share a key.
- *VARCHAR storage.* A value reads back if and only if it is no longer than its column and has no
  zero character (`Types.ValueRoundTrip`); any other reads back as its longest prefix that is
  (`Types.TextReadsBack`).
- *Parse errors.* The parser stops at the first token that cannot continue the tokens before it,
  whatever might follow, and throws if and only if those tokens are not an expression
  (`Parsers.OrIff`, `Parsers.OrThrowsIff`). What is left behind an expression is not looked at.
- *Heap inserts.* A tuple is refused when the last page cannot be fetched, and also when that page is
  full and every frame is pinned, which takes another holder of the last page
  (`HeapFiles.HeapFile.InsertTuple` states both directions).
- *Heap scans.* A scan stops without a word at the first page it cannot fetch; it shows exactly the rows
  of the pages before (`HeapFiles.HeapFile.Scan`).
- *Aggregates.* COUNT and SUM are cast to 32 bits and are right exactly when they fit; the cast of
  AVG never loses anything (`Aggregates.ResultMeaning`).
- *Parallel scan.* A worker that cannot pin its page skips it. No run skips a page of the list that
  the workers share if and only if the frames not pinned by others are at least as many as the
  workers or as the listed pages that others do not hold (`ParallelScan.NoPageSkippedIff`). The
  list is what `GetPageIds` returns. Every complete run gives what the serial scan gives if and
  only if that condition holds for the file, or all those pages are empty, or every frame is
  pinned; in the last case both end at the same page (`ParallelScan.ScanExactIff`,
  `ParallelScan.ScanBoth`).

## Model

| member | source | states |
|---|---|---|
| LruReplacer.LRUReplacer.Evict | src/storage/lru_replacer.cpp:5-16 | the victim is the least recently accessed frame among the evictable ones and is forgotten; none is returned exactly when no known frame is evictable |
| LruReplacer.LRUReplacer.RecordAccess | src/storage/lru_replacer.cpp:18-25 | the frame becomes the most recent; no other frame changes its rank |
| LruReplacer.LRUReplacer.SetEvictable | src/storage/lru_replacer.cpp:27-33 | exactly this frame enters or leaves the evictable set; the order stays |
| LruReplacer.LRUReplacer.Remove | src/storage/lru_replacer.cpp:35-42 | the frame is forgotten in the list, the map and the evictable set; the order of the others stays |
| LruReplacer.OrderedPush | src/storage/lru_replacer.cpp:18-25 | a frame put in front keeps the list in order of last access |
| LruReplacer.OrderedRemove | src/storage/lru_replacer.cpp:35-42 | taking a frame out keeps the list in order of last access |
| LruReplacer.LRUReplacer.OldestAt | src/storage/lru_replacer.cpp:6-12 | the first evictable frame from the back is the one not accessed for longest |
| PoolState.FullPool | src/storage/buffer_pool.cpp:16-34 | as many distinct pages are pinned as there are frames exactly when the free list is empty and nothing is evictable |
| PoolState.TakeFreeKeeps | src/storage/buffer_pool.cpp:17-21 | taking a frame off the free list keeps the pool invariant but for that frame |
| PoolState.EvictedKeeps | src/storage/buffer_pool.cpp:23-33 | evicting, with write-back when dirty, loses no contents and keeps the invariant but for that frame |
| PoolState.EvictedFrame | src/storage/buffer_pool.cpp:23-33 | the evicted page is not pinned, and pinned pages stay in their frames |
| PoolState.InstalledKeeps | src/storage/buffer_pool.cpp:72-81 | reading a page into an empty frame restores the invariant |
| PoolState.RepinnedKeeps | src/storage/buffer_pool.cpp:59-66 | a hit keeps the invariant: mapped once, pinned, not evictable |
| PoolState.ReleasedKeeps | src/storage/buffer_pool.cpp:84-97 | an unpin keeps the invariant when the last pin on a written page is dropped with the dirty flag |
| PoolState.EvictionKeepsIff | src/storage/buffer_pool.cpp:25-28 | after the last unpin and an eviction the disk has the contents of the page if and only if the unpin carried the dirty flag, the frame was dirty already, or the disk had them before |
| PoolState.OutStays | src/storage/buffer_pool.cpp:16-137 | while a page is out, its place on the disk stays as its eviction left it, whatever is done to other pages |
| PoolState.NextFetchIff | src/storage/buffer_pool.cpp:16-97 | in every state: after the last unpin of a page, its eviction and any steps on other pages, the next fetch shows what the page held if and only if the unpin carried the dirty flag, the frame was dirty already, or the disk had those contents before |
| PoolState.LostWrite | src/storage/buffer_pool.cpp:25-97 | from a new pool: fetch, store, unpin without the flag, evict, fetch again shows the old contents |
| PoolState.ResidencyVaries | src/storage/buffer_pool.cpp:99-108 | two reachable states with the same contents and pins, one with a page resident and one without, so that only FlushPage tells them apart |
| Recency.FreeIff | src/storage/buffer_pool.cpp:17-21 | no frame is free exactly when there are as many resident pages as frames |
| Recency.OldestIsVictim | src/storage/lru_replacer.cpp:5-16 | the evictable frame accessed longest ago holds the unpinned page used longest ago |
| PoolState.PokedKeeps | src/storage/buffer_pool.cpp:84-97 | a write through a pinned page keeps the invariant, with that page now written |
| PoolState.FlushedKeeps | src/storage/buffer_pool.cpp:99-108 | flushing keeps the invariant |
| PoolState.DroppedKeeps | src/storage/buffer_pool.cpp:121-137 | dropping an unpinned page keeps the invariant; its frame is free |
| BufferPool.PinUnpin | src/storage/buffer_pool.cpp:56-97 | a fetch and an unpin of the same page restore the pin counts |
| BufferPool.BufferPoolManager.constructor | src/storage/buffer_pool.cpp:3-10 | a new pool shows the file, with nothing pinned |
| BufferPool.BufferPoolManager.UseFacts | src/storage/buffer_pool.cpp:47-66 | every resident page has a time of last use, in the past and different from all others |
| BufferPool.BufferPoolManager.GetFreeFrame | src/storage/buffer_pool.cpp:16-34 | fails exactly when every frame is pinned; takes the first free frame, else the least recently accessed unpinned one, writing it back if dirty; pinned pages keep their frames |
| BufferPool.BufferPoolManager.NewPage | src/storage/buffer_pool.cpp:36-54 | fails exactly when every frame is pinned, and then changes nothing; else a zeroed page with a new id, pinned once and the most recently used; if no frame was free, exactly the least recently used unpinned page is given up; no other page, pin, pinned frame or time of use changes |
| BufferPool.BufferPoolManager.FetchPage | src/storage/buffer_pool.cpp:56-82 | fails exactly when the page is not pinned and every frame is, and then changes nothing; else one more pin, the frame shows the contents of the page, and it is the most recently used; if it was not resident and no frame was free, exactly the least recently used unpinned page is given up; no page and no other time of use changes |
| BufferPool.BufferPoolManager.Hit | src/storage/buffer_pool.cpp:59-66 | a resident page gets one more pin, is not evictable and is used more recently than every other; the other times of use stay |
| BufferPool.BufferPoolManager.Write | src/storage/buffer_pool.cpp:36-82 | a write through the page pointer of a fetched page changes that page only |
| BufferPool.BufferPoolManager.UnpinPage | src/storage/buffer_pool.cpp:84-97 | false exactly when the page is not pinned, and then nothing changes; else one pin less, evictable at zero, no contents lost if writers declare their page dirty; it does not count as a use |
| BufferPool.BufferPoolManager.FlushPage | src/storage/buffer_pool.cpp:99-108 | false exactly when the page is not resident; else the disk holds its contents and no other page of the disk changes |
| BufferPool.BufferPoolManager.FlushAllPages | src/storage/buffer_pool.cpp:110-119 | exactly the dirty frames are written and become clean; afterwards the disk equals the logical contents of every page without an undeclared write |
| BufferPool.BufferPoolManager.DeletePage | src/storage/buffer_pool.cpp:121-137 | refused exactly when pinned; else the page is no longer resident, its frame is free and its time of use is forgotten |
| PoolTrace.Perform | src/storage/buffer_pool.cpp:36-119 | every call on the pool changes the view as the uncached memory does and gives an answer the memory allows; a flush answers whether the page was resident; successful NewPage and FetchPage calls, and no others, change the times of use |
| PoolTrace.Replay | src/storage/buffer_pool.cpp:36-119 | any run of legal calls leaves the view of the uncached memory and gives answers it allows, and the resident pages at each call are what least-recently-used replacement makes of the calls |
| PoolTrace.OneAnswer | src/storage/buffer_pool.cpp:36-108 | the memory allows a single answer to a call if and only if the call is not the flush of an allocated page that nobody has pinned |
| PoolTrace.VictimIsEarliest | src/storage/lru_replacer.cpp:5-25 | the least recently used unpinned page is the one whose last NewPage or FetchPage call is the earliest |
| PoolTrace.RunIsLru | src/storage/buffer_pool.cpp:16-82 | in every run from any state, a successful NewPage or FetchPage makes its page resident and gives up exactly that page if there was no free frame for it; all other calls leave the resident pages as they are |
| PoolTrace.OneHistory | src/storage/buffer_pool.cpp:16-82 | from a new pool the calls determine which pages are resident at any time |
| PoolTrace.OneRun | src/storage/buffer_pool.cpp:36-119 | two new pools of one size over one file give the same answers to the same calls, flushes included |
| PoolTrace.FetchShowsLastStore | src/storage/buffer_pool.cpp:56-82 | after any run a fetch shows the last contents stored in that page, or the initial ones, and is refused exactly when every frame is pinned and the page is not |
| TreeEntries.AsMapUpsert | src/storage/bplus_tree.cpp:93-101 | inserting into a sorted entry list is updating the map |
| TreeEntries.UpsertSorted | src/storage/bplus_tree.cpp:93-101 | insertion keeps keys strictly increasing and within bounds, and adds at most one entry |
| TreeEntries.SliceMeaning | src/storage/bplus_tree.cpp:290-320 | a range of a sorted list is the slice of the map: records of the stored keys in [low, high], in increasing key order, each once |
| TreeModel.EntriesSorted | src/storage/bplus_tree.cpp:215-286 | separators that bound their children make the entries of the whole tree sorted and in bounds |
| TreeModel.LeafGood | src/storage/bplus_tree.cpp:172-213 | leaf insert and split keep bounds and fill, and bind the key |
| TreeModel.KidsGood | src/storage/bplus_tree.cpp:215-232 | a separator added after a child split keeps separators strictly increasing and children within them |
| TreeModel.SplitGood | src/storage/bplus_tree.cpp:230-256 | an internal split keeps both halves within their fill bounds and loses no entry |
| TreeModel.InsertGood | src/storage/bplus_tree.cpp:160-256 | insertion keeps the tree invariant (order, separators, fill, equal depth) through every split, and binds exactly the key |
| TreeLinks.InsertChain | src/storage/bplus_tree.cpp:192-212 | insertion keeps the leaves linked from left to right |
| TreeLinks.InsertPids | src/storage/bplus_tree.cpp:160-256 | the tree uses its old pages and newly allocated ones, none twice |
| TreeIndex.InsertOk | src/storage/bplus_tree.cpp:131-158 | an insert, with the first leaf and root splits, keeps every invariant and is the update of the entry list |
| TreeIndex.BuildOk | src/storage/bplus_tree.cpp:131-256 | after any run of inserts the tree is well formed and stands for the map of the run |
| TreeIndex.FindIsGet | src/storage/bplus_tree.cpp:260-286 | descending by separators finds what the map holds |
| TreeIndex.SearchAfterInserts | src/storage/bplus_tree.cpp:131-286 | after any run of inserts a search gives the record last inserted for the key, or none |
| TreeShape.ChainIsLeaves | src/storage/bplus_tree.cpp:290-320 | the chain from the leftmost leaf is the in-order sequence of all leaves |
| TreeShape.LeavesHaveEntries | src/storage/bplus_tree.cpp:290-320 | the leaves in chain order carry all entries of the tree in key order |
| TreeShape.SubtreeAtLeast | src/storage/bplus_tree.cpp:187-256 | a non-root subtree of height h holds at least ((I+1)/2)^h * (L/2) keys |
| TreeShape.SplitSizes | src/storage/bplus_tree.cpp:197-251 | every split leaves half of the entries, rounded down, in the old page and the rest in the new one on its right |
| TreeShape.TreeAtLeast | src/storage/bplus_tree.cpp:187-286 | a tree with h >= 1 internal levels holds at least 2 * ((I+1)/2)^(h-1) * (L/2) keys |
| TreeShape.LowTreeAtMost | src/storage/bplus_tree.cpp:187-256 | with at most one internal level there are at most I * (L-1) entries |
| TreeShape.RunPeakBound | src/storage/bplus_tree.cpp:228-230 | over any run no internal page ever holds more than I+1 entries, and one has held I+1 once the tree has two internal levels |
| TreeShape.RootPeak | src/storage/bplus_tree.cpp:225-233 | a root above leaves that has more than its first two children has held them all in its page |
| TreeShape.FullRunPeaks | src/storage/bplus_tree.cpp:228-230 | enough ascending keys drive some internal page to I+1 entries |
| TreeShape.InternalFitsIff | src/storage/bplus_tree.cpp:119-127 | for internal limits of any size, internal pages stay within CAPACITY over all runs if and only if the limit is below CAPACITY, which the default is not |
| TreeFrames.TwoFramesSuffice | src/storage/bplus_tree.cpp:131-256 | two frames that others have not pinned are enough for any insert into any tree |
| TreeFrames.FitsIff | src/storage/bplus_tree.cpp:160-256 | when others have pinned no page of the tree, an insert gets its frames if and only if two are free, or one is and nothing is allocated |
| TreeFrames.InsertFitsIff | src/storage/bplus_tree.cpp:131-256 | the same for the index, with the first leaf and root splits |
| TreeFrames.NewRootFits | src/storage/bplus_tree.cpp:143-149 | a root that could split leaves a frame for the new root, so the exception of the root split never comes |
| TreeFrames.StoppedShape | src/storage/bplus_tree.cpp:160-256 | an insert that was refused a frame has not split its own page, and has changed nothing if no page stays pinned |
| TreeFrames.StoppedEntries | src/storage/bplus_tree.cpp:160-256 | it loses no entry: the tree it leaves has the entries of before with the key bound, or those of before if a page could not be fetched |
| TreeFrames.StuckTooFull | src/storage/bplus_tree.cpp:160-256 | it leaves a tree that is well formed but for the page that was to split, which holds exactly leaf_max_size entries, or internal_max_size + 1 children |
| TreeFrames.OneFrameFails | src/storage/bplus_tree.cpp:185-195 | one frame and a leaf that must split: refused, and the leaf stays pinned with both entries |
| TreeFrames.ParentStuck | src/storage/bplus_tree.cpp:215-238 | when others hold the child and one frame is left, the child has split and its parent stays pinned with one child too many |
| TreeFrames.HalfDoneSplit | src/storage/bplus_tree.cpp:215-238 | a tree of three leaves and two frames in which that happens |
| TreeFrames.ReadableIff | src/storage/bplus_tree.cpp:260-286 | a search can fetch all its pages with one frame to spare, and only then if others have pinned no page of the tree |
| TreeFrames.OneFrameScans | src/storage/bplus_tree.cpp:290-320 | one frame to spare is enough for any range scan |
| NodePages.LeafNode.InsertEntry | src/storage/bplus_tree.cpp:93-101 | shifting in place inserts the entry behind the smaller keys and keeps all others |
| NodePages.InternalNode.InsertEntry | src/storage/bplus_tree.cpp:62-70 | the same for separators, behind the unused first key |
| NodePages.ShiftIn | src/storage/bplus_tree.cpp:62-70 | the shifting loop inserts one element into the live part of the array |
| NodePages.Lookup | src/storage/bplus_tree.cpp:51-59 | binary search gives the child whose separators enclose the key |
| NodePages.LeafSearch | src/storage/bplus_tree.cpp:270-278 | binary search in a leaf gives what the map of the leaf holds |
| NodePages.LeafNode.Overwrite | src/storage/bplus_tree.cpp:176-183 | a present key gets the new record and nothing else changes; an absent key changes nothing |
| NodePages.LeafNode.MoveHalf | src/storage/bplus_tree.cpp:199-206 | the upper half moves to the new leaf, which is linked between this one and its successor |
| NodePages.InternalNode.MoveHalf | src/storage/bplus_tree.cpp:242-251 | the entries behind the middle move, the middle child becomes the first, the middle key is pushed up |
| NodePages.UpdateLeaf | src/storage/bplus_tree.cpp:172-189 | the in-memory part of a leaf insert is the insertion into the sorted list |
| NodePages.ScanLeaf | src/storage/bplus_tree.cpp:306-316 | the records of one leaf within the range, and whether a key above the range ended the scan |
| StoredTree.StoredFrame | src/storage/bplus_tree.cpp:160-256 | a tree on pages depends on its own pages only |
| StoredTree.NodeStored | src/storage/bplus_tree.cpp:215-256 | writing a grown and perhaps split node to its page and a new one stores the tree that insertion specifies |
| StoredTree.Down | src/storage/bplus_tree.cpp:260-286 | one level down the key is looked up in the child exactly as in the node |
| TreeSteps.LeafDone | src/storage/bplus_tree.cpp:172-213 | the pages after a leaf was written, split or left too full are those of the specified leaf insert, or of the refused one |
| TreeSteps.NodeThrows | src/storage/bplus_tree.cpp:222 | an exception below a node leaves the node as it was and passes on what it left below |
| TreeSteps.NodeQuiet | src/storage/bplus_tree.cpp:222-223 | a child that did not split leaves the page of the node as it was |
| TreeSteps.NodeDone | src/storage/bplus_tree.cpp:225-256 | a child that split gives the node its separator, and the node written, split or left too full is the specified insertion, or the refused one |
| BPlusTrees.BPlusTree.constructor | src/storage/bplus_tree.cpp:119-127 | an empty index; a leaf limit of 0 means the page capacity |
| BPlusTrees.BPlusTree.InsertInLeaf | src/storage/bplus_tree.cpp:172-213 | on the pages, exactly the specified leaf insert if it gets its frames, with the pins restored; else the exception, with the leaf pinned, holding exactly leaf_max_size entries, and written but not declared dirty; never more than two pins of its own |
| BPlusTrees.BPlusTree.InsertInInternal | src/storage/bplus_tree.cpp:215-256 | on the pages, exactly the specified insertion below a node and its split if every page on the way gets its frames, with the pins restored; else the exception and exactly the specified rest; never more than two pins of its own, at any depth |
| BPlusTrees.BPlusTree.InsertInPage | src/storage/bplus_tree.cpp:160-170 | the same for either kind of page, which the pool may also refuse to fetch |
| BPlusTrees.BPlusTree.Insert | src/storage/bplus_tree.cpp:131-158 | fails if and only if a page on the way cannot be fetched or a page that splits has no frame beside it, and never with two frames to spare. A success binds the key and changes no other binding, restores all pins, touches only pages of the tree and new ones. A failure changes nothing, or binds the key and leaves exactly one page exactly one entry too full, pinned, written and not declared dirty, and all others well formed. Never more than two pins of its own |
| BPlusTrees.BPlusTree.Search | src/storage/bplus_tree.cpp:260-286 | what the map holds if every page on the way can be fetched, else not found; with no page of the tree pinned by others, right if and only if a frame is free or the key is absent; pins and pages as before |
| BPlusTrees.BPlusTree.RangeScan | src/storage/bplus_tree.cpp:290-320 | terminates and appends exactly the records of stored keys in [low, high] in key order; follows a null pointer if and only if a page it visits cannot be fetched, which one free frame rules out; pins and pages as before |
| HeapFiles.AppendTuple | src/storage/heap_file.cpp:91-96 | storing a tuple in the last page appends one row and keeps the chain |
| HeapFiles.ExtendChain | src/storage/heap_file.cpp:74-89 | linking an empty page behind the last one changes no row and keeps the chain acyclic |
| HeapFiles.RowsDistinct | src/storage/heap_file.cpp:102-125 | rows along an acyclic chain have distinct record ids |
| HeapFiles.HeapFile.Create | src/storage/heap_file.cpp:30-47 | no file exactly when every frame is pinned, and then nothing has changed; else one empty page, no rows; pins as before |
| HeapFiles.HeapFile.Open | src/storage/heap_file.cpp:49-60 | walking the chain finds its last page; follows a null pointer if and only if a page of the chain cannot be fetched; pages and pins as before |
| HeapFiles.HeapFile.InsertTuple | src/storage/heap_file.cpp:64-98 | succeeds exactly when the last page can be fetched and either has room or a frame is free; then the scan shows one more row, last, under the returned id; a refused call leaves the scan as it was; pins restored |
| HeapFiles.HeapFile.FetchRoom | src/storage/heap_file.cpp:65-89 | pins a last page with room, after linking a new one if need be, without changing what a scan shows |
| HeapFiles.HeapFile.Scan | src/storage/heap_file.cpp:102-125 | hands out the rows, in insertion order, of the pages before the first that cannot be fetched, up to the first row that the callback refuses; all pages with a free frame; pins restored |
| HeapFiles.VisitedMeans | src/storage/heap_file.cpp:114-120 | the callback gets the first so many rows; all but the last are accepted, and it ends with a refused row or with the last one |
| HeapFiles.HeapFile.GetPageIds | src/storage/heap_file.cpp:127-139 | the ids of the chain in order, up to and including the first page that cannot be fetched |
| HeapFiles.ListedMeans | src/storage/heap_file.cpp:127-139 | the list is a prefix of the chain in which every page but the last can be fetched; the last cannot, unless it ends the chain |
| HeapFiles.HeapFile.ScanPage | src/storage/heap_file.cpp:141-153 | the rows of one page, or none when it cannot be fetched |
| StorageRuns.LoadIndex | src/storage/bplus_tree.cpp:131-256 | every insert of any run succeeds, the index is the map of the run, no pin is left behind |
| StorageRuns.SearchAfter | src/storage/bplus_tree.cpp:131-286 | on the pages, a search after any run of inserts gives the record last inserted |
| StorageRuns.RangeAfter | src/storage/bplus_tree.cpp:131-320 | on the pages, a range scan after any run of inserts gives the records last inserted for exactly the keys of the run in [low, high], in key order |
| StorageRuns.LoadHeap | src/storage/heap_file.cpp:64-98 | after any run of inserts the rows are the earlier ones and then the accepted tuples in insertion order, with distinct ids; with a free frame all are accepted |
| StorageRuns.ScanAfter | src/storage/heap_file.cpp:64-125 | a scan after any run visits exactly those |
| LockFreeTable.AllocateInv | src/concurrency/lockfree_hashtable.cpp:11-12 | a new node is in no bucket and disturbs none |
| LockFreeTable.LoadInv | src/concurrency/lockfree_hashtable.cpp:17-23 | loading the head, first or after a failed exchange, keeps the invariant |
| LockFreeTable.LinkInv | src/concurrency/lockfree_hashtable.cpp:19 | setting `next` of an unpublished node leaves every bucket as it was |
| LockFreeTable.PublishInv | src/concurrency/lockfree_hashtable.cpp:20-23 | a successful exchange puts exactly this node in front of its bucket |
| LockFreeTable.StepInv | src/concurrency/lockfree_hashtable.cpp:10-24 | every step of every thread, including spurious failures of the exchange, keeps buckets acyclic and disjoint and loses or repeats no published node |
| LockFreeTable.Lookup | src/concurrency/lockfree_hashtable.cpp:26-35 | walks the bucket to its end and collects the values under the key |
| LockFreeTable.LookupComplete | src/concurrency/lockfree_hashtable.cpp:26-35 | once no thread is inserting, a lookup gives the values of all nodes ever allocated with that key, each once |
| LockFreeTable.Clear | src/concurrency/lockfree_hashtable.cpp:37-46 | empties every bucket and frees what was on it |
| LockFreeTable.ClearFreesAll | src/concurrency/lockfree_hashtable.cpp:37-46 | once no thread is inserting, every node ever allocated is freed exactly once |
| WorkClaim.StepInv | src/executor/parallel_seq_scan.cpp:37-53 | no step of claiming, scanning or storing repeats or invents a row, and it loses only those of a refused item |
| WorkClaim.RunInv | src/executor/parallel_seq_scan.cpp:37-53 | the accounting holds in every reachable state, refusals included |
| WorkClaim.CompleteRun | src/executor/parallel_seq_scan.cpp:37-58 | every finished run, any number of workers, any interleaving, collects the rows of every item exactly once, except those of the items it was refused |
| WorkClaim.CompleteWithout | src/executor/parallel_seq_scan.cpp:37-58 | without refusals every finished run collects the rows of every item exactly once |
| WorkClaim.NeverRefused | src/executor/parallel_seq_scan.cpp:37-53 | if no item is refused while fewer items are busy than there are workers, no run is refused one |
| WorkClaim.StepShrinks | src/executor/parallel_seq_scan.cpp:39-53 | every step brings the end closer, so no run goes on forever |
| WorkClaim.Completes | src/executor/parallel_seq_scan.cpp:39-53 | every run can be carried on to a finished one |
| WorkClaim.LosingRun | src/executor/parallel_seq_scan.cpp:39-58 | a run about to be refused an item with rows leads to a finished run whose rows are not those of all items |
| ParallelScan.EnoughFrames | src/executor/parallel_seq_scan.cpp:43-49 | with frames for all workers, or for all listed pages that others do not hold, no page is skipped |
| ParallelScan.SerialOrder | src/executor/parallel_seq_scan.cpp:24-58 | page by page the rows of a list of pages are those of a serial scan of it |
| ParallelScan.ScanComplete | src/executor/parallel_seq_scan.cpp:19-58 | then the workers buffer the bag of tuples of the listed pages, for every number of workers and every interleaving |
| ParallelScan.RefusingRun | src/executor/parallel_seq_scan.cpp:37-53 | with fewer frames, every listed page that others do not hold is refused in some run |
| ParallelScan.NoPageSkippedIff | src/executor/parallel_seq_scan.cpp:37-53 | no run skips a page of the shared list if and only if there are frames for all |
| ParallelScan.ListExactIff | src/executor/parallel_seq_scan.cpp:37-58 | every complete run buffers the tuples of all listed pages if and only if there are frames for all, or all pages that need one are empty |
| ParallelScan.FullRun | src/executor/parallel_seq_scan.cpp:37-58 | when others hold every frame, every complete run buffers the tuples of exactly the listed pages that they hold |
| ParallelScan.ScanExactIff | src/executor/parallel_seq_scan.cpp:19-58 | for the list of GetPageIds and any number of threads: every complete run buffers the bag that the serial scan shows if and only if every frame is pinned, or there are frames for all, or all pages that need one are empty |
| ParallelScan.ScanBoth | src/executor/parallel_seq_scan.cpp:19-58 | on a heap file: the ids and the number of workers that Init starts from, and the exact condition under which every complete run of them gives the rows of HeapFile.Scan, with no thread as well |
| ParallelScan.StarvedScan | src/executor/parallel_seq_scan.cpp:43-49 | when others hold all frames and no listed page, every run finds nothing, at every moment |
| ParallelJoin.RunInv | src/executor/parallel_hash_join.cpp:54-69 | in every reachable state of the build, nodes and outstanding claims account for the rows claimed |
| ParallelJoin.BuildComplete | src/executor/parallel_hash_join.cpp:54-69 | after the build the table holds exactly the left rows |
| ParallelJoin.FoundIsSelect | src/executor/parallel_hash_join.cpp:95-97 | a probe finds the left rows of equal key, each once |
| ParallelJoin.JoinComplete | src/executor/parallel_hash_join.cpp:36-109 | for any number of workers, every hash function and every interleaving of both phases, the result is the bag of the nested-loop equijoin |
| ThreadPool.StepInv | src/executor/thread_pool.cpp:3-43 | every step of a worker or the client keeps the pool invariant |
| ThreadPool.RunInv | src/executor/thread_pool.cpp:3-43 | in every reachable state `in_flight_` counts queued and running tasks, and each submitted task is queued, running or has run, exactly one of them |
| ThreadPool.FirstInFirstOut | src/executor/thread_pool.cpp:12-35 | in every reachable state the queued tasks are those submitted last, in order |
| ThreadPool.WaitAllReturns | src/executor/thread_pool.cpp:40-43 | WaitAll returns only when every submitted task has run exactly once |
| ThreadPool.Progress | src/executor/thread_pool.cpp:9-18 | no wakeup is lost: while tasks are in flight some worker, or the pending notification, can step |
| ThreadPool.WorkShrinks | src/executor/thread_pool.cpp:6-20 | worker steps and notifications cannot go on forever: each shrinks what remains to be done |
| ThreadPool.WaitAllWakes | src/executor/thread_pool.cpp:9-43 | WaitAll gets to return: from the moment it waits, any sequence of worker and notification steps is finite, and when none is possible any more, nothing is in flight, every task has run once, and the client is awake to check |
| ThreadPool.DestructorJoins | src/executor/thread_pool.cpp:25-29 | the destructor gets to return: from the moment it joins, any sequence of steps is finite, and at its end every worker has exited, the queue is empty and every submitted task has run exactly once |
| SortOrder.Transitive | src/executor/sort.cpp:17-30 | the comparator is transitive for any mix of ASC, DESC, INT and VARCHAR |
| SortOrder.Trichotomy | src/executor/sort.cpp:17-30 | rows that it does not separate have equal sort keys |
| Values.StrLessIff | src/executor/sort.cpp:26 | strings are compared as in a dictionary: by the first differing character, a proper prefix first |
| SortOrder.ComparatorIff | src/executor/sort.cpp:17-30 | a row comes before another exactly when, at the first item in which their keys differ, its value is smaller and the item ascending, or larger and the item descending |
| SortOrder.ComparatorIsStrictWeak | src/executor/parallel_sort.cpp:13-28 | the comparator is the strict weak order that `std::sort` asks for |
| SortOrder.SortedKeysAgree | src/executor/sort.cpp:7-31 | sorted arrangements of the same rows have the same sequence of sort keys |
| ParallelSort.ChunkBounds | src/executor/parallel_sort.cpp:50 | n chunks cover the input with less than n rows to spare |
| ParallelSort.SlicesOkIff | src/executor/parallel_sort.cpp:54-58 | all slice bounds are in order if and only if the last slice starts within the input |
| ParallelSort.EnoughRows | src/executor/parallel_sort.cpp:48-58 | (n-1)^2 rows are enough for that |
| ParallelSort.FiveRowsFourThreads | src/executor/parallel_sort.cpp:48-58 | five rows and four threads are not |
| ParallelSort.SlicesCover | src/executor/parallel_sort.cpp:54-60 | the slices are disjoint, in order and cover the input |
| ParallelSort.SortSlices | src/executor/parallel_sort.cpp:52-63 | every partition is its slice, sorted |
| ParallelSort.InitialHeap | src/executor/parallel_sort.cpp:68-71 | the heap has the head of every partition that is not empty, once |
| ParallelSort.MinOfRest | src/executor/parallel_sort.cpp:87-89 | a least heap entry is a least row of all that is left in any partition |
| ParallelSort.MergeStep | src/executor/parallel_sort.cpp:80-101 | popping a least entry and pushing its successor keeps the merge invariant: heap, cursors, emitted rows sorted and below the rest, nothing lost |
| ParallelSort.ParallelSorter.Init | src/executor/parallel_sort.cpp:30-78 | starts a merge of the whole input; an empty input gives nothing |
| ParallelSort.ParallelSorter.Next | src/executor/parallel_sort.cpp:80-101 | emits one row, keeping emitted rows sorted and below the rest, until all are out |
| ParallelSort.ParallelSorter.Drain | src/executor/parallel_sort.cpp:80-101 | draining gives a sorted permutation of the input |
| ParallelSort.SameAsSerial | src/executor/sort.cpp:7-31 | any two sorted permutations of the input have the same sequence of sort keys |
| ParallelSort.SortedMeans | src/executor/sort.cpp:7-31 | rows sorted by the comparator are arranged as the ORDER BY list asks, pair by pair |
| ParallelSort.SortBy | src/executor/parallel_sort.cpp:30-101 | for any order-by list and any number of threads with all slices in range, what the operator emits is a permutation of the input, arranged as the ORDER BY list asks, with the same sequence of sort keys as the serial sort; a single ascending INT key comes out nondecreasing, a descending one nonincreasing |
| Equijoin.CoarserJoin | src/executor/hash_join.cpp:30-72 | joining on coarser keys gives at least as many rows, as many exactly when no match is new, and then the same list |
| Equijoin.SelectMeans | src/executor/hash_join.cpp:35-42 | the rows of a key are exactly those at the positions with that key, in order |
| Equijoin.JoinMeans | src/executor/hash_join.cpp:50-72 | the reference join has exactly one row, left part first, for each pair of positions with equal keys, ordered by right row and then by left row |
| HashJoins.HashJoin.Init | src/executor/hash_join.cpp:30-48 | the whole join remains to be read; the run starts over correctly if and only if the kept current key is empty or no left row has it |
| HashJoins.Build | src/executor/hash_join.cpp:35-42 | each bucket lists the left rows of its key in build order |
| HashJoins.HashJoin.Next | src/executor/hash_join.cpp:50-72 | the next row of what remains; at the end nothing remained and there is no current key |
| HashJoins.HashJoin.Drain | src/executor/hash_join.cpp:50-72 | draining yields all that remained and leaves a state from which `Init` restarts |
| HashJoins.StartsWhole | src/executor/hash_join.cpp:30-72 | from the start, what remains is, for each right row in order, every left row of equal key in build order |
| HashJoins.EquijoinIff | src/executor/hash_join.cpp:53 | the result is the equijoin on rendered keys if and only if not both sides have a row with an empty key |
| HashJoins.IntJoin | src/executor/hash_join.cpp:30-72 | on INT keys it is the equijoin on the numbers |
| HashJoins.ParallelIsSerial | src/executor/parallel_hash_join.cpp:36-109 | on INT keys every run of the parallel join gives the rows of the serial one, each as often |
| HashJoins.TextKeysInParallel | src/executor/parallel_hash_join.cpp:63 | on VARCHAR keys the parallel join is the equijoin if and only if all keys are equal |
| GroupKeys.BuildKey | src/executor/aggregate.cpp:14-20 | the loop joins the rendered values, each followed by a bar |
| GroupKeys.NoBarsSeparate | src/executor/aggregate.cpp:14-20 | values without bars are told apart in any number of columns |
| GroupKeys.OneTextSeparates | src/executor/aggregate.cpp:14-20 | with at most one VARCHAR column all values are told apart, strings of any length |
| GroupKeys.TwoTextsCollide | src/executor/aggregate.cpp:14-20 | in two VARCHAR columns, whatever is around them, a bar and a word can move from one to the other without changing the key, if the word commutes with the key of what is between |
| GroupKeys.AdjacentCollide | src/executor/aggregate.cpp:14-20 | VARCHAR columns side by side have different stored rows with one key |
| GroupKeys.LongCollide | src/executor/aggregate.cpp:14-20 | so have any two VARCHAR columns of declared length two or more, whatever is between them |
| GroupKeys.TellsApart | src/executor/aggregate.cpp:14-20 | without either, stored rows of one key are equal |
| GroupKeys.SeparatesIff | src/executor/aggregate.cpp:14-20 | the key tells all stored rows of a schema apart if and only if no two VARCHAR columns are adjacent and at most one has a declared length above one |
| GroupKeys.ShortColumnsApart | src/executor/aggregate.cpp:14-20 | in (VARCHAR(1), INT, VARCHAR(1)) all stored rows are told apart |
| GroupKeys.BarCollision | src/executor/aggregate.cpp:14-20 | two rows that differ only in which side of the separator a bar of their own stands share a key |
| Aggregates.Accumulate | src/executor/aggregate.cpp:47-57 | one more row in every accumulator: count, sum, least and greatest of the rows of the group |
| Aggregates.HashAggregate.Init | src/executor/aggregate.cpp:22-60 | the groups are those of the whole input, ordered by first appearance |
| Aggregates.HashAggregate.Add | src/executor/aggregate.cpp:32-58 | a row joins its group, which is created behind the others if new; no other group changes |
| Aggregates.HashAggregate.Next | src/executor/aggregate.cpp:62-78 | the next group's values and aggregate columns, until all groups are out |
| Aggregates.HashAggregate.Drain | src/executor/aggregate.cpp:62-78 | draining gives one row per group in order of first appearance; each shows the value of its first row in every group-by expression, in order, and then one column for each known aggregate, in order |
| Aggregates.GroupedShows | src/executor/aggregate.cpp:62-78 | the same, for the specification, of every group of every input |
| Aggregates.Output | src/executor/aggregate.cpp:68-75 | the aggregate columns computed from the accumulators are those of the list of rows |
| Aggregates.FirstSeenKeys | src/executor/aggregate.cpp:35-45 | every key of the input has one group and no other key has |
| Aggregates.FirstSeenOrder | src/executor/aggregate.cpp:35-45 | the groups before a group are exactly those seen before its first row |
| Aggregates.GroupsPartition | src/executor/aggregate.cpp:32-58 | every input row is in exactly one group |
| Aggregates.CountsAddUp | src/executor/aggregate.cpp:50 | the counts add up to the number of rows |
| Aggregates.GroupsAreByValue | src/executor/aggregate.cpp:14-20 | with at most one VARCHAR column, or no bars, or declared lengths that rule out collisions, an input row is in the group of a row exactly when it has the same value in every group-by expression; the group lists these rows in input order |
| Aggregates.Extremes | src/executor/aggregate.cpp:54-55 | MIN and MAX are attained and bound every value |
| Aggregates.NoOverflow | src/executor/aggregate.cpp:53 | below 2^32 rows no partial 64-bit sum overflows |
| Aggregates.CastIff | src/executor/aggregate.cpp:70-71 | the 32-bit cast keeps a value if and only if it fits, and always gives the 32-bit number congruent to it modulo 2^32 |
| Aggregates.TotalConcat | src/executor/aggregate.cpp:53 | sums add up: the sum of two lists is the sum of their sums |
| Aggregates.TruncMeans | src/executor/aggregate.cpp:72 | AVG rounds toward zero: what the quotient leaves over is less than the divisor and has the sign of the sum |
| Aggregates.TextTotals | src/executor/aggregate.cpp:52-53 | a VARCHAR argument sums to 0 |
| Aggregates.ResultMeaning | src/executor/aggregate.cpp:68-75 | COUNT and SUM are right exactly when they fit in 32 bits; truncating AVG lies between MIN and MAX and its cast loses nothing; MIN and MAX are the extremes |
| Decimal.ToStringInjective | src/common/types.h:141-143 | different integers are rendered differently and never as the empty string |
| Decimal.ToStringCanonical | src/common/types.h:141-143 | a minus sign if negative, then the digits of the number without leading zeros |
| Decimal.NumberConcat | src/parser/parser.cpp:257 | digits have the value of their place |
| Decimal.StoiReads | src/parser/parser.cpp:257 | white space, a sign or none, digits and then no digit give the number, leading zeros or not, or an exception exactly when it does not fit in 32 bits |
| Decimal.StoiThrows | src/parser/parser.cpp:257 | text of any other form gives an exception |
| Decimal.StoiToString | src/parser/parser.cpp:254-259 | reading back a rendered integer gives it, or an exception exactly when it is not a 32-bit one |
| Types.Layout | src/common/types.h:46-54 | the first column is at 0, each next one where the one before ends, and the tuple ends with the last |
| Types.ColumnsDisjoint | src/common/types.h:46-54 | columns occupy disjoint ranges in order |
| Types.IntRoundTrip | src/common/types.h:121-139 | four bytes give back the integer |
| Types.IntBytes | src/common/types.h:121-124 | the four bytes, least significant first, are those of the number or of its complement to 2^32 |
| Types.ValueRoundTrip | src/common/types.h:121-139 | a value reads back if and only if it is an INT or a VARCHAR no longer than its column without zero characters |
| Types.TextReadsBack | src/common/types.h:121-139 | whatever text is stored, its longest prefix that fits the column and has no zero character reads back |
| Types.SerializeTo | src/common/types.h:121-129 | exactly the bytes of the field change; a VARCHAR field gets the first characters of the text, as many as fit, and then zeros |
| Types.MakeTuple | src/common/types.h:158-162 | every column of the new tuple holds its value |
| Types.TupleRoundTrip | src/common/types.h:158-168 | a column of a tuple gives back the value it was made from if and only if that is storable |
| Types.TupleKeeps | src/common/types.h:158-168 | a VARCHAR column of a tuple gives back that prefix in any case |
| Types.ConcatReadsBack | src/executor/hash_join.cpp:21-28 | each column of a concatenated row reads as in the row it came from |
| Parsers.Parser.ParseExpr | src/parser/parser.cpp:177 | returns the tree of the tokens it consumes, which the next token cannot continue, and throws if and only if there are no such tokens; all in terms of the grammar |
| Parsers.Parser.ParseOr | src/parser/parser.cpp:177-191 | terminates, never passes the EOF, and throws or returns what the disjunction function gives |
| Parsers.Parser.ParseAnd | src/parser/parser.cpp:193-205 | the same for conjunctions |
| Parsers.Parser.ParseNot | src/parser/parser.cpp:207-216 | the same for negations |
| Parsers.Parser.ParseComparison | src/parser/parser.cpp:218-236 | the same for comparisons |
| Parsers.Parser.ParsePrimary | src/parser/parser.cpp:238-310 | the same for primaries |
| Parsers.Parser.ParseAggregate | src/parser/parser.cpp:275-290 | the same for aggregates |
| Parsers.Parser.ParseColumn | src/parser/parser.cpp:293-307 | the same for column references |
| Parsers.Parser.Match | src/parser/parser.cpp:14-17 | consumes the token exactly when it is of that kind |
| Parsers.OrSound | src/parser/parser.cpp:177-310 | what is parsed is what the grammar assigns to the consumed tokens |
| Parsers.OrComplete | src/parser/parser.cpp:179-191 | the loop has built exactly the tree of the grammar when it gets to the end of its tokens |
| Parsers.AndComplete | src/parser/parser.cpp:193-205 | the same for conjunctions |
| Parsers.PrimaryComplete | src/parser/parser.cpp:238-310 | every primary of the grammar is parsed as its tree, consuming exactly its tokens |
| Parsers.ParsesIff | src/parser/parser.cpp:177-310 | a token list is parsed as a tree up to its EOF if and only if the grammar gives it that tree |
| Parsers.OrIff | src/parser/parser.cpp:177-310 | ParseOr returns a tree and stops at a token if and only if the grammar gives the tokens before it that tree and it cannot continue them, whatever were to follow |
| Parsers.OrThrowsIff | src/parser/parser.cpp:177-310 | it throws if and only if there is no such tree |
| Parsers.AndIff | src/parser/parser.cpp:193-205 | the same for conjunctions |
| Parsers.NotIff | src/parser/parser.cpp:207-216 | the same for negations |
| Parsers.CompareIff | src/parser/parser.cpp:218-236 | the same for comparisons |
| Parsers.PrimaryIff | src/parser/parser.cpp:238-310 | the same for primaries |
| Parsers.OrLocal | src/parser/parser.cpp:177-310 | the result does not depend on the tokens behind the one it stops at |
| Parsers.NothingLeft | src/parser/parser.cpp:179-307 | no OR or AND is left behind an expression, no comparison token behind a bare primary, no dot behind an unqualified column |
| Parsers.Unambiguous | src/parser/parser.cpp:174-310 | the grammar gives a stretch of tokens at most one tree |
| Grammar.MoveOr | src/parser/parser.cpp:177-310 | what tokens stand for does not depend on what is around them |
| Rendering.RoundTrip | src/parser/parser.cpp:177-310 | the rendering of any well-formed tree, anywhere in a token list, is parsed as that tree and consumed exactly |
| Rendering.RenderStands | src/parser/parser.cpp:174-310 | rendering with parentheses only where precedence demands them stands for the tree |
| Rendering.ParseableIff | src/parser/parser.cpp:177-310 | the trees the parser can return are exactly the well-formed ones |

## Left out

- PoolState.ReleasedKeeps: asks that the last unpin of a written page carries the dirty flag; PoolState.NextFetchIff says exactly when a write is lost without it.
- BufferPool.BufferPoolManager.UnpinPage: the same condition, on the callers of the pool; the tree and the heap file are proved to meet it.
- PoolTrace.Perform: the same condition on the call; deletion of pages, which drops what was not written back, is left to BufferPool.BufferPoolManager.DeletePage.
- PoolTrace.Replay: the same for every call of the run.
- BPlusTrees.BPlusTree.constructor: internal limits from 3 to one below the page capacity and leaf limits from 2; by TreeShape.InternalFitsIff the default internal limit overflows its page after enough inserts, and smaller limits give empty nodes.
- BPlusTrees.BPlusTree.Insert: further calls on a tree that the exception left with a page too full are not modelled.
- HeapFiles.HeapFile.Create: tuples of 1 to PAGE_SIZE - 8 bytes; others do not fit in a page or divide by zero.
- ParallelSort.ParallelSorter.Init: asks that the last slice starts within the input, without which the code builds a slice from iterators in the wrong order (ParallelSort.SlicesOkIff); `std::sort` is a parameter known to give sorted permutations, and the partitions are filled one after the other; each task writes only its own.
- ParallelSort.SortBy: asks the same of its input as ParallelSort.ParallelSorter.Init.
- ParallelJoin.JoinComplete: the two phases are separate systems joined by the barrier of ThreadPool.WaitAllReturns; a lookup is one step, since nobody inserts during the probe.
- GroupKeys.SeparatesIff: declared lengths of at least one; with VARCHAR(0) columns, which hold only the empty string, the condition is still enough (GroupKeys.TellsApart) but not always needed.
- TreeShape.InternalFitsIff: leaf limits within the leaf page and internal limits of at least 3, as for the constructor of the tree.
- Types.MakeTuple: values have the kind and declared length of their column, which the callers see to; offsets are unbounded integers.
- Parsers.Parser.Match: error messages are not modelled, an exception is the result `None`.
- Weak memory orders: atomic operations and critical sections are steps of one sequentially consistent order.
- The disk manager: the file is a growable list of pages, allocation appends a zeroed page, page ids do not overflow.
- Page overlays: pages hold typed entries, not reinterpreted bytes; of the byte layout only the capacities remain.
- The bodies of `std::sort`, `std::make_heap`, `std::push_heap` and `std::pop_heap`: used through their contracts.
- The hash function of the lock-free table: any function into the buckets.
- The latches of the buffer pool: storage calls are made one at a time; only the operators above run in parallel.
- Statements other than expressions (CREATE, INSERT, SELECT clauses), the lexer, name resolution, expression evaluation, filter, projection, the planner, the catalog and the REPL: they would add only easy members.
- The thread pool with several client threads: one client submits, waits and destroys.
