# minidb: a verified model of its storage, index and transaction core

minidb is a small relational database. This project models the parts of it that have to be right for anything above
them to be right, and proves what each part promises, for every input and over every run of its operations.

Every component has the form it has in the program: objects whose methods update fields are classes, loops are loops
with invariants, pure arithmetic is functions. Beside each class stand a predicate for what every operation keeps
(`Valid`) and a meaning that does not mention how the operation works: a set of entries, a finite map, a map from page
to contents, a ledger of who committed when, a calendar.

| files | component |
|---|---|
| `BTreeShape`, `BTreeDescent`, `BTreePreorder`, `BTreeOrder`, `BTreeScan`, `BTreeBulk`, `BTreeGrown`, `BTreeCut`, `BTreeFar`, `BPlusTree` | the B+ tree: inserts with cascading splits, the hot-leaf cache, search, bulk load, and splits that do not find a parent |
| `VectorSort`, `IndexRebuild` | `Vector::sort`, and rebuilding an index from heap rows |
| `WaitGraph`, `LockQueues`, `LockTables`, `LockSteps`, `LockManager` | table and record locks, grants, deadlock detection |
| `Mvcc`, `TransactionManager` | snapshots and visibility, serializable conflict checks |
| `PageServer` | the multi-version page server and its restart |
| `SlottedPage`, `HeapFile` | slotted pages with pruning, and slots reserved before they are logged |
| `LinkedList`, `BufferPool`, `WriteAheadLog`, `Durability` | the buffer pool, the log, and the write-ahead rule over both |
| `HashMap` | the open-addressing hash map |
| `Catalog`, `CatalogMerge`, `DdlUndo` | the catalog, schema changes, and rolling them back while others change theirs |
| `Calendar`, `DateTime` | day numbers, and timestamps as text |
| `Values`, `IndexKey`, `Tuple` | the byte formats of values, index keys and rows |
| `Lexicographic`, `ValueMeaning`, `KeyOrder` | how values and keys compare, what the sign says about them, and that this is an order |
| `Arithmetic`, `Pieces`, `Options` | division facts, pieces of a sequence in their places, values that may be missing |

How things are represented:

- An index key is its rank among the keys in question, for instance those that fit into a 128-byte slot; that ranks
  compare as the keys do is `KeyOrders.RanksCompare`. `space` is their number; a key outside `0 <= key < space` is one
  that does not fit. Rows with such keys are not indexed by `rebuild_index` (`IndexRebuild.Fitting`).
- Code under a latch is one step. A call that waits (a lock request, a commit) is several steps, and others' steps may
  come in between. `blocked` in the lock manager is the set of calls under way.
- What the disk, `fsync` or a peer decides is either left open inside the method or a parameter; contracts hold
  whatever the outcome.
- Ghost state (`spans`, `ledger`, `stream`, `past`, ...) records history or shape and influences nothing.

What the code turns out not to do, each with its exact condition in a contract:

- `TransactionManagers.AbortIsForgotten`, `TransactionManagers.LookupIsOvertaken`: `rollback` frees the slot under the
  latch and logs the abort after it, and a visibility check reads status log and slots under different latches. An
  abort can fall through in between and pass for a commit; `Mvcc.VisibilityIsSnapshot` says for exactly which rows.
- `TransactionManagers.FrozenIdIsReused`: transaction id 2 is handed out like any other but also means "frozen". Its
  rows are visible to everybody while nobody has deleted them, and to nobody once anybody has; `Mvcc.FrozenRows` says
  for whom that is right.
- `TransactionManagers.BothPass`: the serializable check and the publication are separate latch sections with the wait
  for the log between them, so two transactions can each pass before the other is published. The comment in
  `src/transaction/transaction.cpp` (lines 202-210) calls the outcome serializable; `Mvcc.CheckThenPublish` says exactly
  when a transaction that passed the check has stale reads.
- `LockManagers.LockIsLeft`: a lock granted just before its request times out is not noted and survives `unlock_all`;
  `LockManagers.UnlockAllInterleaved` says exactly when nothing does.
- `PageServers.ZeroIsBlank`, `PageServers.FutureIsRead`: an accepted image with LSN 0 cannot be told from a page never
  written when its primary copy is missing, and a page header that names another LSN than the writer did can mislead
  reads; `PageServers.PageServer.Answer` says exactly when, and what is read then.
- `PageServers.LoggedBehindTorn`: images logged behind a torn record are served until the next restart, which stops at
  the torn record; `PageServers.PageServer.Restart` says exactly what is left.
- `HeapFiles.PredictionNeedsPrune`: a predicted slot can be refused on a page that still has dead slots; after pruning
  it never is.
- `Durability.DurableLsnFalls`: `durable_lsn` moves backwards when an abort flushes after a later record has become
  durable, exactly as `WriteAheadLogs.Wal.AbortFlush` says. The write-ahead rule is therefore proved about bytes that
  an fsync has covered, which never get fewer; with fsync switched off, about bytes handed to the file.
- `Durability.DeclaredDurable`: `ensure_next_lsn_at_least` declares everything up to an LSN durable; true exactly if it
  is, as at startup.
- `Durability.Checkpoint`: the log is truncated even if some page writes failed; exactly those pages are then older in
  the store than in memory.
- `Catalogs.NameTakenMeanwhile`: rolling back a dropped table takes its name from a table created meanwhile;
  `Catalogs.Catalog.RestoreTable` is clean exactly if nobody has name or number. Where names and numbers do not collide,
  `DdlUndo.Session.RollbackAmongOthers` keeps what others have done.
- `IndexKeys.SlotOrderAgrees`: comparing a slot in place puts NULL last, comparing decoded keys puts it first; they
  agree exactly if no NULL decides.
- `IndexRebuild.IndexIsCutOff`: the search for a parent (`BPlusTrees.BPlusTree.FindParent`) gives up after a million
  pages, and `split_internal` then takes the page it splits for the root: the two halves get a new root over them, and
  no descent leads to the rest of the index any more; what has smaller keys is lost. In an index bulk-loaded from some
  57.2 million rows one insert into a late leaf does it. `BPlusTrees.BPlusTree.Insert` keeps the index good exactly if
  its leaf or the page above is not full, or that page is the root or has its own parent among the first million pages
  (`Misses`).
- `DateTime.RoundTrip`: years outside 1 to 9999 format to text that does not parse.
- `Tuples.ReadProjected`: a column projected twice is delivered only the last time, the earlier outputs are NULL.
- `Tuples.TooWide`: rows of more than 4096 columns are written but not read back: a row of 4097 NULLs takes 543 bytes,
  reading it whole or projected gives no values, reading one column gives its value. `Tuples.RowRoundTrip` says exactly
  which rows read back.
- `SlottedPages.RedirectBlocks`: a redirect to any slot but the first counts as a tuple with a tiny offset, so nothing
  can be appended to that page any more; only dead slots are filled.
- `HashMaps.HashMap.Insert`: a full map of 2^31 slots doubles to none, and all its pairs are gone.
- `SlottedPages.AlignBounds`: rounding a 16-bit length up wraps around for the last seven lengths. Insert and update
  refuse tuples over 8192 bytes (`src/sql/executor/insert.cpp` line 328, `src/sql/executor/update.cpp` line 434), so
  these lengths do not reach a page.

The comments in `src/recovery/wal.cpp` (lines 493-501) describe a group-commit leader that waits for followers; in the
code the leader never waits, so followers do not arise and a commit is a single step. The model follows the code.

## Model

| member | source | states |
|---|---|---|
| `BTreeShape.InsertIntoLeafKeepsTree` | src/index/btree.cpp:1846-1910 | a leaf that takes one more entry at its place leaves the page graph a search tree but for that leaf's size |
| `BTreeShape.LeafInsertContents` | src/index/btree.cpp:1846-1910 | the entries of the index grow by exactly the new pair |
| `BTreeShape.SplitLeafKeepsTree` | src/index/btree.cpp:1966-2013 | after a leaf split everything is in order except that the parent does not know the new leaf; its separator is the smallest key to its right |
| `BTreeShape.SplitLeafKeepsContents` | src/index/btree.cpp:1966-2013 | a leaf split neither loses nor doubles an entry |
| `BTreeShape.SplitInternalKeepsTree` | src/index/btree.cpp:2085-2135 | the same for internal pages, the middle key moving up |
| `BTreeShape.NewRootKeepsTree` | src/index/btree.cpp:2021-2041 | a root over two halves completes a pending split: a balanced search tree one level higher |
| `BTreeShape.LinkKeepsTree` | src/index/btree.cpp:2043-2071 | linking the new page into its parent completes the split up to the parent's size |
| `BTreeShape.LinkPosition` | src/index/btree.cpp:2049-2060 | the position found by scanning the separators is the one right of the split child |
| `BTreeShape.WithinLimit` | src/index/btree.h:45-66 | a page within 57 keys needs no split |
| `BTreeDescent.DescendReaches` | src/index/btree.cpp:1787-1840 | the root descent ends at the one leaf whose range holds the key, together with its parent |
| `BTreeDescent.OneParentId` | src/index/btree.cpp:1916-1960 | no two pages hold a pointer to the same child |
| `BTreePreorder.VisitedOnce` | src/index/btree.cpp:1916-1960 | the depth-first search visits no page twice, so the visited set never stops it |
| `BTreePreorder.ParentListed` | src/index/btree.cpp:1916-1960 | the parent of every page but the root is among the pages visited |
| `BTreePreorder.FoundAt` | src/index/btree.cpp:1916-1960 | and at one place only |
| `BTreePreorder.VisitCount` | src/index/btree.cpp:1916-1960 | the search visits fewer pages than page numbers have been given out |
| `BTreePreorder.EarlierParent` | src/index/btree.cpp:1916-1960 | in the order of the search every page but the first has its parent before it |
| `BTreePreorder.FrontKept` | src/index/btree.cpp:1916-1960 | changing some pages changes the order only behind the first of them |
| `BTreeCut.ReachedSame` | src/index/btree.cpp:2043-2079 | linking a new page below its parent does not change whether that parent's own parent is found |
| `BTreeCut.ReachedAbove` | src/index/btree.cpp:2085-2135 | if the parent of a page is found, so is the parent of that parent: a cascade can only fail at its first search |
| `BTreeCut.NoTree` | src/index/btree.cpp:2021-2041 | with a new root over a page that has a parent already, no assignment of key ranges makes a tree |
| `BTreeCut.NewRootCuts` | src/index/btree.cpp:2021-2041 | and only keys of that page's range are reached from the new root |
| `BTreeFar.PlaceAtLeast` | src/index/btree.cpp:1916-1960 | a page comes in the search after all pages with smaller keys |
| `BTreeFar.FarMisses` | src/index/btree.cpp:1916-1960 | in a bulk-loaded index the leaf behind the first million and 58 * 58 leaves is full, the page above it is full and not the root, and the search does not find the page above that |
| `BTreeDescent.DepthBound` | src/index/btree.cpp:1787-1840 | a tree of h levels below its root has at least 2^h pages less one, so with 32-bit page numbers no descent meets the hop limit |
| `BTreeOrder.ChainLists` | src/index/btree.cpp:1966-2013 | the leaf chain from a leaf on lists, in strictly ascending order, exactly the entries from that leaf's range on |
| `BTreeOrder.InOrderLists` | src/index/btree.cpp:1620-1672 | the in-order traversal lists all entries in ascending order |
| `BTreeOrder.SearchTreeMeaning` | src/index/btree.cpp:1675-1715 | leaf chain and in-order traversal are the same list, ascending, with exactly the index contents |
| `BTreeOrder.SearchTreeBalanced` | src/index/btree.cpp:1620-1672 | all leaves lie at the same depth, no page has more than 57 keys, and only the last page of a level below the root may have a single child |
| `BTreeScan.SearchTreeReadable` | src/index/btree.cpp:1233-1322 | every tree with distinct keys meets what searches rely on |
| `BTreeBulk.GroupEntryOk` | src/index/btree.cpp:499-527 | a page built over a group of a level leads every lower-bound descent to the right leaf, duplicate keys included |
| `BTreeBulk.TopReadable` | src/index/btree.cpp:531-534 | when one page is left it is the root of an index searches can read |
| `BTreeGrown.LeavesGrown` | src/index/btree.cpp:444-493 | leaves filled from entries with distinct keys get key ranges under which they meet the insert invariant |
| `BTreeGrown.GroupGrows` | src/index/btree.cpp:495-529 | so does each page built over a group, also a last one with a single child |
| `BTreeGrown.GrownTree` | src/index/btree.cpp:531-534 | with one page left, the whole is a search tree |
| `BPlusTrees.FirstEntryAbove` | src/index/btree.cpp:1859-1888 | binary search finds the first entry above the key |
| `BPlusTrees.FirstAbove` | src/index/btree.cpp:1817-1831 | binary search finds the child for an insert |
| `BPlusTrees.FirstAtLeast` | src/index/btree.cpp:1740-1755 | binary search finds the child for a lower bound |
| `BPlusTrees.BPlusTree.Create` | src/index/btree.cpp:85-103 | an empty index with one leaf |
| `BPlusTrees.BPlusTree.FindLeafWithParent` | src/index/btree.cpp:1787-1840 | finds the leaf that covers the key and its parent in any tree of fewer than a million levels |
| `BPlusTrees.BPlusTree.FindParent` | src/index/btree.cpp:1916-1960 | NULL for the root; for any other page its parent if fewer than a million pages come before the parent in preorder, else NULL |
| `BPlusTrees.BPlusTree.InsertIntoParent` | src/index/btree.cpp:2019-2079 | hangs the new half into the tree, cascading upwards: with the parent given and every parent above found, a search tree with the same contents; with no parent given for a page that is not the root, or a full one whose own parent is not found, the index cut off to the range of that page, nothing lost from the pages |
| `BPlusTrees.BPlusTree.AddRoot` | src/index/btree.cpp:2021-2041 | a new root over two halves: a tree exactly if the page split was the root |
| `BPlusTrees.BPlusTree.LinkInto` | src/index/btree.cpp:2043-2071 | the separator and the new page go where the split page hangs; a tree but for the parent's size |
| `BPlusTrees.BPlusTree.SplitInternal` | src/index/btree.cpp:2085-2135 | splits an overfull internal page and everything above it that overflows; a search tree if the page is the root or its parent is found, and the index cut off to its range otherwise |
| `BPlusTrees.BPlusTree.SplitLeaf` | src/index/btree.cpp:1966-2013 | splits an overfull leaf: a search tree with the same contents if the parent can overflow, cut off to the parent's range if not |
| `BPlusTrees.BPlusTree.HotLeafFor` | src/index/btree.cpp:323-366 | the hot-leaf shortcut offers its leaf exactly if the key goes behind everything in it and before everything in the next, and then it is the leaf, with the parent, that a full descent would find |
| `BPlusTrees.BPlusTree.InsertIntoLeaf` | src/index/btree.cpp:1846-1910 | one more pair in the contents; the leaf keeps its parent and may exceed its limit by one |
| `BPlusTrees.BPlusTree.Insert` | src/index/btree.cpp:306-402 | for a key not yet present, in an index of any size: succeeds exactly if the key fits, adds exactly that pair to the pages, takes at most 33 new ones, leaves no page but a root less than half full that was not, and keeps a balanced search tree and a sound hot leaf if and only if the split, if any, finds its parents (`Misses`); otherwise descents lead to keys of one page's range only |
| `BPlusTrees.BPlusTree.InsertAll` | src/index/btree.cpp:306-402 | a run of inserts of distinct new keys goes on until page numbers run out or the next insert would miss a parent, and leaves a sound index with exactly what was there and the pairs inserted so far |
| `BPlusTrees.BPlusTree.MissesParent` | src/index/btree.cpp:1966-2135 | whether an insert would miss a parent can be looked up before it, exactly |
| `BPlusTrees.BPlusTree.FindLeafLowerBound` | src/index/btree.cpp:1722-1760 | descends to the lower-bound leaf exactly if there are at most a million levels, else ends on an internal page |
| `BPlusTrees.BPlusTree.ScanLeaf` | src/index/btree.cpp:1246-1275 | one leaf of a scan: the matches up to the first key past the range |
| `BPlusTrees.BPlusTree.ScanChain` | src/index/btree.cpp:1279-1322 | the chain walk collects exactly the matching record ids of the first million leaves from its start, in chain order |
| `BPlusTrees.BPlusTree.RangeSearch` | src/index/btree.cpp:1279-1322 | exactly the record ids with a key in the range found in the million leaves from the first that can hold one, in order, duplicates included; all of them in an index of up to a million leaves |
| `BPlusTrees.BPlusTree.Search` | src/index/btree.cpp:1233-1277 | the same for one key |
| `BTreeScan.MatchingPlace` | src/index/btree.cpp:1246-1275 | what a scan collects: as many record ids as there are entries with a key in the range, each at the place given by how many such entries come before it |
| `BPlusTrees.BPlusTree.BuildLeaves` | src/index/btree.cpp:444-493 | the leaves list the entries in order, chained, 57 to a leaf, and form the lowest level; false exactly if a key does not fit, and then the pages hold the leaves finished before it |
| `BPlusTrees.BPlusTree.BuildLevel` | src/index/btree.cpp:495-529 | each level has one page for 58 of the level below, so building ends; contents unchanged |
| `BPlusTrees.BPlusTree.BulkLoadSorted` | src/index/btree.cpp:404-534 | false exactly if a key does not fit; else, for any sorted entries, keys repeating or not, an index that searches can read and that lists exactly these entries, every page full but the last of its level; with distinct keys one that inserts can go on with |
| `VectorSort.SiftDown` | src/container/vector.h:443-457 | restores the heap below a position, rearranging only the heap |
| `VectorSort.HeapSort` | src/container/vector.h:415-424 | sorted, and a permutation, for every strict weak order |
| `VectorSort.InsertionSort` | src/container/vector.h:391-401 | sorted, and a permutation |
| `VectorSort.Sort` | src/container/vector.h:302-346 | `sort` with a comparator sorts and permutes |
| `IndexRebuild.Rebuild` | src/database/database.cpp:1092-1124 | collecting the rows whose keys fit, sorting and bulk loading them gives a readable index over exactly these rows |
| `IndexRebuild.MatchingRearranged` | src/database/database.cpp:1115-1120 | which record ids match a range does not depend on the order of the entries |
| `IndexRebuild.MatchingOrdered` | src/database/database.cpp:1115-1120 | under one key the record ids come out by page and then slot, ascending |
| `IndexRebuild.RebuildThenSearch` | src/database/database.cpp:1092-1124 | a search after a rebuild returns the record ids of the rows with that key, by page and then slot, from the smallest on: all of them for up to 57 million rows, and in larger tables unless more than 56,999,943 rows have the key; otherwise at least that many |
| `IndexRebuild.RebuildThenRangeSearch` | src/database/database.cpp:1092-1124 | a range search after a rebuild returns the record ids in the range, by key, then page, then slot, all ascending, from the first on: all of them for up to 57 million rows, and in larger tables unless more than 56,999,943 rows match; otherwise at least that many |
| `IndexRebuild.RebuildThenInsert` | src/database/database.cpp:1092-1124 | after a rebuild over distinct keys, a run of inserts, up to one that would miss a parent, leaves exactly the rows and the pairs inserted |
| `IndexRebuild.ScanFinds` | src/index/btree.cpp:1279-1322 | a scan that stops at the hop limit has found a beginning of the matches, and at least 57 for each leaf it has passed after the first |
| `IndexRebuild.IndexIsCutOff` | src/index/btree.cpp:2019-2135 | a run: a bulk load and one insert, after which the entry with the smallest key is on its page and no descent leads there |
| `WaitGraph.EdgesOutOf` | src/concurrency/lock_manager.cpp:405-457 | edges added out of one vertex close a cycle only through that vertex |
| `WaitGraph.EdgesIntoSinks` | src/concurrency/lock_manager.cpp:66-82 | edges added into vertices without outgoing edges close no cycle |
| `WaitGraph.WaitChainEnds` | src/concurrency/lock_manager.cpp:405-457 | in an acyclic graph every waiter reaches somebody who waits for nobody |
| `LockQueues.MatrixShape` | src/concurrency/lock_manager.cpp:22-28 | AccessExclusive is compatible with nothing, Exclusive with AccessShare only, the rest with each other; symmetric, and a stronger mode is compatible with no more modes |
| `LockQueues.QueueMeaning` | src/concurrency/lock_manager.cpp:53-82 | a queue is sound exactly if beside a granted AccessExclusive nothing is granted, beside a granted Exclusive only AccessShare, and whoever waits has a granted request of somebody else against it that its mode does not go with |
| `LockQueues.PassSettles` | src/concurrency/lock_manager.cpp:66-82 | one grant pass leaves granted requests compatible and every waiting one in conflict with a granted one |
| `LockQueues.PassIdle` | src/concurrency/lock_manager.cpp:66-82 | a second grant pass changes nothing |
| `LockQueues.PassAppended` | src/concurrency/lock_manager.cpp:147-158 | a new request is granted at once exactly if nothing granted conflicts, and changes nobody else |
| `LockQueues.UpgradeOk` | src/concurrency/lock_manager.cpp:100-137 | an upgrade allowed by the holders keeps the queue sound |
| `LockTables.AppendWaitingEdges` | src/concurrency/lock_manager.cpp:147-184 | a waiting request whose transaction cannot reach itself leaves the wait-for graph acyclic |
| `LockTables.GrantEdges` | src/concurrency/lock_manager.cpp:66-82 | granting waiters after a release creates no cycle |
| `LockTables.UpgradeEdges` | src/concurrency/lock_manager.cpp:100-137 | upgrading in place creates no cycle |
| `LockSteps.StartWaiting` | src/concurrency/lock_manager.cpp:147-189 | a call that starts to wait keeps the invariant of the whole lock manager |
| `LockSteps.Release` | src/concurrency/lock_manager.cpp:318-349 | a release with its grant pass keeps it |
| `LockSteps.GiveUp` | src/concurrency/lock_manager.cpp:194-204 | withdrawing a waiting request keeps it |
| `LockManagers.LockManager.FindHolders` | src/concurrency/lock_manager.cpp:405-457 | collects exactly the transactions the waiter waits for |
| `LockManagers.LockManager.DetectDeadlock` | src/concurrency/lock_manager.cpp:405-457 | terminates, and answers true exactly if the transaction can reach itself along wait-for edges |
| `LockManagers.LockManager.GrantPending` | src/concurrency/lock_manager.cpp:66-82 | the in-place pass computes the grant pass |
| `LockManagers.LockManager.RequestTable` | src/concurrency/lock_manager.cpp:84-189 | the first section of `lock_table`: granted, waiting or deadlock, each exactly when; other tables untouched; the graph stays acyclic |
| `LockManagers.LockManager.WakeTable` | src/concurrency/lock_manager.cpp:156-204 | a woken call returns granted exactly if its request is and else waits on; the cycle it searches for again is never there |
| `LockManagers.LockManager.TimeoutTable` | src/concurrency/lock_manager.cpp:187-212 | a timed-out call keeps a lock granted meanwhile and else takes its request back |
| `LockManagers.LockManager.UnlockTable` | src/concurrency/lock_manager.cpp:318-349 | the transaction's request is gone and everyone grantable is granted |
| `LockManagers.LockManager.RequestRecord` | src/concurrency/lock_manager.cpp:214-280 | the first section of `lock_record` |
| `LockManagers.LockManager.WakeRecord` | src/concurrency/lock_manager.cpp:253-290 | a woken record call returns exactly if granted, and then the lock is noted for its transaction |
| `LockManagers.LockManager.TimeoutRecord` | src/concurrency/lock_manager.cpp:280-311 | a timed-out record call takes back its request unless granted |
| `LockManagers.LockManager.UnlockRecord` | src/concurrency/lock_manager.cpp:351-364 | the request is gone and everyone grantable is granted |
| `LockManagers.LockManager.UnlockAll` | src/concurrency/lock_manager.cpp:371-403 | holds nothing afterwards exactly if it held nothing before, or had a table noted and everything it held noted; without a table noted nothing happens at all |
| `LockManagers.LockManager.UnlockNoted` | src/concurrency/lock_manager.cpp:386-402 | the last section: exactly the record locks noted are released |
| `LockManagers.ModesRespected` | src/concurrency/lock_manager.cpp:22-82 | in every state the calls can reach: on each table and record the granted modes exclude each other as they must, and nobody waits without a granted request against it |
| `LockManagers.TableStep` | src/concurrency/lock_manager.cpp:84-349 | a step on a table queue leaves requests, notes and waiting of every other transaction as they were; every step is shown to be such a one |
| `LockManagers.RecordStep` | src/concurrency/lock_manager.cpp:214-364 | the same for record queues |
| `LockManagers.ReleasedInTurn` | src/concurrency/lock_manager.cpp:371-384 | with steps of others between the sections of `unlock_all`, exactly the tables noted at the start are released |
| `LockManagers.UnlockAllInterleaved` | src/concurrency/lock_manager.cpp:371-403 | so nothing is held at the end exactly if everything held at the start was noted, whatever others do meanwhile |
| `LockManagers.LockIsLeft` | src/concurrency/lock_manager.cpp:280-311 | a run in which a lock granted just before the time-out survives `unlock_all` |
| `Mvcc.UncommittedMeans` | src/transaction/transaction.cpp:532-547 | of a transaction finished when T began, the lookup says uncommitted exactly if it aborted and is not forgotten: not logged when the status log is read, its slot given away when the slots are |
| `Mvcc.VisibilityIsSnapshot` | src/transaction/transaction.cpp:513-568 | visible exactly if the creator is T or committed before T began and the deleter is neither: for a check of four latch sections with anything in between, this holds if and only if no forgotten abort misleads on that row |
| `Mvcc.VisibilityStable` | src/transaction/transaction.cpp:513-568 | two checks that no forgotten abort misleads give the same answer, whatever others do during and between them |
| `Mvcc.PastIsSettled` | src/transaction/transaction.cpp:152-195 | who had committed, aborted or was running when T began never changes while T is active |
| `Mvcc.FrozenRows` | src/transaction/transaction.cpp:513-517 | rows of transaction 2, whose number is the frozen mark: exactly for whom the answer is right, deleted or not |
| `TransactionManagers.FrozenIdIsReused` | src/transaction/transaction.cpp:152-195 | a run of two begins after which a transaction sees a row of another one that has not committed |
| `Mvcc.LaterTransitive` | src/transaction/transaction.cpp:152-195 | what one step may change about the past, many steps may not exceed |
| `Mvcc.PrunedVerdict` | src/transaction/transaction.cpp:662-713 | the conflict verdict on the pruned history is the one on the full history |
| `Mvcc.ConflictMeans` | src/transaction/transaction.cpp:662-688 | a conflict is found exactly if a row read was written by a transaction that committed after the reader began |
| `Mvcc.BeginKeeps` | src/transaction/transaction.cpp:152-195 | beginning keeps the invariant; the snapshot lists exactly the active transactions |
| `Mvcc.CommitKeeps` | src/transaction/transaction.cpp:235-275 | publishing a commit with a pruned history keeps it |
| `Mvcc.CheckThenPublish` | src/transaction/transaction.cpp:197-235 | a transaction that passed the check has stale reads at publication if and only if a write of a row it has read was published in between |
| `Mvcc.RollbackKeeps` | src/transaction/transaction.cpp:403-418 | flipping the slot to aborted keeps it, with the status log still unaware |
| `TransactionManagers.TransactionManager.Begin` | src/transaction/transaction.cpp:152-195 | fails exactly if no slot is free and then changes nothing; else a new id, a snapshot of exactly the active transactions, and the first free slot |
| `TransactionManagers.TransactionManager.CheckConflict` | src/transaction/transaction.cpp:662-688 | the loop finds a conflict exactly if a concurrent write set and the read set share a row |
| `TransactionManagers.TransactionManager.Prune` | src/transaction/transaction.cpp:690-713 | keeps exactly the write sets some active transaction may still conflict with |
| `TransactionManagers.TransactionManager.PassesCheck` | src/transaction/transaction.cpp:197-215 | refused if and only if it is serializable and has read a row that somebody wrote who committed after it began |
| `TransactionManagers.TransactionManager.Publish` | src/transaction/transaction.cpp:231-275 | the commit is published with its write set under the next id; the rest of the past is unchanged |
| `TransactionManagers.TransactionManager.FlipAborted` | src/transaction/transaction.cpp:403-418 | the transaction is aborted and its slot free for reuse; no slot is given away by this |
| `TransactionManagers.TransactionManager.LogAbort` | src/transaction/transaction.cpp:420-426 | a lookup that reads the status log from here on cannot forget this abort; no other one is affected |
| `TransactionManagers.AbortIsForgotten` | src/transaction/transaction.cpp:152-195 | a run, for any number of slots, after which a transaction sees a row of an aborted one |
| `TransactionManagers.LookupIsOvertaken` | src/transaction/transaction.cpp:533-545 | a run in which the abort is logged and the slot taken over between the two halves of a lookup, so that an aborted deletion hides a row, although either state by itself gives the right answer |
| `TransactionManagers.BothPass` | src/transaction/transaction.cpp:197-275 | a run in which two serializable transactions that each read what the other writes both commit |
| `TransactionManagers.TransactionManager.RecordRead` | src/transaction/transaction.cpp:20-36 | the read set grows by the row exactly for serializable transactions, and by each row once |
| `TransactionManagers.TransactionManager.RecordWrite` | src/transaction/transaction.cpp:38-68 | the write set grows by the row |
| `PageServers.UpperBound` | src/storage/page_server.cpp:73-82 | binary search for the entries not above an LSN |
| `PageServers.PageInserted` | src/storage/page_server.cpp:282-327 | an index entry put into place keeps the page's index sorted and complete |
| `PageServers.PageServer.AppendLog` | src/storage/page_server.cpp:377-389 | refused exactly above the durable LSN; else one more image at the end of the log |
| `PageServers.PageServer.IndexImage` | src/storage/page_server.cpp:282-295 | the accepted images of the page grow by one, the newest LSN is kept |
| `PageServers.PageServer.Remember` | src/storage/page_server.cpp:391-416 | a retry changes nothing; else the image is indexed, and it is the newest exactly if no accepted one has a larger LSN |
| `PageServers.PageServer.WritePage` | src/storage/page_server.cpp:377-425 | an undisturbed write replaces the primary copy exactly if it is accepted, no retry and not older than the newest; the LSN is the one named by the caller, or the header's if none is |
| `PageServers.PageServer.ReadPage` | src/storage/page_server.cpp:334-375 | undisturbed: the accepted image with the largest LSN not above the one asked for, for writes in any order with retries, if and only if the header of the primary copy does not mislead; otherwise that copy; none exactly if all accepted images are later |
| `PageServers.PageServer.Answer` | src/storage/page_server.cpp:337-375 | the same with a primary copy read before the shard latch was taken: the copy is returned exactly if its header is neither above the LSN asked for nor below an accepted image up to it, else the newest accepted image up to that LSN by the time of the latch, or none |
| `PageServers.PageServer.ReadAcross` | src/storage/page_server.cpp:334-375 | a write between the two looks does no harm if the copy's header is right |
| `PageServers.PageServer.FindEntry` | src/storage/page_server.cpp:297-307 | the last index entry not above an LSN |
| `PageServers.PageServer.Restart` | src/storage/page_server.cpp:119-194 | indexing the log anew accepts exactly the images logged before the first torn record, also one whose write stopped before its index entry or primary copy; without a torn record nothing accepted is lost |
| `PageServers.PageServer.CrashAppending` | src/storage/page_server.cpp:215-243 | a torn record stays where it is, and what is logged later comes behind it |
| `PageServers.LoggedBehindTorn` | src/storage/page_server.cpp:119-194 | a run in which an image accepted after a crash is gone with the next restart |
| `PageServers.HonestHeaders` | src/storage/page_server.cpp:334-375 | a primary copy whose header bears the LSN it was accepted under never misleads |
| `PageServers.FutureIsRead` | src/storage/page_server.cpp:334-375 | a run in which a read at 5 returns the image accepted under 10 |
| `PageServers.ZeroIsBlank` | src/storage/page_server.cpp:334-375 | a run in which an accepted image with LSN 0 is read as a blank page |
| `PageServers.NewestUnique` | src/storage/page_server.cpp:334-375 | there is only one answer to a snapshot read |
| `HashMaps.WrapHarmless` | src/container/hash_map.h:152-156 | 64-bit overflow of hash plus step does not change the probe sequence when the capacity is a power of two |
| `HashMaps.NotThere` | src/container/hash_map.h:200-211 | a probe that meets a never-used slot, or comes round, proves the key absent |
| `HashMaps.RoomLeft` | src/container/hash_map.h:231-267 | below full load a slot is free |
| `HashMaps.Bury` | src/container/hash_map.h:269-285 | a tombstone hides no key behind it |
| `HashMaps.HashMap.Find` | src/container/hash_map.h:200-211 | the value of the key in the map, for every hash function |
| `HashMaps.HashMap.Insert` | src/container/hash_map.h:231-267 | the map with the pair added or replaced; always finds a slot, the first on its way that is not in use; doubles exactly beyond a load of 0.7; only a map of 2^31 slots loaded above 0.7 keeps nothing but the new pair, its size counter going on |
| `HashMaps.HashMap.Index` | src/container/hash_map.h:148-198 | `operator[]`: adds a default for a missing key, changes nothing else, but for the same overflow |
| `HashMaps.HashMap.Erase` | src/container/hash_map.h:269-285 | the map without the key, true exactly if it was there; the size counter follows |
| `HashMaps.HashMap.Rehash` | src/container/hash_map.h:321-348 | twice the capacity, the same map, no tombstones left; nothing at all with 2^31 slots, where the doubled capacity is 0 in 32 bits |
| `HashMaps.HashMap.Entries` | src/container/hash_map.h:303-319 | iterating by `begin` and `next` yields each pair of the map once |
| `SlottedPages.AlignBounds` | src/storage/page.cpp:10-12 | rounding up to eight is an upper bound exactly up to length 65528 |
| `SlottedPages.AppendedOk` | src/storage/page.cpp:71-102 | a tuple placed below all others keeps regions disjoint, above the line pointers and below the tail |
| `SlottedPages.ShrunkOk` | src/storage/page.cpp:56-68 | taking over the room of a dead tuple keeps the layout |
| `SlottedPages.CursorStaysAbove` | src/storage/page.cpp:214-236 | the compaction cursor never goes below the line pointers, so it cannot underflow |
| `SlottedPages.PackedOk` | src/storage/page.cpp:227-236 | the compacted tuples are disjoint and in bounds again |
| `SlottedPages.PackedDense` | src/storage/page.cpp:214-236 | after compaction all free room is one piece: the lowest offset accounts for live tuples alone |
| `SlottedPages.Page.constructor` | src/storage/page.cpp:17-26 | an empty page |
| `SlottedPages.SpaceMeans` | src/storage/page.cpp:277-306 | in bytes: a page has space exactly if a dead slot's aligned size suffices, or the aligned tuple fits between the line pointers, counting a new one if no slot is unused, and everything above them |
| `SlottedPages.Page.HasEnoughSpace` | src/storage/page.cpp:277-306 | true exactly if a dead slot is large enough or the tuple can be appended |
| `SlottedPages.Page.InsertTuple` | src/storage/page.cpp:48-103 | succeeds exactly if `has_enough_space`; stores the bytes in the room of the first dead tuple that is large enough, else below all others in the first unused or a new slot, and leaves every other slot, its bytes and the reserved tail alone |
| `SlottedPages.Page.InsertTupleAt` | src/storage/page.cpp:105-134 | succeeds exactly if the slot is not live and the tuple can be appended; then it is in that slot, below all others |
| `SlottedPages.Page.MarkDead` | src/storage/page.cpp:140-149 | exactly the live slots can die; they keep their room |
| `SlottedPages.Page.ReclaimSlot` | src/storage/page.cpp:155-164 | the slot is unused and its room given up |
| `SlottedPages.Page.RedirectSlot` | src/storage/page.cpp:166-173 | the slot points to another one of the page; with a target other than slot 0 the page takes only tuples that fit a dead slot from then on |
| `SlottedPages.RedirectBlocks` | src/storage/page.cpp:166-173 | after a redirect a tuple can be appended exactly if the target is slot 0 and it could be with the slot unused |
| `SlottedPages.Page.Prune` | src/storage/page.cpp:189-239 | frees exactly the dead slots, packs the live tuples against the reserved tail keeping number, length and bytes of each, returns how many it freed, and does nothing without dead slots |
| `HeapFiles.PredictSlot` | src/storage/heap_file.cpp:153-175 | predicts the slot `insert_tuple` would choose |
| `HeapFiles.PredictionHolds` | src/storage/heap_file.cpp:388-412 | without dead slots the predicted slot can be filled exactly if the page has space |
| `HeapFiles.PredictionNeedsPrune` | src/storage/heap_file.cpp:205-215 | with a dead slot left it may be refused |
| `HeapFiles.Prepare` | src/storage/heap_file.cpp:388-412 | succeeds exactly if the pruned page has space, and then the slot is reserved |
| `HeapFiles.Commit` | src/storage/heap_file.cpp:418-446 | a reserved slot is never refused: the tuple goes where the log says |
| `HeapFiles.Insert` | src/storage/heap_file.cpp:388-446 | both phases, successful exactly if the pruned page has room: announced and actual slot agree, and every live tuple survives under its number |
| `HeapFiles.CommitNew` | src/storage/heap_file.cpp:259-275 | on a new page the promised slot 0 is used exactly for tuples of at most 8152 bytes |
| `HeapFiles.HeapFile.PrepareInsert` | src/storage/heap_file.cpp:183-239 | takes the last page if it has room once pruned, else the one suggested if that has, else a page to come; the slot is good there, and no page loses a live tuple |
| `HeapFiles.HeapFile.CommitInsert` | src/storage/heap_file.cpp:245-333 | the record id written is the one reserved; fails exactly for a tuple no page can hold; every live tuple of every page survives and the page chain stays linked |
| `HeapFiles.HeapFile.AddPage` | src/storage/heap_file.cpp:277-294 | a new page is linked behind the last one through the reserved tail |
| `LinkedLists.MovesPermute` | src/container/linked_list.h:98-122 | moving to either end loses and doubles nothing |
| `LinkedLists.LinkedList.PushBackLink` | src/container/linked_list.h:87-95 | one more node at the end, all links right |
| `LinkedLists.LinkedList.MoveNodeToFront` | src/container/linked_list.h:98-108 | relinking in place moves exactly that node to the front |
| `LinkedLists.LinkedList.MoveNodeToBack` | src/container/linked_list.h:111-122 | relinking in place moves exactly that node to the back |
| `BufferPools.Injective` | src/storage/buffer_pool.cpp:458-469 | two pages never share a frame |
| `BufferPools.HomesSpread` | src/storage/buffer_pool.cpp:454-456 | neighbouring page numbers go to different partitions, round and round |
| `BufferPools.WriteBackKeeps` | src/storage/buffer_pool.cpp:143-152 | writing a frame back changes no page's contents |
| `BufferPools.RoomKeeps` | src/storage/buffer_pool.cpp:104-153 | evicting, with write-back if dirty, changes no page's contents |
| `BufferPools.ClaimThenRestore` | src/storage/buffer_pool.cpp:522-530 | a failed eviction is undone completely |
| `BufferPools.ReorderKeeps` | src/container/linked_list.h:98-122 | every LRU order stays a permutation of its partition's frames |
| `BufferPools.BufferPool.constructor` | src/storage/buffer_pool.cpp:17-31 | an empty pool stands for the store; each frame is in the LRU order of its partition once |
| `BufferPools.BufferPool.FindVictim` | src/storage/buffer_pool.cpp:430-452 | the coldest empty frame if there is one, else the coldest unpinned one, and none exactly if all are pinned |
| `BufferPools.BufferPool.FlushFrameWalFirst` | src/storage/buffer_pool.cpp:512-520 | true only if the page's LSN is within `durable_lsn` and its records survive a crash, and always on a healthy open log that reaches so far; does not enter the log when they are durable |
| `BufferPools.BufferPool.Evict` | src/storage/buffer_pool.cpp:104-153 | the victim is reserved and its page safe, or everything is as before, and that only because disk or log refused; a page goes to the store only within `durable_lsn` |
| `BufferPools.BufferPool.Fetch` | src/storage/buffer_pool.cpp:43-182 | a page that is there gets one pin more and nothing else changes; for another one the coldest empty or else coldest unpinned frame of its partition is taken, its page written back if dirty, and put at the hot end, or the cold end for a sequential read; full exactly if all frames of the partition are pinned, an I/O error only if disk or log refused; no page's contents change, pinned pages stay, the write-ahead rule holds |
| `BufferPools.BufferPool.NewPage` | src/storage/buffer_pool.cpp:194-288 | likewise: a page that is there is returned as it is, at the hot end; another one becomes blank and dirty in the frame of the victim; full and failing in exactly the same cases |
| `BufferPools.BufferPool.Unpin` | src/storage/buffer_pool.cpp:294-310 | one pin less, never below zero |
| `BufferPools.BufferPool.Update` | src/storage/buffer_pool.cpp:316-331 | a change under a pin followed by `mark_dirty` becomes the page's contents |
| `BufferPools.BufferPool.SetPageLsn` | src/storage/buffer_pool.cpp:333-353 | stamps only go up |
| `BufferPools.BufferPool.FlushPage` | src/storage/buffer_pool.cpp:359-378 | no contents change; the page goes to the store only within `durable_lsn`, and it is there, and clean, if the disk takes it and the log is durable that far or healthy |
| `BufferPools.BufferPool.FlushAll` | src/storage/buffer_pool.cpp:380-424 | only dirty pages are written, and each only within `durable_lsn`, the highest it has been during the call (the one at the end, unless it started above the last record written); if no page is ahead of the log, the log is not touched; if the log is durable or healthy as far as the pages, just those the disk refuses stay dirty |
| `WriteAheadLogs.Wal.FlushBuffer` | src/recovery/wal.cpp:120-128 | on success all accepted bytes have left the buffer, on failure none is forgotten |
| `WriteAheadLogs.Wal.AppendToBuffer` | src/recovery/wal.cpp:103-118 | the stream of accepted bytes grows by exactly the data, through buffer, flush or direct write |
| `WriteAheadLogs.Wal.WriteRecord` | src/recovery/wal.cpp:157-200 | a numbered record of header and payload, or no number used up; nothing durable becomes doubtful; a closed log is not touched |
| `WriteAheadLogs.Wal.KeepSegment` | src/recovery/wal.cpp:192-198 | what lies beyond the segment size is made durable at once, and nothing else is |
| `WriteAheadLogs.Wal.LeftIsInFile` | src/recovery/wal.cpp:103-128 | unless a write failed, a record that has left the buffer is in the file byte by byte |
| `WriteAheadLogs.Wal.SecuredSurvives` | src/recovery/wal.cpp:474-540 | a record covered by an fsync is still in the file after any crash that keeps what was synced |
| `WriteAheadLogs.Wal.DurableIsInFile` | src/recovery/wal.cpp:474-540 | so is every record up to `durable_lsn` that was not truncated |
| `WriteAheadLogs.Wal.FlushCommit` | src/recovery/wal.cpp:474-519 | true only if the record is durable when the call returns, and never on a closed log |
| `WriteAheadLogs.Wal.LogCommit` | src/recovery/wal.cpp:206-214 | a commit number means the commit record is durable and survives a crash; on a disk that refuses nothing there always is one |
| `WriteAheadLogs.Wal.AbortFlush` | src/recovery/wal.cpp:216-223 | sets `durable_lsn` back exactly if flush and fsync succeed and somebody has moved it beyond the abort record; nothing secured is lost |
| `WriteAheadLogs.Wal.Flush` | src/recovery/wal.cpp:521-529 | durable up to the last record, always so on a healthy open log, or as before |
| `WriteAheadLogs.Wal.FlushUntil` | src/recovery/wal.cpp:531-540 | true only if everything up to the LSN is durable, and always on a healthy open log that has written so far |
| `WriteAheadLogs.Wal.CheckpointMarker` | src/recovery/wal.cpp:410-443 | the marker and everything before it durable, under a fresh number; always succeeds on a healthy open log |
| `WriteAheadLogs.Wal.Truncate` | src/recovery/wal.cpp:453-467 | an empty file, the numbering going on |
| `WriteAheadLogs.Wal.EnsureNextLsnAtLeast` | src/recovery/wal.cpp:542-548 | keeps the log sound exactly if everything up to the LSN is secured already |
| `Durability.StoredPagesAreLogged` | src/storage/buffer_pool.cpp:512-520 | the write-ahead rule: every record up to a stored page's LSN has been synced, and survives a crash byte by byte |
| `Durability.Log` | src/recovery/wal.cpp:157-200 | logging anything keeps the rule |
| `Durability.AbortFlush` | src/recovery/wal.cpp:216-223 | so does the second half of an abort, which sets `durable_lsn` back exactly if it succeeds and others have moved it beyond |
| `Durability.DurableLsnFalls` | src/recovery/wal.cpp:206-223 | a run in which it falls from 2 to 1, the log up to 2 staying secured |
| `Durability.DeclaredDurable` | src/recovery/wal.cpp:542-548 | a run after which `durable_lsn` covers a record that is still in the buffer |
| `Durability.Commit` | src/recovery/wal.cpp:206-214 | a commit keeps it too, a number returned means its record survives a crash, and a healthy open log returns one |
| `Durability.LoggedUpdate` | src/storage/buffer_pool.cpp:333-353 | a page changed under a pin after its record was logged carries that record's LSN |
| `Durability.Checkpoint` | src/recovery/wal.cpp:410-472 | the flush callback never needs the latch the checkpoint holds; afterwards each page is in the store as in memory unless it was dirty and the disk refused it |
| `Catalogs.WfDetermines` | src/catalog/catalog.cpp:50-163 | name maps and entries never disagree, so the entries determine the catalog |
| `Catalogs.ColumnIndex` | src/record/schema.cpp:120-126 | the first visible column of that name |
| `Catalogs.Catalog.CreateTable` | src/catalog/catalog.cpp:50-73 | refused exactly for artifact names, empty schemas and names in use; else one table more under a new number |
| `Catalogs.Catalog.DropTable` | src/catalog/catalog.cpp:85-93 | the table and exactly its indexes are gone |
| `Catalogs.Catalog.DropIndexesForTable` | src/catalog/catalog.cpp:95-108 | collecting names and erasing them removes exactly the table's indexes, in whatever order they are listed |
| `Catalogs.Catalog.CreateIndex` | src/catalog/catalog.cpp:110-135 | refused exactly for bad names, tables and columns; else one index more |
| `Catalogs.Catalog.DropIndex` | src/catalog/catalog.cpp:157-163 | exactly that index is gone |
| `Catalogs.Catalog.RestoreTable` | src/catalog/catalog.cpp:165-176 | the entry is back under its old number and name, overwriting whoever has them; the catalog is sound exactly if nobody else had |
| `Catalogs.Catalog.RestoreIndex` | src/catalog/catalog.cpp:178-191 | the same for an index, whose table must be there |
| `Catalogs.NameTakenMeanwhile` | src/catalog/catalog.cpp:165-176 | a run in which a table created under the name of a dropped one loses that name to the restored one |
| `CatalogMerges.MergeWf` | src/catalog/catalog.cpp:165-176 | two views of the catalog put together, own tables from one and those of others from the other, are well-formed if names and numbers do not collide |
| `CatalogMerges.MergeNow` | src/catalog/catalog.cpp:165-176 | and make up the catalog itself if others have changed only theirs |
| `Catalogs.SanitizedParts` | src/catalog/catalog.cpp:34-46 | columns go or stay one by one, whatever stands beside them |
| `Catalogs.SanitizedColumn` | src/catalog/catalog.cpp:34-46 | a column is left out exactly if it has no name or one of the two parser messages for a name |
| `Catalogs.SanitizedSame` | src/catalog/catalog.cpp:34-46 | columns keep their positions exactly if none is left out |
| `DdlUndo.DdlRecorded` | src/transaction/transaction.cpp:70-79 | a schema change and its record extend a sound undo list |
| `DdlUndo.Truncated` | src/transaction/transaction.cpp:81-97 | cutting records and infos back keeps every remaining record paired with its own info |
| `DdlUndo.Session.TruncateUndo` | src/transaction/transaction.cpp:81-97 | the counting loops cut both lists to the mark |
| `DdlUndo.Session.CreateTable` | src/database/database.cpp:305-351 | the table with an automatic index for each primary or unique column, by position in the statement, unless the index name is taken; recorded with exactly these indexes, so that undo restores the catalog before |
| `DdlUndo.Session.DropTable` | src/database/database.cpp:353-413 | the table and its indexes gone, all of it saved in the record |
| `DdlUndo.Session.CreateIndex` | src/database/database.cpp:458-586 | succeeds exactly if name, table and columns allow and loading does; an index over the first visible columns of these names, or an unchanged catalog, also when loading fails half-way |
| `DdlUndo.Session.DropIndex` | src/database/database.cpp:415-456 | exactly that index gone, saved in the record |
| `DdlUndo.Session.AddColumn` | src/database/database.cpp:612-681 | one column more at the end, exactly when no visible column has the name |
| `DdlUndo.Session.DropColumn` | src/database/database.cpp:683-766 | exactly if the column is visible and no index uses it, it is marked dropped; positions do not shift |
| `DdlUndo.Session.RenameColumn` | src/database/database.cpp:768-833 | renames exactly when the old name is visible and the new one is not |
| `DdlUndo.Session.UndoCreateTable` | src/database/database.cpp:839-856 | restores the catalog before the table was created |
| `DdlUndo.Session.UndoDropTable` | src/database/database.cpp:858-869 | restores table, schema and indexes under their numbers |
| `DdlUndo.Session.UndoCreateIndex` | src/database/database.cpp:871-882 | restores the catalog before |
| `DdlUndo.Session.UndoDropIndex` | src/database/database.cpp:884-891 | restores the catalog before |
| `DdlUndo.Session.UndoAddColumn` | src/database/database.cpp:893-903 | restores the schema before |
| `DdlUndo.Session.UndoDropColumn` | src/database/database.cpp:905-913 | restores the schema before |
| `DdlUndo.Session.UndoRenameColumn` | src/database/database.cpp:915-921 | restores the schema before |
| `DdlUndo.Session.Rollback` | src/transaction/transaction.cpp:435-444 | after any sequence of schema and row changes the catalog is the one the transaction found |
| `DdlUndo.OthersKeepSound` | src/transaction/transaction.cpp:403-452 | the undo records of a transaction stay good while others change tables of theirs, as long as names and numbers do not collide, and lead back to its own tables as they were with those of others as they are |
| `DdlUndo.ReversesElsewhere` | src/transaction/transaction.cpp:429-445 | the same for one record of any kind |
| `DdlUndo.Session.RollbackAmongOthers` | src/transaction/transaction.cpp:403-452 | a rollback among others' changes: exactly the own tables and indexes as found, those of others as left |
| `DdlUndo.OthersAreKept` | src/transaction/transaction.cpp:429-445 | a run: a table is dropped, another one of another name created meanwhile, and after the rollback both are there |
| `DdlUndo.Session.RollbackToSavepoint` | src/transaction/transaction.cpp:454-480 | the catalog is the one at the mark and the undo list is sound for going on; fails exactly if a compensating record cannot be logged, and then stops at the last such record with the schema changes behind it undone and the undo list as it was |
| `Calendar.NextDayIsNext` | src/common/datetime.cpp:23-42 | consecutive calendar days have consecutive numbers, by the leap-year and month rules of section 5.7 and Appendix C of RFC 3339 |
| `Calendar.EpochIsZero` | src/common/datetime.cpp:34-42 | 1970-01-01 is day 0 |
| `Calendar.CivilInverse` | src/common/datetime.cpp:34-57 | from a valid date to its number and back |
| `Calendar.DaysInverse` | src/common/datetime.cpp:44-57 | from any number to a valid date and back |
| `DateTime.ParseDigits` | src/common/datetime.cpp:12-21 | the value of exactly n digits, or nothing |
| `DateTime.ReadFraction` | src/common/datetime.cpp:84-94 | one to six digits up to the end of the text, scaled to microseconds |
| `DateTime.Parse` | src/common/datetime.cpp:59-105 | accepts exactly the texts of a moment of the years 1 to 9999: a date alone for its midnight, or date, blank or T, time, and up to six digits of fraction; the answer is the instant of that moment, and the 64-bit range check never strikes |
| `DateTime.ParseMeans` | src/common/datetime.cpp:59-105 | a text is read as a moment if and only if it is one of the texts of that moment |
| `DateTime.Format` | src/common/datetime.cpp:107-142 | the text of the instant's date, time of day and fraction, also before the epoch |
| `DateTime.FormatMeans` | src/common/datetime.cpp:107-142 | for the years 1 to 9999 the formatted text is the one text of the instant with a blank and without zeros at the end of its fraction |
| `DateTime.SignedMeans` | src/common/datetime.cpp:126-142 | a year is written in four places, its sign among them, and wider only if it does not fit |
| `DateTime.MomentOf` | src/common/datetime.cpp:107-124 | every instant has a valid date and time of day that add up to it |
| `DateTime.RoundTrip` | src/common/datetime.cpp:59-142 | parsing the formatted instant gives it back exactly for the years 1 to 9999, and fails for all others |
| `Values.SkipAgrees` | src/record/tuple.cpp:155-190 | skipping a value goes where reading it goes and fails where reading fails |
| `Values.ReadBack` | src/record/tuple.cpp:75-153 | reading an encoded value gives it back |
| `IndexKeys.Encode` | src/index/index_key.cpp:76-119 | succeeds exactly if the encoding fits into the slot and has at most 255 columns, writes it, clears one byte behind it, and touches no other |
| `IndexKeys.KeyBegins` | src/index/index_key.cpp:76-119 | an encoded key begins with its magic number, and its first value with the number of its type |
| `IndexKeys.Decode` | src/index/index_key.cpp:121-178 | the loop computes the decoding; damaged slots give the empty key |
| `IndexKeys.DecodedFrom` | src/index/index_key.cpp:121-178 | values only come from a slot with magic number and payload within, and no more than announced |
| `IndexKeys.KeyRoundTrip` | src/index/index_key.cpp:76-178 | decoding an encoded key gives it back, whatever follows it in the slot |
| `KeyOrders.CompareKeys` | src/index/index_key.cpp:29-39 | negative if and only if the first key comes before the second: by the first column that tells them apart, turned round if it descends, NULL first exactly if `nulls_first` differs from `descending`, or by being a proper beginning; positive the other way round; zero exactly if all columns are level |
| `KeyOrders.CompareMeans` | src/record/value.cpp:85-114 | the sign of comparing two values: integers and times by number, false before true, texts by the first byte that differs or as a proper beginning, floats by the number they stand for with NaN last, types by their numbers |
| `ValueMeanings.AmountIs` | src/record/value.cpp:99-110 | the number a float pattern stands for is that of section 3.4 of IEEE 754: fraction, hidden bit and power of two |
| `ValueMeanings.AmountRises` | src/record/value.cpp:99-110 | of two float patterns without sign the larger stands for the larger number |
| `KeyOrders.KeysMean` | src/index/index_key.cpp:29-39 | the comparison of keys is negative exactly if the first comes before the second |
| `Lexicographic.LexDecides` | src/index/index_key.cpp:29-39 | a first difference decides the comparison from the left |
| `KeyOrders.KeysTurned` | src/index/index_key.cpp:29-39 | comparing two keys the other way round gives the opposite sign, for any schema |
| `KeyOrders.KeysChained` | src/index/index_key.cpp:29-39 | comparison of keys is transitive, and level only through levels |
| `KeyOrders.RanksCompare` | src/index/index_key.cpp:29-39 | the keys of any collection can be numbered so that numbers compare as the keys do |
| `KeyOrders.CompareTurned` | src/record/value.cpp:85-116 | the same for values of all types: opposite sign the other way round |
| `KeyOrders.CompareChained` | src/record/value.cpp:85-116 | and transitivity, with NaN, two zeros and text |
| `KeyOrders.LevelValues` | src/record/value.cpp:85-116 | values compare level exactly if they are the same, both NaN or both zero |
| `IndexKeys.SlotOrderAgrees` | src/index/btree.cpp:143-225 | comparing slots and comparing keys have the same sign exactly if no NULL decides, and opposite signs if one does |
| `IndexKeys.CompareSlotKey` | src/index/btree.cpp:143-225 | for all bytes: no answer without a sound header; else the first column that is not level answers, with the order of two values, the order of the types where the slot can be read no further, or not at all at a pair of texts; on an encoded key gives up exactly when a pair of texts comes before the first difference, and else has the sign of the full comparison exactly if no NULL decides |
| `Tuples.MarkedBit` | src/record/tuple.cpp:55-62 | a column's bit is set exactly if it is NULL |
| `Tuples.MakeBitmap` | src/record/tuple.cpp:55-62 | the or-loop builds that bitmap |
| `Tuples.Serialize` | src/record/tuple.cpp:37-73 | header, bitmap and values in order |
| `Tuples.HeaderRoundTrip` | src/record/tuple.cpp:335-344 | the four header fields read back, whatever the number of columns |
| `Tuples.RowRoundTrip` | src/record/tuple.cpp:196-262 | a serialized row reads back as its values, cut to the schema or padded with defaults, as a whole if and only if it has at most 4096 columns, and column by column always |
| `Tuples.TooWide` | src/record/tuple.cpp:215-221 | a row of 4097 NULLs takes 543 bytes and cannot be read as a whole |
| `Tuples.ReadRow` | src/record/tuple.cpp:196-262 | for all bytes: the row shown, or no values exactly if the row is malformed |
| `Tuples.ReadProjected` | src/record/tuple.cpp:264-333 | for all bytes: no values exactly if the row is malformed, else each output is its column, a later default, or NULL if the column is asked for again |
| `Tuples.ProjectionIs` | src/record/tuple.cpp:264-333 | for distinct columns of the schema that is the projection of the whole row |
| `Tuples.ReadColumn` | src/record/tuple.cpp:346-380 | for all bytes, also beyond 4096 columns: the default for a column added later, else the column if it and everything before it can be read, else nothing; in a sound row that column of the whole row |

## Left out

- B+ tree removal and rebalancing, incremental scans and `validate_structure`: an emptied leaf can leave the chain but stay in the tree, so the invariant proved here does not survive removals.
- Prefix search with a shorter composite key (`slot_starts_with`), and NULL keys in the B+ tree, whose order depends on which comparison decides.
- BPlusTrees.BPlusTree.Insert: for keys not yet present, and while 33 of the 2^32 page numbers of an index are left; that none wraps around before is proved, what happens then is not.
- BPlusTrees.BPlusTree.InsertIntoLeaf: likewise for keys not yet present.
- BPlusTrees.BPlusTree.BulkLoadSorted: for NULL-free keys, as entries with a NULL are inserted one by one by the code instead, and into a new index, as both callers do.
- BPlusTrees.BPlusTree.Search: in trees of at most a million levels.
- IndexRebuild.RebuildThenSearch: for fewer than 2^32 rows, the size of a `Vector`.
- VectorSort.Sort: the partitioning branch is not modelled, because the depth limit passed by `sort` is 0 and it is never taken.
- LockManagers.LockManager.RequestRecord: deadlocks through record locks are not searched for by the code, so acyclicity is stated for table locks only.
- The granted-mode bit mask of lock objects, key locks (record locks under a hashed key) and lock statistics.
- Interleavings finer than a latch section, and the I/O phases of a buffer-pool fetch: a fetch is one step, so the in-progress flag and waiting for it do not appear.
- BufferPools.BufferPool.Fetch: one attempt; waiting for a frame and trying again is a further call.
- BufferPools.BufferPool.MoveNode: works on the order as a sequence; that the linked nodes realise it is proved in `LinkedLists`.
- A buffer pool without a log (`wal_mgr_` null), to which the write-ahead rule does not apply.
- WriteAheadLogs.Wal.FlushCommit: does not say that a failed call left the record undurable; a later flush may have made it durable.
- Record checksums, redo and undo at recovery (`recover`), and the segment statistics of the log.
- SlottedPages.Page.InsertTuple: for tuples of at most 65528 bytes; longer ones would wrap the 16-bit rounding, but insert and update let none over 8192 bytes through.
- SlottedPages.Page.InsertTupleAt: likewise, and with it `HeapFiles.Commit`, `HeapFiles.CommitNew`, `HeapFiles.Insert` and `HeapFiles.HeapFile.CommitInsert`.
- HeapFiles.HeapFile.PrepareInsert: which page the free-space map suggests is a parameter, and fetching a page from the buffer pool always succeeds.
- HashMaps.HashMap.Insert: for tables grown from the default constructor; an initial capacity that is no power of two is not covered, nor is the size counter passing 2^32, which takes billions of inserts after an overflow of the capacity.
- PageServers.PageServer.WritePage: checksums, shards, the version cache, the metadata file and failing log writes are not modelled.
- PageServers.PageServer.Restart: a record cut off exactly before its trailer, which counts as whole until something is appended, is not modelled.
- Mvcc.VisibilityIsSnapshot: for ids the manager has given out, with a status log present; rows stamped frozen are the subject of `FrozenRows`.
- DdlUndo.Session.RollbackAmongOthers: where names or numbers collide, only what a single restore does is stated, by `Catalogs.Catalog.RestoreTable` and `Catalogs.Catalog.RestoreIndex`.
- DdlUndo.Session.RollbackToSavepoint: that the abort which follows a failed call restores the catalog, undoing some schema changes a second time, is not proved.
- Autocommit around schema changes, lock waits in them, files on disk, statistics and index build state: only the logical catalog (names, numbers, schemas, index definitions) is modelled.
- Float formatting and arithmetic: floats are IEEE 754 bit patterns with their order.
- Tuples.ReadColumn: for column counts whose bitmap size fits into 32 bits.
- The SQL parser, planner and executors, the network server and client, configuration, tracing, resource limits, the free-space and visibility maps.
