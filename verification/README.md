# HedgehogDB in Dafny

This project models the storage engine of HedgehogDB and the part of its cluster layer that decides where a key
lives, and proves what each layer promises to the one above it. `dafny verify dfyconfig.toml` checks all of it.

Each layer is tied to the simple thing it has to agree with:

- **Slotted pages** (`Keys`, `RecordPage`, `PageBytes`, `SlottedPage`). A 4096-byte page is an array with a header,
  cell pointers and cells. Its operations are sorted insert, removal and lookup on the sequence of cells it encodes.
- **The B+ tree** (`TreeShape`, `TreeContents`, `Rewrite`, `BTree`, `TreeDelete`, `TreeTheorems`, `Descent`,
  `SplitRouting`, `SplitPath`, `SplitFailure`, `DeleteRouting`, `LoneSplit`, `TreeScan`, `SortedListing`).
  `BTree.BPlusTree` keeps pages in a map from page ID to record page and refines one finite map. The ghost shape gives
  each page a level, a key range, which may be empty, and a stretch among the pages of its level; keys are compared by
  an order-preserving rank in [0, 1). Leaf splits, internal splits and new roots keep the invariant through an
  explicit intermediate state in which one page has been cut and its parents do not know it yet. `Descent` says what a
  search finds in any pages, search tree or not, and `SplitPath` follows a promoted separator up the path, for every
  separator; `SplitFailure` and `DeleteRouting` say which map searches see after a failed split and after an emptied
  leaf. The leaf chain is the in-order traversal. Every insertion also records the page images it logs, and replaying
  them gives the new pages.
- **The buffer pool** (`CacheSpec`, `LruShard`, `BufferPool`, `Pager`). `LruShard.Shard` is the hash map with its
  doubly linked recency list; each of its methods is one step of the pure specification in `CacheSpec`. Over every
  run of the whole pool, shards and shared file together, transparency and recency by time are proved.
- **The free list** (`FreeList`). A stack of ID blocks inside page bytes; page IDs stay split into live, listed and
  list pages.
- **The write-ahead log** (`WalRecord`, `WalRecovery`, `WalLog`, `GroupCommit`, `GroupReplies`, `LogReplay`). Records as
  bytes, a log cut or damaged at any byte, recovery, the appending side, group commit as a system of interleaved steps
  with what each caller is told, and when the recovered images bring the pages of a tree to those after any number of
  committed operations.
- **The partitioned table** (`Producers`, `TreeLock`, `MergedScan`, `Table`, `ChunkedScan`, `HangingScan`).
  Hash-routed trees that refine one map, the k-way merged scan that lists it, the goroutines that feed the merge from
  inside their trees' read locks, and what becomes of writers and later chunks behind such a lock.
- **The ring and membership** (`HashRing`, `Ring`, `MembershipSpec`, `Membership`). Preference lists that are stable
  under joins and departures, and the membership state machine that drives the ring.
- **Quorums and vector clocks** (`Quorum`, `VectorClock`). The loops that count replies, overlap, and the lattice of
  clocks.

`Sets` and `Division` hold facts about cardinalities and remainders that several modules use.

CRC32 and both FNV hashes are function parameters: deterministic, otherwise unknown. Times are parameters of the
calls that read a clock. A method that models a Go function with an error return gives an `Option`, a result
datatype or a Boolean.

## Where the code keeps less than it seems to

These are properties of the code as it stands. For each the exact condition is proved.

- A leaf split with only the new pair left promotes the new key. If the page that is to keep this separator has it
  already, `Insert` returns nil but leaves no search tree (`Insert`, clause on `RepeatsSeparator`), and the new value
  is not found unless the split further up sends its key to the right half all the same (`LosesPair`). Keys of the
  sibling before the leaf are lost with it (`SplitRouting.RepeatedLosesSibling`). Where the parent has separators, it
  happens if and only if the leaf holds no pair but the new one and the parent has the key as the separator before the
  leaf (`LoneSplit.RepeatsIff`); a root leaf or a first child is never concerned, and there `Insert` keeps its
  promise. An input: two pairs of 1-byte keys with 2040-byte values into an empty tree, and then an update of the
  greater key (`LoneSplit.UpdateIsLost`). Small values do it too: each update of a lone key leaves its old cell as dead
  space until the page is full.
- A pair so large that a half of the leaf does not fit is reported as an error, but the leaf has lost part of its
  pairs by then: the `LeafFull` outcome, exactly when `LeafOverflows`; `KeptByLeaf` is the map that is left. A separator
  so large that a half of an internal page does not fit, or that it does not fit into a new root, is the `NodeFull`
  outcome, exactly when `Overflows`; what is then still found is exactly the map `KeptByNode`, computed from the tree
  before the call: at the root the keys below the separator, elsewhere all keys but those of the children that the page
  on the path has lost (`SplitFailure.PageFull`, `RootFull`, `KeptMap`). With cells of at most 175 bytes no split fails,
  after whatever insertions and deletions that have kept the search tree.
- A merged scan that stops early, at a refusal or at the end of a full chunk, does not drain its channels. Every
  partition with more than 64 unread pairs then keeps its tree's read lock for good (`Producers.ReleasedIff`,
  `Table.LeftLocked`). A writer that is after such a partition between two chunks waits forever, and behind it the
  next chunk's reader (`TreeLock.NeverServedIff`), so `ChunkedScan.ScanChunked` never returns, exactly when a writer is
  after a partition that a full chunk so far has left locked (`StuckIff`). An input: two partitions, one of them with 66
  keys, chunks of one pair, and one PutItem to that partition after the first chunk (`HangingScan.OnePutHangs`).
- `handleUnderflow` frees an emptied leaf without relinking the chain. The result is a search tree exactly when the
  leaf was the first leaf of the tree and its parent has another child; searches by key still agree with the map exactly
  when the leaf was not the last child of its parent (`BTree.BPlusTree.Delete`). For a last child the code takes out the
  cell before it and keeps the pointer to the freed leaf. An input: deleting the greater of two keys that have a leaf
  each (`LoneSplit.DeleteLosesMore`).
- A new page that has not been written since `NewPage` can be lost by an eviction (`CacheSpec.DropTransparent`). For
  the same reason the FlushPage of a new root in OpenBPlusTree (internal/storage/btree.go:57-59) writes nothing: the
  page is clean (internal/storage/bufferpool.go:190). The root stays zeroed on disk until the first setter has marked
  it dirty.
- `Recover` merges committed transactions in map order. The result for a page is determined exactly when all its
  committed writers agree on the last image (`WalRecovery.OrderIndependent`), and a sequence of committed operations is
  recovered for certain exactly when every one that wrote a page left it in its final state
  (`LogReplay.SequenceRecoveredIff`). Nothing but a test calls `LogCheckpoint`, so the log holds every operation since
  the file was opened. An input: two insertions into one leaf (`LogReplay.SecondInsertLost`).
- Reopening a log with a torn last record appends behind it; what is appended is read back by the next recovery
  exactly when there is no torn record (`WalLog.AppendsAreReadIff`). The table truncates the log on opening only when
  recovery brought pages back, so a log with a torn record and nothing to recover is appended to.
- `TotalPages` is a uint32; the page partition survives exactly until it wraps (`FreeList.FreeList.AllocatePage`).
- Joining a dead member again, or hearing from it without a recovery callback, does not put it back on the ring
  (`MembershipSpec.ExactIff`).
- A heartbeat of an unknown node from the address for which this node itself passes as the seed removes this node
  (`MembershipSpec.SelfAliveIff`).
- Two nodes with a virtual node at the same hash can change places in a preference list when a third joins
  (`HashRing.JoinStableIff`).
- A quorum read with fewer than R answers still returns the last document it got, exactly when the replies after it
  are all failures (`Quorum.ReadBelowQuorumIff`, `ReadMissesWrite`), although its comment says it reads from R
  replicas.

## Model

| member | source | states |
|---|---|---|
| Keys.CompareKeys | internal/storage/page.go:491-511 | the byte comparison is negative, zero or positive exactly as the ranks of the keys (an order-preserving embedding into the reals) compare |
| Keys.RankIsLexicographic | internal/storage/page.go:491-511 | rank order is lexicographic byte order with shorter prefixes first, and equal ranks mean equal keys: the order is total |
| RecordPage.LookupInsert | internal/storage/page.go:257-285 | inserting a new pair at its search position changes the answer for that key only |
| RecordPage.LookupRemove | internal/storage/page.go:320-342 | removing a pair changes the answer for its key only |
| RecordPage.InsertSorted | internal/storage/page.go:257-285 | inserting at the binary-search position keeps cells strictly sorted and adds exactly the new cell |
| RecordPage.LeafTakes | internal/storage/page.go:257-262 | a leaf takes a pair if and only if the free end is beyond the pointers by the cell and one pointer more, also when cells have been taken out of it |
| RecordPage.InternalTakes | internal/storage/page.go:391-418 | the same for a separator of an internal page, which then holds it in order |
| RecordPage.FittingIff | internal/storage/btree.go:276-294 | the number of cells that a rewrite keeps is the one at which the page is full: that many fit and one more does not |
| RecordPage.HalvesFit | internal/storage/btree.go:270-294 | if every cell is at most 175 bytes, cutting an overflowing page at half its cell count leaves two halves that each fit 4080 bytes |
| PageBytes.WriteLeafCell | internal/storage/page.go:227-240 | the written bytes are exactly the encoded pair, and no byte outside the cell changes |
| PageBytes.ReadLeafCell | internal/storage/page.go:242-254 | reading an encoded pair gives back its key and value |
| PageBytes.WriteInternalCell | internal/storage/page.go:366-377 | the written bytes are exactly the encoded child and key, nothing else changes |
| PageBytes.ReadInternalCell | internal/storage/page.go:379-388 | reading an encoded internal cell gives back child and key |
| SlottedPage.RawPage.LeafSearchIndex | internal/storage/page.go:290-304 | binary search over the cell pointers finds the number of keys below the key, in the decoded sorted sequence |
| SlottedPage.RawPage.SearchLeaf | internal/storage/page.go:307-317 | search on the bytes is lookup in the decoded pairs, for present and absent keys |
| SlottedPage.RawPage.InsertLeafCell | internal/storage/page.go:257-285 | on the bytes: taken exactly when the gap between cell pointers and cells holds the cell and a pointer, whatever the page went through before; then the decoded pairs are the sorted insert and the gap shrinks by that much at both ends. Otherwise nothing changes; all other cells decode unchanged |
| SlottedPage.RawPage.DeleteLeafCell | internal/storage/page.go:320-342 | on the bytes: the pair is gone from the decoded pairs, its neighbours untouched, one pointer less and its bytes left as dead space; or false and no change |
| SlottedPage.RawPage.InsertInternalCell | internal/storage/page.go:391-418 | on the bytes: a separator is taken exactly when the gap holds its cell and a pointer; then it is inserted in order into the decoded cells, otherwise nothing changes |
| SlottedPage.RawPage.InternalSearchIndex | internal/storage/page.go:421-435 | finds the search position among the decoded separators |
| SlottedPage.RawPage.FindChildFor | internal/storage/page.go:438-449 | the linear search over the bytes returns the child whose separator range holds the key |
| SlottedPage.RawPage.GetLeafKeyValueAt | internal/storage/page.go:352-357 | the i-th cell pointer leads to the i-th decoded pair |
| SlottedPage.RawPage.GetInternalCellAt | internal/storage/page.go:459-463 | the i-th cell pointer leads to the i-th decoded separator |
| SlottedPage.RawPage.RewriteChild | internal/storage/btree.go:352-372 | overwriting a child pointer in place changes that cell and no other |
| SlottedPage.RawPage.Clear | internal/storage/btree.go:492-509 | clearing leaves an empty page of the same type, parent ID and right pointer, with zeros behind the header and all space free |
| SlottedPage.RewrittenSlots | internal/storage/page.go:366-377 | pairwise disjoint cells: rewriting one with as many bytes leaves every other cell as it was |
| SlottedPage.InsertedSlots | internal/storage/page.go:257-285 | after a cell is written below the free-space end and linked, cells stay disjoint inside [freeSpaceEnd, 4096) and the old ones decode unchanged |
| SlottedPage.RemovedSlots | internal/storage/page.go:331-341 | unlinking a cell leaves the remaining cells disjoint and unchanged |
| SlottedPage.HoldsOne | internal/storage/page.go:227-254 | the bytes of a page determine its record page: two record pages held by the same bytes are the same |
| BTree.BPlusTree.constructor | internal/storage/btree.go:45-69 | a new tree is one empty leaf with page ID 1, a valid search tree of the empty map |
| BTree.BPlusTree.Open | internal/storage/btree.go:46-69 | opening on an existing root takes the pages as they are: pages that represent a map give a valid tree of that map |
| BTree.BPlusTree.FindLeafPath | internal/storage/btree.go:216-236 | the path is the descent from the root along the children that the key routes to, and it ends in the leaf whose range holds the key |
| BTree.BPlusTree.Search | internal/storage/btree.go:79-104 | returns exactly what the map holds for the key; the descent terminates by tree height |
| BTree.BPlusTree.Insert | internal/storage/btree.go:107-159 | for every valid tree the outcome is decided by the tree before the call: LeafFull if and only if the leaf has no room and a half of its pairs does not fit a page, NodeFull if and only if a page on the way up has no room and its halves do not fit, nil otherwise. On nil the tree is valid again with the map old[key := value], and every search agrees with that map, unless the split repeats a separator; then no assignment of ranges makes the pages a search tree. The new value is found if and only if the promoted key lands. Replaying the logged page images gives the new pages. If the leaf has room for the cell and a pointer, nil comes back, the root stays, no other page changes, and the tree is valid with old[key := value], whatever was deleted before; a root leaf without room becomes two leaves under a new root. After LeafFull the tree is valid with the map that has lost the keys from the first one not rewritten to the end of the leaf (KeptByLeaf), the new one or others among them. After NodeFull a search finds exactly the map that KeptByNode computes from the tree before the call: on the path it looks for the first page whose halves do not fit, counts the cells that fit, and takes out what lies behind them. With cells of at most 175 bytes it always returns nil, and the cells stay that small |
| BTree.BPlusTree.SplitAndInsert | internal/storage/btree.go:250-313 | the same for a leaf without room: which error comes back, when the result is the tree of the map with the new pair, when the pages are no search tree, when the new pair is found, and which map is left after each of the two errors |
| BTree.BPlusTree.InsertIntoParent | internal/storage/btree.go:319-349 | the separator of a cut goes to the parent, splits it, or makes a new root; the key of the operation reaches its half if and only if the separator lands; the tree is valid with the same map unless a page that keeps the separator has it already; on NodeFull searches find exactly KeptMap of the old tree |
| BTree.BPlusTree.LinkHalf | internal/storage/btree.go:328-372 | inserting the separator and correcting the pointers around it resolves the cut when the separator is new to the parent, and otherwise leaves the parent out of order |
| BTree.BPlusTree.SplitInternalNode | internal/storage/btree.go:376-467 | splitting an internal page passes its middle separator up with the same map; NodeFull exactly when a half does not fit here or further up, and then searches find exactly KeptMap of the old tree |
| BTree.BPlusTree.CreateNewRoot | internal/storage/btree.go:470-489 | a cut root gets a new root above it with the same map; without room for the separator, exactly the keys from it on are no longer found |
| BTree.GatherPairs | internal/storage/btree.go:252-302 | the merge of old pairs and new pair is sorted, the halves are its first and second half by count, and both rewrites succeed exactly when each fits an empty page; otherwise the leaf holds as many pairs of the first half as fit |
| BTree.GatherSeps | internal/storage/btree.go:384-420 | the gathered separators are those of the node with the cut child replaced by its halves, in ascending order also when one is repeated |
| BTree.RewriteHalves | internal/storage/btree.go:422-453 | both halves are rewritten exactly when each fits, with the middle separator in neither; otherwise the left page holds as many cells of the first half as fit |
| Rewrite.MergeCell | internal/storage/btree.go:252-271 | the loop inserts the new pair at its sorted position among the old ones |
| Rewrite.WriteLeaf | internal/storage/btree.go:276-294 | rewriting succeeds exactly when the cells fit, and then holds exactly them; otherwise the longest prefix that fits |
| Rewrite.WriteInternal | internal/storage/btree.go:426-453 | the same for internal cells, in ascending order; of repeated keys the cells may change places |
| Rewrite.FixPointers | internal/storage/btree.go:352-372 | the cell of the new key points left, the cell after it (or the right pointer) points right, nothing else changes |
| TreeShape.LeafSplit | internal/storage/btree.go:270-313 | cutting a leaf in two keeps depth, ranges, chain and distinctness |
| TreeShape.ParentInsert | internal/storage/btree.go:319-372 | the parent with the new separator tiles its range again |
| TreeShape.NodeSplit | internal/storage/btree.go:422-466 | cutting an internal page keeps depth, ranges and distinctness |
| TreeShape.NewRoot | internal/storage/btree.go:470-489 | a root over the two halves is one level higher and covers everything |
| TreeContents.Routes | internal/storage/page.go:438-449 | the child chosen at a node has a range that holds the key, one level down |
| TreeTheorems.SubtreeOk | internal/storage/btree.go:79-104 | the flat page invariant implies that the pages form a search tree of equal depth, every subtree inside its separator range |
| TreeTheorems.ChainIsInOrder | internal/storage/btree.go:633-679 | the leaves met along the right pointers are exactly the leaves of the in-order traversal, in that order |
| SplitRouting.RoutingIff | internal/storage/btree.go:300-372 | splitting below a parent keeps the routing of all other children if and only if the promoted key is not a separator of that parent yet or is the empty key, before which no key comes |
| SplitRouting.RepeatedLosesSibling | internal/storage/btree.go:352-372 | with a repeated separator no key reaches the right half, where the new pair is, nor the sibling before the cut page: their keys are all sent to the emptied left half |
| SplitRouting.PromotedIsNew | internal/storage/btree.go:252-302 | the promoted key is above the lower separator if and only if the split is not that of a leaf left with only the new pair, whose key is that separator |
| LoneSplit.RepeatsIff | internal/storage/btree.go:242-349 | an insertion repeats a separator only by splitting a leaf that holds no other pair, below the root; where the parent has separators, it does so if and only if moreover the key is the separator before the leaf: never for a first child |
| LoneSplit.UpdateIsLost | internal/storage/btree.go:107-159 | a concrete run: from an empty tree, two insertions of pairs with 1-byte keys and 2040-byte values and then an update of the greater key; it returns nil, the new value is not found, and the pages are no search tree |
| LoneSplit.TwoInserts | internal/storage/btree.go:250-313 | the two insertions leave a page for each pair under a root with the greater key as its separator |
| LoneSplit.DeleteLosesMore | internal/storage/btree.go:512-580 | a concrete run: deleting the greater of the two keys empties the last child; nil comes back, and searches do not answer from the map that is left |
| SplitPath.RepeatedBreaks | internal/storage/btree.go:376-467 | an internal page cut with a repeated separator leaves a half out of order or a child in two places |
| SplitPath.BrokenIsNoTree | internal/storage/btree.go:79-104 | pages with a page out of order or a child in two places satisfy the tree invariant for no assignment of ranges |
| SplitPath.SplitTarget | internal/storage/btree.go:376-467 | through a page split on the way up, the key of the operation ends in its half if and only if the promoted separator lands further up |
| SplitFailure.PageFull | internal/storage/btree.go:434-453 | an internal page left with its first n cells and another last child: exactly the keys of the children behind them, but for that child, are no longer found, and there are such ranges |
| SplitFailure.RootFull | internal/storage/btree.go:470-489 | without the new root, exactly the keys from the separator on are no longer found |
| SplitFailure.KeptHere | internal/storage/btree.go:376-453 | at a page without room whose halves do not fit, KeptMap is the map without the keys that PageFull takes out when the page keeps as many cells of its first half as fit |
| SplitFailure.SameKept | internal/storage/btree.go:376-467 | KeptMap depends on no page but those of the path |
| Descent.TreeFindsAll | internal/storage/btree.go:79-104 | in a search tree every descent ends in a leaf that answers as the map does |
| Descent.FindsOnce | internal/storage/btree.go:79-104 | a descent has one outcome, in any pages |
| BTree.BPlusTree.Delete | internal/storage/btree.go:162-203 | KeyNotFound exactly for absent keys and then nothing changes; else the map loses the key. When the leaf runs empty, the tree stays valid exactly if that leaf is the first leaf of the whole tree and its parent has another child, and otherwise no assignment of ranges makes it a search tree; searches still agree with the map if and only if the leaf was not the last child of its parent. The pages, the root and the logged images after the call are given from those before it. Small cells stay small |
| BTree.BPlusTree.HandleUnderflow | internal/storage/btree.go:512-631 | nothing happens while the leaf keeps a cell; for the emptied leaf: which cell the parent loses, which page is freed, when the root collapses and into what, the one image that is logged, the exact condition under which the tree stays valid, and the one under which searches agree with the map |
| DeleteRouting.UnderflowFinds | internal/storage/btree.go:512-631 | after the cell of an emptied leaf is taken out and the root has collapsed or not, every search finds what the map holds if and only if the leaf was not its parent's last child |
| DeleteRouting.DroppedFinds | internal/storage/btree.go:541-556 | without the cell of an emptied leaf its keys go to the next child, which answers for them as the map does |
| TreeDelete.Dangling | internal/storage/btree.go:531-580 | freeing an emptied leaf that another leaf points to leaves the chain dangling: not a search tree |
| TreeDelete.CollapseRoot | internal/storage/btree.go:585-627 | a root with a single child can be replaced by that child |
| TreeDelete.TakeCell | internal/storage/btree.go:541-556 | the parent without its first cell that points to the emptied child; if none does, without its last cell when the child is its right pointer, and unchanged otherwise |
| TreeScan.Scan | internal/storage/btree.go:633-686 | the callback gets the sorted listing of the map, up to and including its first refusal |
| TreeScan.WalkChain | internal/storage/btree.go:649-686 | following the chain from a leaf hands over the listing beyond the start key, up to the limit or a refusal |
| TreeScan.FindStart | internal/storage/btree.go:714-770 | the starting leaf is the one whose range holds the key after which to continue, and the starting index the first pair beyond it |
| TreeScan.ScanOneChunk | internal/storage/btree.go:714-796 | one chunk is the first chunkSize pairs beyond the last key, and is reported done exactly when it was refused or short |
| TreeScan.ScanChunked | internal/storage/btree.go:689-710 | with any valid trees between chunks, the output is strictly increasing, each pair was in some tree, and each key present throughout is handed over once; on an unchanged tree it equals Scan for every chunk size; it terminates |
| TreeScan.Resume | internal/storage/btree.go:700-705 | continuing after the last key handed over gives exactly the rest of the listing |
| TreeScan.Count | internal/storage/btree.go:799-806 | counts the map |
| LruShard.Shard.PushFront | internal/storage/bufferpool.go:326-336 | the linked list gets the entry in front; prev and next agree along the list |
| LruShard.Shard.RemoveFromList | internal/storage/bufferpool.go:346-359 | the list without the entry; its neighbours are joined |
| LruShard.Shard.MoveToFront | internal/storage/bufferpool.go:338-344 | the same entries with this one first |
| LruShard.Shard.FindVictim | internal/storage/bufferpool.go:309-316 | walking from the tail finds the least recently used unpinned entry, or none |
| LruShard.Shard.Evict | internal/storage/bufferpool.go:309-324 | evicts that entry after writing it back if dirty; list and map stay the same set, once each, in recency order |
| LruShard.Shard.FetchPage | internal/storage/bufferpool.go:88-121 | on linked entries and maps: exactly the pure fetch step, which FetchHit and FetchMissExactly spell out |
| LruShard.Shard.NewPage | internal/storage/bufferpool.go:124-151 | exactly the pure step for a new page, size within cap |
| LruShard.Shard.Unpin | internal/storage/bufferpool.go:154-164 | a cached page has one pin less, none if it had none; no other page and nothing else changes |
| LruShard.Shard.FlushPage | internal/storage/bufferpool.go:178-195 | if the page is cached and dirty, the disk holds its bytes, it is clean, and everything else is as before; otherwise nothing changes |
| LruShard.Shard.FlushDirty | internal/storage/bufferpool.go:198-216 | both flush loops, in any map order: exactly the dirty (or dirty and unpinned) pages are on disk with their bytes and clean, all other frames and disk pages are as before |
| LruShard.Shard.FreePage | internal/storage/bufferpool.go:287-298 | the page leaves list and map, the other frames stay |
| LruShard.Shard.MarkDirty | internal/storage/bufferpool.go:167-175 | a cached page is dirty, nothing else changes |
| CacheSpec.VictimUnpinned | internal/storage/bufferpool.go:309-324 | a page that is evicted is unpinned, and everything behind it in the list is pinned |
| CacheSpec.DropTransparent | internal/storage/bufferpool.go:309-324 | dropping a page keeps what it reads as if and only if it is not an unwritten new page with other bytes than the disk |
| CacheSpec.EvictTransparent | internal/storage/bufferpool.go:309-324 | eviction with write-back changes no page's logical bytes, unwritten new pages excepted |
| CacheSpec.FetchTransparent | internal/storage/bufferpool.go:88-121 | fetching changes no page's logical bytes, keeps size within cap, and pins the page |
| CacheSpec.MakeRoomExactly | internal/storage/bufferpool.go:309-324 | room is made if and only if the shard is not full or a page is unpinned; a full one then loses the last unpinned page of its list, written to disk if dirty, and nothing else changes |
| CacheSpec.FetchHit | internal/storage/bufferpool.go:88-121 | fetching a cached page gives it exactly one pin more and puts it in front; disk, bytes and the order of the others stay |
| CacheSpec.FetchMissExactly | internal/storage/bufferpool.go:88-121 | a page that is not cached can be fetched if and only if there is room to be made and the disk has it; it then comes in front, clean, with the bytes on disk and one pin |
| CacheSpec.NewExactly | internal/storage/bufferpool.go:124-151 | a new page can be made if and only if there is room to be made; it comes in front, clean, with one pin |
| CacheSpec.FlushExactly | internal/storage/bufferpool.go:198-216 | after the step that flushes all pages (or all unpinned ones) exactly the dirty ones of these are on disk and clean |
| CacheSpec.StepKeeps | internal/storage/bufferpool.go:88-298 | every operation keeps the shard invariant and the invariant "clean cached page equals disk" |
| BufferPool.ShardCapacities | internal/storage/bufferpool.go:51-81 | shard capacities sum to the pool capacity, differ by at most one and are positive |
| BufferPool.HomeIs | internal/storage/bufferpool.go:83-85 | a page lives in shard i if and only if its ID is i more than a multiple of the number of shards |
| BufferPool.PoolTransparent | internal/storage/bufferpool.go:83-121 | an operation on one shard changes the logical bytes of no other page in any shard over the shared disk |
| BufferPool.RunTransparent | internal/storage/bufferpool.go:83-298 | in every run of the pool, whatever its shards evict, write back and flush on their one file, a page reads the same from one operation meant for it to the next |
| BufferPool.ReadsLastSet | internal/storage/bufferpool.go:83-216 | in every run of the pool a page reads as the last bytes set |
| BufferPool.FlushedIsOnDisk | internal/storage/bufferpool.go:178-216 | in every run of the pool a page that is set and then flushed, by itself or with its shard, is on disk with the bytes set, until something else is meant for it, whatever is evicted, dropped or flushed in between |
| BufferPool.RecencyIsByTime | internal/storage/bufferpool.go:88-151 | after every run from an empty pool, each shard's list is strictly ordered by the time of the last fetch or creation of its pages |
| BufferPool.VictimIsOldest | internal/storage/bufferpool.go:309-324 | so the page an eviction drops is, of the unpinned ones, the one fetched or created longest ago |
| Pager.Pager.ReadPage | internal/storage/pager.go:77-100 | reads what the disk map holds; an error for page 0 and pages beyond the file |
| Pager.Pager.WritePage | internal/storage/pager.go:103-118 | updates the disk map at one page; page 0 is refused |
| Pager.Pager.AllocatePage | internal/storage/pager.go:121-142 | hands out TotalPages and counts it up as a uint32, adding a zeroed page |
| FreeList.FreeList.AllocatePage | internal/storage/freelist.go:28-68 | the ID handed out was not live: the last entry of the head list page, that page itself when it has no entry, or a new page of zeros when the list is empty, and the list is left without it; IDs 1..TotalPages-1 stay split into live, listed and list pages, if and only if the uint32 counter does not wrap; live pages keep their bytes |
| FreeList.FreeList.FreePage | internal/storage/freelist.go:71-113 | the freed ID leaves the live set and is the next one handed out: it is appended to the head list page, or starts a new list page exactly when the head in its bytes has no room; list pages on disk keep encoding the list |
| FreeList.FreeList.FreeThenAllocate | internal/storage/freelist.go:28-113 | free followed by allocate returns the same ID, also across list-page boundaries, whenever freeing does not need a list page beyond the last page number |
| FreeList.Conservation | internal/storage/freelist.go:28-113 | in a partition every ID below TotalPages is live, an entry or a list page, and exactly one of these |
| FreeList.ListedOnce | internal/storage/freelist.go:28-68 | no ID is on the free list twice |
| FreeList.PopEntry | internal/storage/freelist.go:55-67 | taking the last entry of the head list page keeps the partition |
| FreeList.PopListPage | internal/storage/freelist.go:42-53 | handing out an empty list page keeps the partition |
| FreeList.PushEntry | internal/storage/freelist.go:79-95 | appending an entry keeps the partition |
| FreeList.PushListPage | internal/storage/freelist.go:97-113 | a new list page with one entry keeps the partition |
| WalRecord.Serialize | internal/storage/wal.go:42-65 | the buffer filled by offsets is the encoded record |
| WalRecord.ParseEncoded | internal/storage/wal.go:68-100 | a serialized record is read back, whatever follows it |
| WalRecord.ParseIff | internal/storage/wal.go:68-100 | a record is read if and only if the bytes begin with its encoding, checksum included; nothing else is ever read as a record |
| WalRecord.ParseAllIff | internal/storage/wal.go:366-384 | a log parses to a sequence of records if and only if it begins with their encodings and what comes then begins with no record |
| WalRecord.ParseCut | internal/storage/wal.go:68-100 | a record cut at any byte is never read |
| WalRecord.CutLog | internal/storage/wal.go:42-100 | a log cut at any byte parses to exactly the records complete in it |
| WalRecord.DamagedLog | internal/storage/wal.go:89-97 | a log parses to exactly its first records if and only if what follows them is damaged: cut short in header or data, or with a checksum that is not that of its bytes; nothing from behind is read |
| WalRecord.DamagedIff | internal/storage/wal.go:89-97 | a record whose data was changed is damaged if and only if the checksum of the changed data differs |
| WalRecovery.Recover | internal/storage/wal.go:366-419 | the loops over records and maps give the merge of the committed transactions since the last checkpoint, in whatever order the map is walked; so of the records with which the file begins, up to the first bytes that are no record: each page written by a transaction with a commit among them, with an image of such a transaction, and no other page |
| WalRecovery.RecoveredPages | internal/storage/wal.go:404-419 | the recovered pages are exactly those written by a committed transaction since the last checkpoint |
| WalRecovery.MergeImages | internal/storage/wal.go:404-419 | each recovered image is the last image of its page by one committed transaction |
| WalRecovery.RecoverAfterCrash | internal/storage/wal.go:366-420 | for a log cut at any byte the outcome is decided by the records complete in it: exactly the pages written since the last checkpoint by transactions whose commit is among them, each with a last image of one of these |
| WalRecovery.RecoverDamaged | internal/storage/wal.go:89-97 | for a log with damage behind any of its records, recovery takes everything from the records before and nothing from behind |
| WalRecovery.DamagedByte | internal/storage/wal.go:89-97 | a concrete file: a page write and its commit, with the one data byte changed; if the checksum of the byte differs, no page is recovered |
| WalRecovery.SingleWriter | internal/storage/wal.go:410-416 | a page written by one committed transaction gets that transaction's last image, in every order |
| WalRecovery.OrderIndependent | internal/storage/wal.go:406-416 | the image of a page is the same for every order of the transactions if and only if all committed writers of the page agree on its last image |
| LogReplay.CommittedIsRecovered | internal/table/table.go:136-154 | if one operation of a tree is all that has committed since the last checkpoint, the recovered images written over the old bytes give the bytes of the new pages, whatever uncommitted transactions have logged and whatever of the pages it wrote is on disk already |
| LogReplay.SequenceRecoveredIff | internal/table/table.go:136-154 | after any number of committed operations, recovery gives the final pages for every order in which the transactions are merged, if and only if every operation that wrote a page left it as it is in the end |
| LogReplay.SecondInsertLost | internal/storage/wal.go:404-419 | a concrete run: two different keys inserted into one leaf and committed; some merge order recovers the leaf without the second one |
| LogReplay.ApplyReplays | internal/storage/wal.go:404-419 | applying page writes to the disk is replaying the page images on the record pages |
| WalLog.Wal.constructor | internal/storage/wal.go:123-160 | after scanning, unless a record holds the maximum, each counter is 1 or one past a record that can be read, and beyond every such record |
| WalLog.Wal.BeginTx | internal/storage/wal.go:271-277 | the new transaction number is the counter, which goes up by one; it is on no record of the log |
| WalLog.Wal.LogPageWrite | internal/storage/wal.go:281-301 | the file grows by exactly the encoding of the record with the next sequence number, which goes up by one; a log of complete records is again one |
| WalLog.Wal.LogCommit | internal/storage/wal.go:306-322 | the same for the commit record |
| WalLog.Wal.LogCheckpoint | internal/storage/wal.go:342-362 | the same for the checkpoint record |
| WalLog.AppendsAreReadIff | internal/storage/wal.go:123-160 | after a crash that cut the log anywhere, whatever is appended after reopening is read back by the next recovery, if and only if the cut fell between records |
| GroupCommit.StepKeeps | internal/storage/wal.go:189-250 | every interleaved step keeps: requests in one place once, batches covered by their Sync, acknowledged commits durable |
| GroupCommit.RunKeeps | internal/storage/wal.go:189-250 | so does every run |
| GroupCommit.AckFollowsSync | internal/storage/wal.go:216-241 | in every run an acknowledgement without error comes after a successful Sync that began after the append of the commit record |
| GroupReplies.AckedIff | internal/storage/wal.go:216-241 | in every run a caller has been told success if and only if it has been answered and the Sync of its batch returned success |
| GroupReplies.ToldOutcome | internal/storage/wal.go:216-241 | from the return of a batch's Sync on, each of its callers is told the error of that Sync, or is about to be |
| GroupReplies.AllAcked | internal/storage/wal.go:192-249 | if no Sync fails, exactly the callers answered have been told success, and when the loop has nothing left to do these are all who sent a request |
| GroupReplies.SyncedIff | internal/storage/wal.go:210-240 | the first m records are durable if and only if they were at the start, or a Sync that began with them in the file has returned success |
| GroupReplies.LogIsAppends | internal/storage/wal.go:303-322 | the log is what has been appended, in that order |
| GroupReplies.AnsweredInOrder | internal/storage/wal.go:192-249 | in every run those answered, the batch in hand and the channel are together the requests in the order in which they were sent |
| GroupReplies.BatchSize | internal/storage/wal.go:192-235 | a request is synced alone after the short wait, two or more after the window; the channel holds at most 4096 |
| GroupCommit.EveryRequestAnsweredOnce | internal/storage/wal.go:192-249 | left alone the loop answers every request sent exactly once, within a bounded number of steps, for every batching and every outcome of Sync; it stops only when all are answered |
| GroupCommit.AckedSurvivesCrash | internal/storage/wal.go:303-339 | an acknowledged commit is found in the log after a crash that cuts it anywhere beyond what was synced |
| GroupCommit.AckedPagesRecovered | internal/storage/wal.go:303-420 | and recovery brings back every page its transaction wrote since the last checkpoint: with the last image of a committed transaction, and with the transaction's own last image if no other committed transaction wrote the page |
| Table.PartitionForKey | internal/table/table.go:179-186 | a key is routed to an existing partition |
| Table.PartitionIs | internal/table/table.go:179-186 | to partition i if and only if the key's hash is i more than a multiple of the number of partitions |
| Table.Table.constructor | internal/table/table.go:48-104 | a new directory gives the empty map over 8 partitions unless told otherwise; a table written as a single file stays one partition with that file's map |
| Table.Table.Open | internal/table/table.go:85-104 | a directory of partition files is opened as it is: trees whose maps are routed from one map give a valid table of that map |
| Table.Table.GetItem | internal/table/table.go:189-206 | returns what the table's one map holds for the key |
| Table.Table.PutItem | internal/table/table.go:210-222 | returns what Insert decides on the key's partition: nil, and then old[key := value], whenever the key's leaf there has room; on nil the table's map is old[key := value] unless that partition's split repeats a separator, and the new value is found if and only if the promoted key lands there; on LeafFull the table is valid and its map is the old one with that partition's part replaced by what Insert leaves of it, on NodeFull that partition finds what Insert promises; other partitions keep their maps; with small cells it always succeeds, and they stay small |
| Table.Table.DeleteItem | internal/table/table.go:225-232 | KeyNotFound exactly for absent keys; else the map loses the key, unless the partition's leaf runs empty and is not the first of several: then that partition is no search tree; other partitions keep their maps; small cells stay small |
| Table.ScansAreStreams | internal/table/table.go:297-309 | hash routing makes the partition scans disjoint sorted streams that together hold the table |
| MergedScan.Merge.Pop | internal/table/table.go:322-323 | the item popped from the heap is the next pair of the sorted listing of the union |
| MergedScan.Merge.Refill | internal/table/table.go:327-330 | after the refill the heap again holds each partition's next pair, and of each partition the pairs handed over and that one have been received |
| MergedScan.Merge.Stop | internal/table/table.go:324-326 | stopping before the refill leaves unread, of each partition, its pairs beyond the last key but for the one on the heap |
| MergedScan.LeastIsNext | internal/table/table.go:322-323 | the least head over all partitions is the next pair of the sorted listing |
| MergedScan.ScanMerged | internal/table/table.go:291-333 | hands over every pair of the union exactly once, in strictly increasing key order, up to the first refusal; each partition is left with exactly its pairs beyond that key that were not received |
| MergedScan.ScanMergedChunk | internal/table/table.go:336-356 | hands over the first chunkSize pairs beyond the key and reports done exactly when refused or short; a full or refused chunk leaves each partition with its unreceived pairs |
| Producers.ReleasedIff | internal/table/table.go:297-309 | once the merge has stopped reading, a partition's goroutine gives up its tree's read lock if and only if at most 64 of its pairs are unread: otherwise it holds the lock in every state of every run; if it ends, it does so within as many steps as it has pairs to send and one |
| Producers.MergeIsServed | internal/table/table.go:311-331 | while the merge waits for a pair or the end of a partition, that partition's goroutine can take a step: the merge itself never deadlocks |
| Table.LeftLockedIff | internal/table/table.go:297-326 | the partitions reported as locked are those whose goroutine, left alone, never gives up the lock |
| Table.FirstKeyLocks | internal/table/table.go:322-326 | an input: stopping after the first key of a partition leaves it locked if and only if it has more than 65 keys |
| Table.Table.Scan | internal/table/table.go:235-255 | the sorted listing of the table's map, up to the first refusal; with several partitions an early stop leaves exactly those locked that have more than 64 unread pairs |
| Table.Table.Count | internal/table/table.go:380-393 | the size of the table's map |
| TreeLock.NeverServedIff | internal/table/table.go:272-309 | the lock of a partition between two chunks, with the goroutines that earlier chunks have left behind, a writer, and the next chunk's goroutine behind it: the next merge's first receive completes in no run if and only if the writer waits behind a goroutine with more than 64 pairs to send; otherwise it completes in every run that goes on as long as it can, and every run is of bounded length |
| TreeLock.WaitsForever | internal/storage/btree.go:107-109 | behind such a goroutine the writer still waits, and the next reader behind it, after any number of steps |
| ChunkedScan.StuckOnIff | internal/table/table.go:258-288 | after a full chunk the scan is stuck on a partition if and only if a writer is after it and one of the full chunks so far has left it locked; on any other partition every run serves the next chunk |
| ChunkedScan.StuckIff | internal/table/table.go:258-288 | so it is stuck if and only if the partitions that writers are after and those left locked meet |
| ChunkedScan.ScanChunked | internal/table/table.go:258-288 | with writers between chunks: the full chunks are computed from the tables and the callback alone, and the scan never returns if and only if it is stuck after one of them; it has then handed over the chunks up to the first such one. If it returns, it has handed over all full chunks and the last, strictly increasing, every key present throughout exactly once, and has left locked exactly the partitions in held; on an unchanged table it gives what Scan gives, for every chunk size |
| HangingScan.FirstPutHangs | internal/table/table.go:258-288 | with more than 65 pairs in one of two partitions, chunks of one pair and a writer after that partition behind the first chunk, the scan never returns |
| HangingScan.OnePutHangs | internal/table/table.go:258-288 | a concrete run: tables of 66 keys, one PutItem, and the scan that never returns |
| Ring.Ring.AddNode | internal/cluster/ring.go:37-59 | the ring again holds each virtual node of each node once, sorted by hash; nothing changes for a node already there |
| Ring.Ring.RemoveNode | internal/cluster/ring.go:62-79 | exactly the node's virtual nodes are gone |
| Ring.Ring.Search | internal/cluster/ring.go:90-93 | finds the first virtual node at or after the hash, or the end when all are before it |
| Ring.Ring.GetNode | internal/cluster/ring.go:82-98 | the node of the first virtual node at or after the hash of the key, of the first of all when there is none; "" on an empty ring |
| Ring.Ring.GetNodes | internal/cluster/ring.go:102-130 | the first min(n, size) entries of the preference list: different nodes of the ring |
| HashRing.PreferenceNames | internal/cluster/ring.go:118-129 | a full preference list names every node of the ring exactly once |
| HashRing.NearestFirst | internal/cluster/ring.go:102-130 | a preference list goes by clockwise distance: each node on it has a virtual node at least as near to the key, going round, as any of a node further down |
| HashRing.RemovalIsStable | internal/cluster/ring.go:62-79 | removing a node deletes it from every key's preference list and changes nothing else |
| HashRing.JoinIsStable | internal/cluster/ring.go:37-59 | without collisions between nodes, deleting the new node from a new preference list gives the old one, for every key and every sort |
| HashRing.JoinStableIff | internal/cluster/ring.go:56-58 | joins are stable for every key and every unstable sort if and only if no two nodes of the ring share a hash |
| HashRing.CollisionsReorder | internal/cluster/ring.go:56-58 | a collision between two nodes lets the join of a third reorder them |
| HashRing.CoordinatorMoves | internal/cluster/ring.go:82-98 | after a join a key's coordinator is the old one or the new node |
| HashRing.SameMembersSamePreference | internal/cluster/ring.go:47-58 | without collisions preference lists do not depend on how equal hashes were sorted |
| Ring.RingsAgree | internal/cluster/ring.go:37-79 | two rings with the same members give every key the same preference list, whatever joins and departures led there |
| Membership.Membership.constructor | internal/cluster/membership.go:63-87 | this node is known, alive and on the ring |
| Membership.Membership.AddNode | internal/cluster/membership.go:107-126 | the join step of the state machine, with the ring; the node is known, alive and heard of now |
| Membership.Membership.RemoveNode | internal/cluster/membership.go:130-146 | the leave step; this node is refused |
| Membership.Membership.HandleHeartbeat | internal/cluster/membership.go:149-184 | the heartbeat step, with seed replacement and recovery; the sender is known, alive, at its address and heard of now |
| Membership.Membership.DetectFailures | internal/cluster/membership.go:307-335 | in whatever order the map is walked: an alive member stays so if and only if it was silent for at most the timeout, a suspect one dies if and only if it was silent for more than twice the timeout, those that die now leave the ring, and nothing else changes but this node's own time |
| MembershipSpec.KnownStep | internal/cluster/membership.go:107-184 | which nodes are known after a step, with which address and time: a node heard of gets both from the message, a forgotten one goes, the others keep theirs |
| MembershipSpec.StatusStep | internal/cluster/membership.go:307-335 | a member not heard of turns suspect if and only if it was alive and a detection finds it silent beyond the timeout, and dead if and only if it was suspect and one finds it silent beyond twice the timeout |
| MembershipSpec.RingStep | internal/cluster/membership.go:107-335 | which nodes are on the ring after each kind of step |
| MembershipSpec.StatusIff | internal/cluster/membership.go:307-335 | in every run a member heard of at some time is alive, suspect or dead later on exactly according to the detections since: no longer alive if and only if one found it silent beyond the timeout, dead if and only if a later one then found it silent beyond twice the timeout |
| MembershipSpec.SilentIsRemoved | internal/cluster/membership.go:307-335 | after two detections beyond twice the timeout, with nothing heard in between, a member is dead and off the ring |
| MembershipSpec.HeardStays | internal/cluster/membership.go:307-335 | a member that no detection finds silent beyond the timeout stays alive and on the ring |
| MembershipSpec.ExactIff | internal/cluster/membership.go:107-184 | from a ring of exactly the members that are not dead, a step leads to such a ring except precisely when it revives a dead member without putting it back |
| MembershipSpec.RunKeeps | internal/cluster/membership.go:63-335 | in every run ring nodes are known and not dead, and this node is alive (its ID not of seed form) |
| MembershipSpec.RunExact | internal/cluster/membership.go:107-184 | in a run that strands no dead member the ring is always exactly the members that are not dead |
| MembershipSpec.SelfAliveIff | internal/cluster/membership.go:149-170 | this node stays known and alive except precisely when an unknown node reports from the address whose seed ID is its own |
| MembershipSpec.DeadWasSuspected | internal/cluster/membership.go:319-333 | a dead member was alive, then suspected after silence beyond the timeout, then dead after silence beyond twice the timeout, with nothing heard of it in between |
| Quorum.NewQuorumConfig | internal/consistency/quorum.go:13-29 | valid exactly for 1 <= R, W <= N; strong means R and W overlap |
| Quorum.QuorumWrite | internal/cluster/coordinator.go:316-326 | succeeds, for every order of arrival, exactly when at least W replicas acknowledge |
| Quorum.QuorumRead | internal/cluster/coordinator.go:275-291 | returns the document of the R-th success to arrive, whatever comes after it; with fewer answers still the last one, unless nil |
| Quorum.ReadAtQuorum | internal/cluster/coordinator.go:275-287 | the read ends with the reply that completes the quorum and returns its document |
| Quorum.MeetIff | internal/consistency/quorum.go:26-29 | every R and every W of the replicas have one in common if and only if R + W exceeds their number |
| Quorum.StrongReadMeetsWrite | internal/cluster/coordinator.go:275-326 | under a strong configuration R responders include a replica that acknowledged the write |
| Quorum.ReadBelowQuorumIff | internal/cluster/coordinator.go:288-291 | with fewer than R responders a read returns a document if and only if some replica answers with one and every reply after it is a failure |
| Quorum.ReadMissesWrite | internal/cluster/coordinator.go:288-291 | so a strong configuration can return a document without hearing from any replica of an acknowledged write |
| VectorClock.VectorClock.Compare | internal/consistency/vectorclock.go:52-88 | -1, 1 or 0 exactly as the strict pointwise order says, whatever order the maps are walked in |
| VectorClock.VectorClock.Increment | internal/consistency/vectorclock.go:25-30 | the clock moves strictly forward unless the uint64 count wraps, and then strictly back |
| VectorClock.VectorClock.Merge | internal/consistency/vectorclock.go:33-44 | the greater count of each node, whatever order the map is walked in |
| VectorClock.MergedIsLeast | internal/consistency/vectorclock.go:33-44 | merging is the least upper bound |
| VectorClock.MergeLaws | internal/consistency/vectorclock.go:33-44 | merging is commutative, associative and idempotent |
| VectorClock.LessIsOrder | internal/consistency/vectorclock.go:46-88 | the order is asymmetric, transitive and antisymmetric |
| VectorClock.ResolveConcurrent | internal/consistency/vectorclock.go:124-138 | the survivor is one of the two and not strictly before the other |

## Left out

- BTree.BPlusTree.Insert: which keys other than the inserted one are still found after a repeated separator is said of a single parent (SplitRouting), not of the whole path; after a NodeFull that follows a repeated separator further down nothing is promised; nor is anything about the log after either error.
- BTree.BPlusTree.Delete: collapsing and unlinking are modelled as the code does them; no repair of the leaf chain is modelled because the code has none.
- ChunkedScan.ScanChunked: a chunk sees one state of each partition, since Scan holds the tree's lock; a writer that arrives in the middle of a chunk counts as coming before or after it. That a waiting writer is in the way of later readers is sync.RWMutex's own rule, taken over in TreeLock; of several writers waiting for one partition only the first is a state of its own.
- BTree.BPlusTree.constructor: the bytes on disk are not part of the tree; that a new root stays zeroed there until its first setter is said of the cache (CacheSpec.DropTransparent).
- LruShard.Shard.FetchPage: the page bytes, the dirty flag and the pin count of an entry are kept in a map of the shard beside the linked entries, which hold the ID and the links; a caller's pointer into a cached page is therefore a setter call.
- Ring.Ring.AddNode: sort.Slice is any sorted permutation; the "node#i" strings are hashed by a parameter of node and index.
- MergedScan.Merge.Pop: container/heap is the promise that Pop returns a least item; the heap's array layout is not modelled.
- WalRecovery.Recover: the log is a byte sequence read from its start; file positions after a checksum error in the middle of a file are not modelled.
- LogReplay.SequenceRecoveredIff: dirty pages that the flush loop has written for an operation that did not commit are not covered; recovery does not undo them.
- BTree over LruShard and FreeList: the tree works on a map of record pages and takes any unused page ID; that bytes, cache and free list provide such a map is proved module by module, not by running the tree on top of their classes.
- Root page ID and file header: kept in the header page, not in the log; header serialization is a single round trip.
- Write errors, short reads and failing fsync inside tree, pager and pool: the disk is a map. Only Sync in GroupCommit can fail.
- Shutdown of group commit (drainPending, commitStop): GroupCommit covers the running loop.
- Locks inside one operation: each method is atomic. Only chunked scans, the goroutines of a merged scan and group commit are interleaved.
- Durations: `2 * failureTimeout` is an unbounded integer.
- Parent IDs and overflow pages: fields and helpers the tree does not use.
- JSON documents: values are bytes; a document that does not parse is skipped by the callback, which the accept parameter covers.
- GetCachedPageData, MarkDirty from outside, flush timers: easy members.
- Hint replay, replication queues, anti-entropy and Merkle trees, catalog, configuration, HTTP interface, metrics, web UI and command line: plumbing.
- Linearizability of quorum reads: the last arrival wins and there are no versions, so only overlap is claimed.
