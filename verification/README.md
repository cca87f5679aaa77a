# PMAlloc in Dafny

PMAlloc is an allocator for persistent memory.  It joins extents in the manner of
jemalloc with slabs that can change their size class while old blocks live on in
them, a heap journal that is a log, and bitmaps spread over banks.  This project
models the parts of it in which something hard has to hold at every moment, and
proves that it does.

Run `dafny verify dfyconfig.toml` to check everything.

## Modules

| module | what it models |
|---|---|
| `LlrbShape`, `RedBlackTree` | the left-leaning red-black tree of `rb.h`: trees as values, and the pointer code with its path array over them |
| `PairingHeap` | the pairing heap of `ph.h`, its waiting list and the multipass merge of siblings |
| `Powers`, `PageClasses`, `ExtentPool` | powers of two; page size classes; a list of free extents with its heaps, occupancy bits, recency list and page count |
| `ExtentSpace`, `ArenaExtents` | the extents of an arena, their pages and their boundary tags: allocation, recycling, splitting, merging, freeing, decay to muzzy |
| `ExtentLocks` | the lookup of a neighbour by read, lock and re-read as a state machine, against merges and splits that run with the list mutex dropped |
| `LeafBits`, `LeafCaches`, `RadixTree` | the radix tree: leaf words, the two lookup caches, the tree with its caches as a map from pages |
| `SlabLayout`, `SlabBlocks`, `ThreadCache`, `MixedSlab` | slab layouts, the blocks of a slab in all their states, thread caches, and the operations on them up to morphing |
| `Interleave` | the spreading of ids over banks, for any number of banks |
| `LogStore`, `CrashLog`, `Journal` | the journal: what replay means, what a crash can leave, and the log with its copying collection |
| `FastGc` | the collection that unlinks empty chunks |
| `NumaLog` | the two files in which a thread records frees that belong to another node |
| `Smoothstep`, `Decay` | the decay curve and its table |

Addresses and page numbers are mathematical integers.  Code that updates fields is
a class; what its methods promise is stated over value types beside it, and the
laws are lemmas about those.  A precondition `Valid()` is an invariant that the
constructor establishes and every method keeps, so what it implies holds over all
runs.  Persistent memory is a set of possible values for each word: a store adds
one, a persist of its lines leaves the one that memory has.  The log records every
store and persist it makes, and its history is what a crash could have left at each
point.  Recovery is an empty stub in the repository, so replay is a function of the
record layout.

Where the code and what one would expect of it differ, the model follows the code:

- The re-read of `extent_rtree_leaf_elm_try_lock` compares addresses only. When a
  page reads a slab descriptor at both reads, the lookup returns the descriptor,
  even when only inactive extents are wanted; `ExtentLocks.LookupMistaken` is such
  a run and `ExtentLocks.LookupExact` says exactly when it cannot happen.
- `psizeclass_lookup` stays zero past the largest class of 98304 pages, although
  it has entries up to 196608; `PageClasses.RoundUpCovers` gives the exact bound.
- `arena_activate_new_memory` cuts a request from a chunk of 512 pages whatever its
  length; `ArenaExtents.CutInside` gives the exact bound.
- `fast_GC` does not mend the links back of the chunks that stay, and relies on
  addresses that rise along the chain. `slow_GC` gives chunks back in falling order
  and `vlchunk_alloc` takes them first, so the chain after it falls:
  `FastGc.ReusedChain` is one where the pass leaves a freed chunk in the chain, and
  `FastGc.SweepRight` and `FastGc.LinksBackStale` give the exact conditions.
- A free from another node does not ask whether the block belongs to the class
  before morphing; `SlabBlocks.RemoteExact` says that the flush then leaves the slab
  in order exactly when it does not.
- The slab bit of a leaf does not tell slabs from extents: a freed slab keeps it, and
  `ExtentLocks.LookupOfFreedSlab` is a run to an extent through a page that has it.
- The bitmap of a morphed slab may lack the bit for the block past the last;
  `SlabLayout.RoomNeeded` says when that matters and `SlabLayout.ClassesRoomy`
  that it never does for the size classes there are.
- `ph_merge_siblings` leaves the prev link of a lone sibling as it was;
  `PairingHeap.MergeSiblings` says so, and the heap's validity leaves the root's
  prev link free.
- After a collection the ids of chunks start again at zero, those of a new log at
  one.

## Model

| member | source | states |
|---|---|---|
| `RedBlackTree.RbTree.Remove` | include/pmalloc/internal/rb.h:517-854 | From any valid tree that holds the node, the tree after it is valid again (search order, black root, leaning left, no red-red, equal black heights) and its in-order nodes are the old ones without exactly that node. |
| `RedBlackTree.RbTree.Insert` | include/pmalloc/internal/rb.h:449-516 | A node with a fresh key is added, and nothing else changes in the in-order sequence; the tree stays valid; the 128-entry path array is never left. |
| `RedBlackTree.RbTree.UnwindInsert` | include/pmalloc/internal/rb.h:470-516 | Unwinding with rotations from a red leaf at the end of the path restores every invariant of the tree and leaves the order of the nodes. |
| `RedBlackTree.RbTree.WindToNode` | include/pmalloc/internal/rb.h:523-547 | The wind loop of a removal reaches the node, with the path it recorded being the way there. |
| `RedBlackTree.RbTree.WindToSuccessor` | include/pmalloc/internal/rb.h:534-545 | Going right and then left as far as possible ends below the node that follows in key order, still inside the path array. |
| `RedBlackTree.RbTree.SwapWithSuccessor` | include/pmalloc/internal/rb.h:550-578 | The exchange of places and colours leaves the nodes of the path linked as the exchanged shape says, the path entry of the removed node included. |
| `RedBlackTree.RbTree.PruneLeaf` | include/pmalloc/internal/rb.h:605-853 | Pruning a leaf at the end of the path and unwinding leaves a valid tree whose nodes are those before and those after the path's end. |
| `RedBlackTree.RbTree.UnwindRemove` | include/pmalloc/internal/rb.h:612-853 | Unwinding from a hole that is one black level short ends in a valid tree, whichever of the ten rotation cases each turn takes. |
| `RedBlackTree.FixRemove` | include/pmalloc/internal/rb.h:616-848 | One turn of the unwind loop of a removal, done by pointer rotations, is the pure step RemoveStep on the shape, with its verdict to ascend or to stop. |
| `RedBlackTree.FixInsert` | include/pmalloc/internal/rb.h:472-511 | One turn of the unwind loop of an insertion, done by pointer rotations, is the pure step InsertStep on the shape. |
| `LlrbShape.RemoveStepKeepsShape` | include/pmalloc/internal/rb.h:616-848 | A removal step on a subtree that is one black level short either makes it balanced and left-leaning again at its old height, or hands exactly one level of shortage upwards; the order of the nodes is kept. |
| `LlrbShape.InsertStepKeepsShape` | include/pmalloc/internal/rb.h:472-511 | An insertion step keeps the height, keeps everything left-leaning except at most a red node with a red left child at the top, and keeps the order. |
| `LlrbShape.SwapKeepsShape` | include/pmalloc/internal/rb.h:550-578 | Exchanging a node with its successor leaf, colours staying in place, keeps the whole tree's balance and leaning. |
| `LlrbShape.BlackHeightBoundsSize` | include/pmalloc/internal/rb.h:451-454 | A valid tree of black height h has at least 2^h - 1 nodes. |
| `LlrbShape.PathFits` | include/pmalloc/internal/rb.h:451-468 | No path in a valid tree of fewer than 2^63 nodes, the nil below it included, needs more than 127 of the 128 path entries. |
| `RedBlackTree.RotateLeft` | include/pmalloc/internal/rb.h:140-145 | The left rotation relinks exactly two nodes and keeps their colours. |
| `RedBlackTree.RotateRight` | include/pmalloc/internal/rb.h:147-152 | The right rotation relinks exactly two nodes and keeps their colours. |
| `RedBlackTree.RbTree.Search` | include/pmalloc/internal/rb.h:387-404 | Finds the node with the key, or none exactly when no node has it. |
| `RedBlackTree.RbTree.NSearch` | include/pmalloc/internal/rb.h:405-426 | Finds the least node at or above the key, or none exactly when all are below it. |
| `RedBlackTree.RbTree.PSearch` | include/pmalloc/internal/rb.h:427-448 | Finds the greatest node at or below the key, or none exactly when all are above it. |
| `RedBlackTree.RbTree.Next` | include/pmalloc/internal/rb.h:331-362 | Gives the next node in key order, found again from the root, or null after the last. |
| `RedBlackTree.RbTree.First` | include/pmalloc/internal/rb.h:313-321 | Gives the least node of a subtree. |
| `PairingHeap.PairHeap.Insert` | include/pmalloc/internal/ph.h:239-265 | The node joins the members, in front of the waiting list or as the root; every prev, next and lchild link stays consistent and the heap order holds below every root and waiting node. |
| `PairingHeap.PairHeap.First` | include/pmalloc/internal/ph.h:220-227 | Gives a member with the least key, null exactly for the empty heap, and loses no member while it merges the waiting list. |
| `PairingHeap.PairHeap.RemoveFirst` | include/pmalloc/internal/ph.h:266-281 | Takes out a member with the least key and only that one. |
| `PairingHeap.PairHeap.RemoveAny` | include/pmalloc/internal/ph.h:282-308 | Takes out the newest waiting node, or the root when none waits, and only that one. |
| `PairingHeap.PairHeap.Remove` | include/pmalloc/internal/ph.h:309-389 | Takes out any given member, wherever it stands, and only that one; its children take its place without breaking links or order. |
| `PairingHeap.MergeSiblings` | include/pmalloc/internal/ph.h:83-168 | The FIFO passes over a sibling list end, and leave one node above exactly the nodes that were in the list; a list of one keeps its stale prev link, as the code does. |
| `PairingHeap.PairHeap.MergeAux` | include/pmalloc/internal/ph.h:170-181 | The waiting list is merged into the root without losing or gaining a member. |
| `PairingHeap.Merge` | include/pmalloc/internal/ph.h:51-81 | Two heaps become one with the smaller root on top, the larger as its first child. |
| `PairingHeap.PairHeap.IsEmpty` | include/pmalloc/internal/ph.h:216-219 | True exactly when nothing is in the heap. |
| `PageClasses.BootLookup` | src/sizeclass.c:67-75 | Filling the lookup table gives at every index the ceiling class, and zero past the largest class. |
| `PageClasses.RoundUpCovers` | src/pmalloc.c:228-229 | Rounding a request to its class covers it if and only if the request does not pass the largest class of 98304 pages; then it is the least class that does. |
| `PageClasses.FloorClass` | src/extent.c:27-32 | A free extent has a class to be filed under if and only if it is no longer than the largest class of 98304 pages; the class is then the largest that is not above its size. |
| `PageClasses.FiledExtentFits` | src/extent.c:246-278 | Every extent filed at or above the ceiling class of a request is large enough for it, if and only if the request does not pass the largest class. |
| `PageClasses.ClassesIncrease` | include/pmalloc/internal/sizeclass.h:70-147 | The page classes grow strictly. |
| `PageClasses.ClassesDouble` | include/pmalloc/internal/sizeclass.h:70-147 | The first eight classes have 1 to 8 pages and each later one twice the pages of the fourth before it, which fixes every class. |
| `ExtentPool.Extents.Insert` | src/extent.c:665-691 | The extent is appended to the list, its pages are counted, and heaps, occupancy bits, list and page count agree again. |
| `ExtentPool.Extents.Remove` | src/extent.c:294-319 | The extent leaves the list and its heap, its bit is cleared when the heap is empty, its pages are uncounted, and all four agree again. |
| `ExtentPool.Extents.BestFit` | src/extent.c:246-278 | Gives the best fit: large enough, of the lowest non-empty adequate class and in it the lowest address, within the 32-fold cap for the dirty list; null if and only if there is none or the first exceeds the cap. |
| `ArenaExtents.Arena.constructor` | src/arena.c:407-447 | A new arena, one chunk mapped, starts with all books in order. |
| `ArenaExtents.Arena.Free` | src/arena.c:503-519 | The freed extent joins the end of the dirty list with every neighbour it could take in: only such as faced it with a clear slab bit, and none of those is left beside it. The list's pages grow by exactly its pages, its other extents keep their order, both ends of a merged extent name it with a clear bit, and a slab that merged with nothing keeps its bit. |
| `ArenaExtents.Arena.Record` | src/extent.c:1163-1203 | The loop ends; the recorded extent has taken in listed neighbours only, for the dirty list only across clear slab bits, until no such neighbour faces it; page count, order of the list and leaves are as said of Free. |
| `ArenaExtents.Arena.TryCoalesce` | src/extent.c:1093-1153 | The loop ends because each merge takes an extent out of the list; merges cross a set slab bit only when that is allowed, write only pages of the merged extent, keep the order of the list and the sum of its pages with the extent's; without a merge nothing mergeable faces the extent. |
| `ArenaExtents.Arena.Coalesce` | src/extent.c:1072-1091 | The outer extent leaves its list, which loses exactly its pages, and the two become one, whichever lies in front, with the leaves of a merge. |
| `ArenaExtents.Arena.Merge` | src/extent.c:1029-1070 | Two adjacent extents become one, with boundary tags at its two ends and NULL between them, one-page extents included; the second is no extent any more. |
| `ArenaExtents.Arena.Neighbour` | src/extent.c:990-1008 | The lookup run alone finds an extent that owns the page and ends or begins there; when it finds none nothing mergeable faces the page. |
| `ArenaExtents.Arena.EvictDirty` | src/extent.c:373-471 | The loop ends; it gives none if and only if the list has at most the limit of pages, and then nothing has changed. Otherwise it gives the oldest of the dirty extents that still had nothing left to join, or the last one into which the others before it were merged; the list loses exactly its pages, and extents of it otherwise only merge. |
| `ArenaExtents.Arena.Stash` | src/arena.c:521-535 | Dirty extents leave the list oldest first, the list losing exactly the pages counted, until enough have gone or few enough are left: with the last of them that holds, and without it neither held. |
| `ArenaExtents.Arena.DecayDirty` | src/arena.c:521-601 | The pages counted are exactly those the dirty list loses and the muzzy list gains; the extents that go are the oldest, as many as are asked for and none more than it takes to come down to the limit; no extent in use or of another arena changes. |
| `ArenaExtents.Arena.Split` | src/extent.c:518-590 | An extent is cut in two that partition its pages; each part reads as it should at its ends and NULL inside, one-page parts included. |
| `ArenaExtents.Arena.Exact` | src/extent.c:592-663 | With nothing left over the first leaf, and for a slab the last, are written, and nothing inside. |
| `ArenaExtents.Arena.Carve` | src/extent.c:712-744 | An extent taken from a list is cut to the size asked for, or used whole; a slab's descriptor is then at every page of it; what is left over goes to the end of the list. |
| `ArenaExtents.Arena.Extract` | src/extent.c:716-740 | The extent that leaves the list is the best fit for the request, within the cap for dirty extents; it fails only when there is no fit, and then nothing changes. |
| `ArenaExtents.Arena.Recycle` | src/extent.c:777-808 | Allocation from a free list is cut from its best fit: of the extents large enough by class the lowest class and in it the lowest address, and for dirty ones within 32 times the request. The rest goes back to the end of the list, which loses exactly the pages asked for. It fails only when there is no fit, and failure changes nothing. |
| `ArenaExtents.Arena.Slabify` | src/extent.c:763-775 | Registering a slab's interior makes every page of the extent map to its descriptor. |
| `ArenaExtents.Arena.InteriorDeregister` | src/extent.c:938-952 | A freed slab reads NULL inside, and at both ends the extent with its slab bit still set. |
| `ArenaExtents.Arena.Register` | src/extent.c:827-871 | Pages of no extent become an extent with its leaves written. |
| `ArenaExtents.Arena.AllocFresh` | src/arena.c:304-324 | Fresh pages are the front of the region when it has enough. Otherwise they are the front of the new chunk, and what was left of the region becomes one dirty extent when it is exactly a class and is given up when not. |
| `ArenaExtents.Arena.EvictNew` | src/arena.c:131-150 | A remainder that is exactly a class becomes a dirty extent at the end of the list, unmerged; any other is given up. |
| `ArenaExtents.Arena.GetNew` | src/arena.c:274-288 | A newly mapped chunk becomes the fresh region. |
| `ArenaExtents.Arena.Alloc` | src/arena.c:449-473 | The best fit of the dirty list, else the best fit of the muzzy list, else fresh pages: the result is cut from exactly that extent, has the size and kind asked for and was not in use, and every extent in use stays as it was. |
| `ArenaExtents.CutInside` | src/arena.c:304-324 | The pages cut off lie in the region or the new chunk if and only if the request is no longer than one of them; a longer one runs past the chunk. |
| `ArenaExtents.Arena.Conservation` | src/extent.c:665-691 | At every moment the pages mapped for the arena are those in use, the two lists' page counts, the fresh region and those given up, none counted twice. |
| `ArenaExtents.Arena.FreeCount` | src/extent.c:680-690 | The two lists' page counts add up to the number of the arena's free pages. |
| `ArenaExtents.Arena.Observe` | src/extent.c:1010-1027 | After an operation of another arena over the same page map this arena is as valid as before, its pages and lists untouched. |
| `ExtentSpace.PagesAddUp` | src/arena.c:131-150 | Counting pages as sets: in use, free, fresh and given up partition the mapped ones. |
| `ExtentSpace.WorldStep` | src/extent.c:1010-1027 | With any number of arenas over one page map, an operation of one of them keeps the invariant of all. |
| `ExtentSpace.OtherKeeps` | src/extent.c:1010-1027 | What one arena's operation may change in the shared page map leaves another arena's extents, free lists, boundary tags and accounting right. |
| `ExtentSpace.SplitOk` | src/extent.c:518-590 | Splitting keeps extents disjoint, the pages accounted for and the boundary tags right. |
| `ExtentSpace.MergeOk` | src/extent.c:1029-1070 | Merging keeps extents disjoint, the pages accounted for and the boundary tags right. |
| `ExtentSpace.SlabLeafOwner` | include/pmalloc/internal/rtree.h:452-458 | A page whose leaf is a slab descriptor belongs to that slab's extent. |
| `ExtentSpace.FreeReadsRight` | src/pmalloc.c:245-259 | What a free reads at a live extent: its descriptor at every page of a slab, and otherwise at the first page the extent with its slab bit clear. |
| `ExtentSpace.StaysSettled` | src/extent.c:693-702 | Filing a coalesced extent leaves it with nothing to merge beside it. |
| `ExtentSpace.DecayFrees` | src/arena.c:537-573 | Decay moves no page between use and freedom. |
| `ExtentSpace.SumCountsPages` | src/extent.c:680-690 | The page count of a list of distinct extents is the number of pages they own. |
| `ExtentLocks.LookupSafe` | src/extent.c:961-1008 | Over every interleaving of lookups, merges, splits, frees and allocations: while a thread has the result of a lookup it has that extent's pool mutex and the extent is in use and owns the page, provided an extent bore the address when the page was read again; a neighbour chosen for merging is free, owns the page and cannot be taken. |
| `ExtentLocks.LookupTraced` | src/extent.c:961-1008 | Over every run: a thread that waits for a mutex or has come back has, since its search began, read that address at the page and, if it wants no slabs, afterwards a clear slab bit there; what it comes back with it has read again under the mutex, and after a miss something else. A search ends only at an empty page, at a set bit when it wants no slabs, at an extent that is not free in its list, or with the extent it claims. |
| `ExtentLocks.SetBitStops` | src/extent.c:962-972 | A lookup for inactive extents at a page whose slab bit is set in every state since its search began never waits for a mutex and comes back with nothing. |
| `ExtentLocks.LookupAlone` | src/extent.c:990-1027 | From every reachable state a lookup that nobody interferes with claims exactly the extent it seeks: the free one of its list that begins or ends at the page, its bit clear there if no slabs are wanted; with none it changes nothing. |
| `ExtentLocks.MergeAlone` | src/extent.c:1029-1070 | From every reachable state a merge that nobody interferes with ends with one extent over both ranges, its address with a clear bit at both ends, nothing between, the other descriptor gone, the mutexes free and nothing else changed. |
| `ExtentLocks.SplitAlone` | src/extent.c:518-590 | Likewise a split: two extents that partition the pages, each with its word at its ends, nothing between, and nothing else changed. |
| `ExtentLocks.MtxPasses` | src/extent.c:1072-1091 | A free-list mutex that is dropped goes to a thread that waits for it and could not have it before. |
| `ExtentLocks.LookupExact` | src/extent.c:975-988 | Reading the page again under the mutex gives an extent if and only if the page does not read a slab descriptor at that moment; a clear slab bit is enough. |
| `ExtentLocks.LookupMistaken` | src/extent.c:961-988 | A run from the start in which a lookup of inactive extents returns a slab descriptor: between its two reads the page goes from slab to plain extent to slab at the same descriptor address. |
| `ExtentLocks.LookupOfFreedSlab` | src/extent.c:938-988 | The slab bit may be set where no slab is: a run from the start in which a page of a freed slab keeps its bit and a lookup comes back with the plain free extent there. |
| `ExtentLocks.NoDeadlock` | include/pmalloc/internal/mutex_pool.h:33-79 | No run, under any hash, reaches a circle of threads each waiting for a mutex the next one has. |
| `ExtentLocks.BlockedRises` | include/pmalloc/internal/mutex_pool.h:48-63 | Along waiting threads the mutexes waited for rise in one fixed order: free-list mutex first, then pool mutexes by address. |
| `ExtentLocks.StepKeeps` | src/extent.c:961-1091 | Every step of every thread keeps the invariant that ties page map, extents, mutexes and half-done merges and splits together. |
| `ExtentLocks.RunKeeps` | src/extent.c:961-1091 | So does every run. |
| `ExtentLocks.BootOk` | src/extent.c:69-83 | It holds at the start. |
| `ExtentLocks.Reread` | src/extent.c:975-981 | A thread that reads the same address again under its mutex finds an extent that owns the page, because a merge or split halfway through that page would have the mutex. |
| `ExtentLocks.MergeFreeKeeps` | src/extent.c:1066-1067 | Freeing the descriptor that was merged away, with the list mutex dropped, leaves nothing that still refers to it. |
| `LeafCaches.CachesChangeNothing` | include/pmalloc/internal/rtree.h:337-403 | For every history of lookups and of leaf creations by any thread, the answers through both caches are those of the uncached walk. |
| `LeafCaches.LookedIsWalk` | include/pmalloc/internal/rtree.h:337-403 | One lookup gives what the two-level walk gives; afterwards every valid entry names its true leaf, each L1 entry is in its own slot and no leaf key is twice in the caches. |
| `LeafCaches.PromotedOk` | include/pmalloc/internal/rtree.h:363-394 | Swapping an L2 hit into L1 and bubbling up keeps the caches right. |
| `LeafCaches.ReplacedOk` | src/rtree.c:323-340 | The replacement after a miss keeps the caches right. |
| `LeafCaches.Remembers` | include/pmalloc/internal/rtree.h:338-402 | What one lookup has found the next lookup under the same leaf finds in the first cache, and moves nothing. |
| `LeafCaches.PromotedKeeps` | include/pmalloc/internal/rtree.h:371-402 | A hit in the list loses no entry, and the slot's entry goes back one place nearer the front than the one that was hit. |
| `LeafCaches.ReplacedKeeps` | src/rtree.c:311-340 | A replacement loses the last entry of the list and no other. |
| `LeafCaches.MissIsAbsent` | src/rtree.c:275-286 | When both searches have missed, no entry of either cache has the key, which the hard lookup asserts. |
| `LeafCaches.HitIsWalk` | include/pmalloc/internal/rtree.h:348-356 | A hit in either cache is the leaf at which the walk ends, and is never NULL. |
| `LeafCaches.GrownOk` | src/rtree.c:152-177 | Leaves that other threads add do not disturb a thread's caches. |
| `LeafCaches.SamePage` | include/pmalloc/internal/rtree.h:150-159 | Two addresses reach the same element if and only if they are on the same page of the 48-bit address space. |
| `LeafCaches.KeyOfLeaf` | include/pmalloc/internal/rtree.h:129-148 | A leaf key has the slot and the root index of every address it stands for. |
| `LeafBits.PackReads` | include/pmalloc/internal/rtree.h:182-212 | Each field of a leaf word reads back as written if and only if it fits: the pointer is canonical and even, the index has 16 bits, and an odd pointer does not set the slab bit. |
| `LeafBits.SetsOneField` | include/pmalloc/internal/rtree.h:257-301 | Writing one field leaves the other two. |
| `LeafBits.SetsArePack` | include/pmalloc/internal/rtree.h:323-335 | Writing the fields one by one comes to one write of the word. |
| `LeafBits.FieldsFit` | include/pmalloc/internal/rtree.h:182-212 | Whatever a word holds, the pointer read from it is canonical and even and the index has 16 bits. |
| `RadixTree.Rtree.LeafInit` | src/rtree.c:152-178 | A leaf is made once; an existing one is returned, and no page's word changes. |
| `RadixTree.Context.Lookup` | include/pmalloc/internal/rtree.h:337-403 | The lookup with its two cache arrays is the pure lookup step, finds the element of the walk, and changes no page's word. |
| `RadixTree.Context.LookupHard` | src/rtree.c:263-360 | The walk with leaf creation and cache replacement, done in the arrays, is the pure one; NULL only when no leaf is there and none is asked for. |
| `RadixTree.Context.Promote` | include/pmalloc/internal/rtree.h:363-390 | The element-wise swaps are the pure promotion. |
| `RadixTree.Context.Replace` | src/rtree.c:323-340 | The shift of the L2 array and the two overwrites are the pure replacement. |
| `RadixTree.Context.Write` | include/pmalloc/internal/rtree.h:405-423 | Exactly the words of the key's page change, to the packed fields. |
| `RadixTree.Context.Read` | include/pmalloc/internal/rtree.h:425-437 | Reading gives the word of the page, through any state of the caches, and says that there is none if and only if no leaf has been made for it. |
| `RadixTree.Context.Update` | include/pmalloc/internal/rtree.h:554-562 | Index and slab bit of the key's page change, the pointer and all other pages stay. |
| `RadixTree.Context.Clear` | include/pmalloc/internal/rtree.h:564-572 | The key's page is cleared, all others stay. |
| `SlabLayout.BootClass` | src/sizeclass.c:78-105 | The layout search ends with as many blocks as fit above the header and their metadata: one more would not. |
| `SlabLayout.Reset` | src/sizeclass.c:111-128 | The layout over old blocks leaves room for the largest metadata and the table, and has as many blocks as then fit. |
| `SlabLayout.ResetShrinks` | src/sizeclass.c:111-128 | A class laid over old blocks has no more blocks than on a slab of its own, and the metadata bit of every block, the one past the end included, lies before the table. |
| `SlabLayout.WalkIsTouches` | src/slab.c:304-330 | The walk from the first new block on, while one begins below the old block's end, meets exactly the new blocks that share a byte with the old one. |
| `SlabLayout.TouchBound` | src/slab.c:318 | No old block reaches past index nbits of the new class. |
| `SlabLayout.ClassesRoomy` | src/slab.c:262-265 | For each of the 39 size classes and any number of old blocks that morphing accepts, the new bitmap has a bit for index nbits or no byte of the slab lies there. |
| `SlabLayout.ClassSizeDoubles` | include/pmalloc/internal/sizeclass.h:19-69 | The block sizes: 8 to 64 by eights, and each later one twice the fourth before it. |
| `SlabLayout.RoomNeeded` | src/slab.c:326 | The bit for index nbits is missing and needed by an old block that ends with the slab if and only if the number of new blocks is a multiple of 64 and they do not fill the slab. |
| `SlabLayout.AcceptedIsClear` | src/slab.c:228-231 | When step 3 accepts for the lowest block in use, header, metadata and table of the new layout lie below every block in use. |
| `SlabLayout.CountFits` | include/pmalloc/internal/slab.h:67-75 | A slab at most a fifth full of blocks of 64 bytes or more has fewer than 256 blocks in use, and their ids have 14 bits. |
| `SlabLayout.MetaBound` | src/sizeclass.c:100-104 | The largest metadata of any class is 1152 bytes, that of 8-byte blocks. |
| `SlabBlocks.NoOverlap` | src/slab.c:541-585 | No live old block shares a byte with a block of the new class that is in use. |
| `SlabBlocks.FreeTestRight` | src/slab.c:541-543 | The test num_b != 0 in free is true for every old block and false for every new one. |
| `SlabBlocks.CountIsUse` | src/slab.c:433-436 | The header's count is the number of blocks that are not free, and is zero exactly when nobody has a block. |
| `SlabBlocks.FreeIsNobodys` | include/pmalloc/internal/bitmap.h:36-72 | A set bit means nobody has the block and no old block lies on it, and then its metadata bit is clear. |
| `SlabBlocks.RoomLeft` | src/slab.c:433-434 | While the count is below the class's blocks, some set bit is a block of the class. |
| `SlabBlocks.CoverCore` | src/slab.c:324-331 | Counting an old block over a new one marks the new one used exactly when it is the first. |
| `SlabBlocks.UncoverCore` | src/slab.c:573-583 | Taking an old block off a new one frees the new one exactly when it was the last. |
| `SlabBlocks.LiftedOk` | src/slab.c:543-589 | After an old block's free every count is again the number of live old blocks over that new block, and its table entry says freed. |
| `SlabBlocks.LaidOk` | src/slab.c:234-343 | After morphing every count is the number of old blocks over that new block, and the table lists each old block once. |
| `SlabBlocks.LayDone` | src/slab.c:313-333 | After the walk of one old block it is counted over exactly the blocks it touches. |
| `SlabBlocks.HandOk` | src/pmalloc.c:199-207 | A cached block that is handed out moves to live, with its metadata bit set, and all else holds. |
| `SlabBlocks.StashOk` | src/slab.c:633-658 | A live block freed by its own arena moves to the thread's cache, with its metadata bit cleared. |
| `SlabBlocks.ReleaseOk` | src/slab.c:659-663 | A block given back to the slab becomes free in the bitmap, the metadata and the count. |
| `SlabBlocks.RemoteOk` | src/slab.c:498-510 | A block freed from another node keeps its bitmap and metadata bits until the flush, on slabs that hold old blocks too. |
| `SlabBlocks.RemoteExact` | src/slab.c:494-511 | A free from another node, which does not ask whether the block is an old one, leaves the slab in order after the flush if and only if no old block lies where it was freed. |
| `ThreadCache.PushPlaced` | src/slab.c:445-464 | Pushing a block keeps: each cached block is in one thread's cache, once, in the bank of its id, and the bank bitmap marks the non-empty banks. |
| `ThreadCache.PushOther` | src/slab.c:445-464 | A block of another slab pushed to a cache leaves this slab's blocks where they are. |
| `ThreadCache.NewPlaced` | src/tcache.c:26-60 | Threads that start have no block of any slab. |
| `ThreadCache.PopPlaced` | src/pmalloc.c:182-215 | Popping from the next bank takes exactly one entry and keeps the same. |
| `ThreadCache.FindNext` | src/tcache.c:128-139 | Finds the next bank after the last one used that has blocks, going round. |
| `ThreadCache.LeftPlaced` | src/pmalloc.c:118-127 | Emptying a cache from the front of each stack takes each of its entries once. |
| `MixedSlab.VSlab.constructor` | src/slab.c:39-75 | A new slab has every block free. |
| `MixedSlab.VSlab.Start` | src/sizeclass.c:78-105 | A slab of a class as the boot code lays it out is valid, with every block free and every thread's cache empty. |
| `MixedSlab.VSlab.OtherPush` | src/slab.c:445-464 | Blocks of other slabs may be pushed to any thread's cache at any moment; the slab stays valid. |
| `MixedSlab.VSlab.PopOne` | src/slab.c:352-485 | -1 if and only if the slab is of another class, or full with no remote frees to take back or no lock to do it under, and then nothing has changed. Otherwise the lowest free block, in nobody's hands, goes to the bank of its id, a full slab having taken back all its remote frees first; 0 exactly when that bank has become full. |
| `MixedSlab.VSlab.Fill` | src/tcache.c:98-104 | Blocks that nobody had are pushed one after another, and nothing else in any cache changes; it ends with -1 only when the slab then has nothing to give and no bank is full, and with 0 exactly when the last block has filled its bank, the only full one. |
| `MixedSlab.VSlab.FlushRemote` | src/numa_log.c:120-174 | The flush frees exactly the blocks freed from other nodes and lowers the count by their number. |
| `MixedSlab.VSlab.Malloc` | src/pmalloc.c:156-220 | The block handed out was in this thread's cache and not live, and is live afterwards; blocks of other slabs leave this slab as it was. |
| `MixedSlab.VSlab.FreeSmall` | src/slab.c:487-701 | A free of a live block, old or new, ends exactly that block's life: remote, cached when the stack has room, or free; the slab is given up exactly when nothing of it is in use. From another node the block is one of the present class; SlabBlocks.RemoteExact says why. |
| `MixedSlab.VSlab.FreeOld` | src/slab.c:543-628 | The free of a block of the previous class, with its two table increments and its walk, removes exactly that old block. |
| `MixedSlab.VSlab.LiftCounts` | src/slab.c:565-585 | The walk of that free takes the block off exactly the counts it was in. |
| `MixedSlab.VSlab.FreeRemote` | src/slab.c:494-511 | A free from another node of a block of the present class marks it in the remote bitmap only. |
| `MixedSlab.VSlab.FreeNew` | src/slab.c:629-699 | A block of the present class is cached when its stack has room and freed otherwise; no other cache entry changes. |
| `MixedSlab.VSlab.PutBack` | src/slab.c:703-855 | A cached block put back is never taken for an old one and becomes free. |
| `MixedSlab.VSlab.Migrate` | src/pmalloc.c:110-127 | A thread that moves gives back exactly the blocks in its cache, and its cache is empty. |
| `MixedSlab.VSlab.Morph` | src/slab.c:214-348 | Morphing refuses exactly when the new layout would reach a block in use; else every block in use becomes an old block, listed once, each count is the number of old blocks over the block, and the numbers fit their fields. |
| `MixedSlab.VSlab.ListOld` | src/slab.c:267-287 | The table has one entry for each clear bit, in ascending order. |
| `MixedSlab.VSlab.CoverOld` | src/slab.c:313-333 | The walk for one old block counts it over exactly the blocks it touches. |
| `Interleave.RoundTrip` | include/pmalloc/internal/slab.h:130-137 | For every number of banks and slots to a line the interleaving can be undone and keeps each id in its group. |
| `Interleave.RoundTripBack` | include/pmalloc/internal/slab.h:130-137 | And every slot is some id's, so each group is permuted. |
| `Interleave.DistinctLines` | include/pmalloc/internal/slab.h:130-137 | Any as many consecutive ids as there are banks fall on different lines. |
| `Interleave.NextSlot` | include/pmalloc/internal/slab.h:130-137 | For any number of banks and slots of a line: the first ids go one to a line, each further id beside the one a round before it, and each group after the first is like the one before; this fixes the whole map. |
| `Interleave.Injective` | include/pmalloc/internal/slab.h:130-137 | No two ids share a slot. |
| `SlabBlocks.MidIsMap` | include/pmalloc/internal/slab.h:130-137 | Stepping by banks and by groups, six blocks further the next bit and a group further the next group, is the interleaving for the slab. |
| `Interleave.MetaInside` | src/sizeclass.c:46-49 | The metadata bits of a slab stay inside the space get_meta_size sets aside. |
| `Interleave.MetaLeast` | src/sizeclass.c:46-49 | The space is whole groups of lines and less than one group more than the bits need. |
| `Interleave.NumaLogPermuted` | src/numa_log.c:37-44 | The slots of a numa log file are a permutation of its ids. |
| `Interleave.ChunkCloses` | src/log.c:158-187 | A log chunk takes exactly the counts below 100: none of them shares a slot, and the next is past the end. |
| `Interleave.LogIndexSteps` | src/log.c:158-164 | Six items of a chunk go to six lines, the next beside them, and after 48 the next group begins. |
| `LogStore.CountIndex` | src/log.c:158-164 | The slot of a count gives the count back. |
| `LogStore.BitsAreReplay` | src/log.c:166-244 | A bit on a NORMAL or FILE slot is set if and only if replay of the chain keeps the item and no tombstone waits for it. |
| `LogStore.RecoveryIsLive` | include/pmalloc/internal/log.h:28-40 | What recovery keeps, less what pending tombstones name, is exactly the live items, each named by its owner's log pointer. |
| `LogStore.SlotRoundTrip` | include/pmalloc/internal/log.h:18-19 | Chunk and index are found again from an item's address. |
| `LogStore.FillLasting` | src/log.c:189-222 | Appending a NORMAL or FILE item keeps the agreement of bits and replay. |
| `LogStore.FillFreed` | src/log.c:499-545 | Writing the FREE record of the first tombstone keeps it, with that tombstone gone. |
| `LogStore.ClearSynced` | src/log.c:463-497 | Clearing the bit of a live item keeps it, with the tombstone pending. |
| `LogStore.SyncedFirst` | src/numa_log.c:193-218 | Bits and replay agree whatever the order in which tombstones wait. |
| `LogStore.ExtendKeeps` | src/log.c:171-187 | A new tail chunk keeps chain, bits, replay, log pointers and live items. |
| `Journal.Log.constructor` | src/log.c:99-136 | A new log is empty and durable. |
| `Journal.Log.Append` | src/log.c:166-244 | The live items gain exactly the new one, and the owner's pointer names it; it fails if and only if the tail is full and no chunk can be had. The history grows by the stores and persists made, and a crash at any of them leaves what replays to the old live items, and beyond them at most to the new one and those with a pending tombstone. |
| `Journal.Log.AppendFree` | src/log.c:166-244 | The live items lose exactly the freed one; bits and replay agree again; the tail, in which the FREE record now lies, is not empty; it fails if and only if the tail is full and no chunk can be had. A crash at any store or persist of it leaves what replays to the live items that remain, and beyond them at most to the freed one and those with a pending tombstone. |
| `Journal.Log.AddTomb` | src/log.c:463-497 | A free from another node takes the item out of the live ones at once and leaves one tombstone, at the end of the waiting ones. |
| `Journal.Log.FlushTomb` | src/log.c:499-545 | Any one waiting tombstone becomes a FREE item, no live item changes, and the tail is then not empty; it fails if and only if the tail is full and no chunk can be had; every crash point of it replays to the live items and at most the pending ones beyond. |
| `Journal.Log.FlushTombs` | src/numa_log.c:193-218 | All waiting tombstones become FREE items, whatever the order in which they are taken, and no live item changes; it succeeds if and only if the chunks that can be had are enough for them; every crash point on the way replays to the live items and at most the pending ones beyond. |
| `Journal.Log.TakeChunk` | src/log.c:39-72 | The chunk is the first of the free list while there is one, and else the next of the file, which grows by one chunk; every chunk of the file stays accounted for; none only when the file is full. |
| `Journal.Log.NewTail` | src/log.c:171-187 | A new tail changes no item, bit, live item or pending one, and every crash point of it is safe. |
| `Journal.Log.ExtraIs` | src/log.c:166-187 | The chunks that n more items need, counted one by one, in closed form. |
| `Journal.Log.Copy` | src/log.c:261-293 | An item copied to the new log joins its live items and no line of the old log is touched. |
| `Journal.Log.CreateCopy` | src/log.c:330-361 | The second log is created beside the first, with the unused root slot naming it. |
| `Journal.Log.SlowGC` | src/log.c:363-460 | It succeeds if and only if the chunks that can be had hold a root and the live items, and then uses no chunk more. Live items and owners stay, log pointers name the copies, tombstones and FREE items are gone, the old chunks are free and in no log, in falling order at the end of the free list, and every chunk of the file is free or the log's. The history is that of stores and persists which lead from the old memory to the new, and at every point of it, whatever lines reached memory, the log that alt chooses replays to the live items and beyond them at most to items with a pending tombstone. |
| `Journal.Log.Flip` | src/log.c:438-456 | The last flush makes the copy durable before alt is flipped, and old chunks are given up only after that. |
| `Journal.Log.CopyBit` | src/log.c:391-433 | Scanning one bit copies the item exactly when it is live and lasting. |
| `Journal.Log.Destroy` | src/log.c:138-156 | Every chunk of the old log is given up once, downwards through the file, and its root last. |
| `CrashLog.LogRecovers` | src/log.c:376-456 | From an image in which alt chooses a durable log, replay finds every live item and beyond them only items with a pending tombstone. |
| `CrashLog.OldIsSafe` | src/log.c:376-437 | While alt can only be the old value, every crash finds the old log. |
| `CrashLog.EitherIsSafe` | src/log.c:438-442 | Once the copy is durable, either value of alt recovers the same items. |
| `CrashLog.FlipsOk` | src/log.c:438-442 | Each step of the last flush and of the flip is crash-safe. |
| `CrashLog.CopyFilled` | src/log.c:261-293 | Copying one live item keeps the copy's bits, replay and owners in agreement, adds exactly that item, and at each store of it a crash still finds the old log. |
| `CrashLog.CopyOpened` | src/log.c:171-187 | Opening a new tail for the copy changes no item of it, makes the full chunk durable, and at each of its stores and flushes a crash still finds the old log. |
| `CrashLog.CopyStarted` | src/log.c:330-361 | Through all eight stores and flushes that create the second log a crash finds the old one; the second is then empty, durable and named by the unused root slot. |
| `CrashLog.CopyFlipped` | src/log.c:438-456 | With the copy complete, the whole history through the last flush and the flip is crash-safe, and the copy is then the log that alt chooses. |
| `CrashLog.ChainUnique` | include/pmalloc/internal/log.h:28-40 | Following the links of an image leaves no choice, so recovery is determined. |
| `CrashLog.KeptIsLive` | src/log.c:391-433 | Replay keeps the live items and those with a pending tombstone. |
| `CrashLog.StoresLinger` | src/log.c:171-222 | Every store, and the wiping of a chunk, may be found made or not made after a crash until it is persisted, whatever else the crash leaves. |
| `CrashLog.PersistsHold` | src/log.c:171-222 | A persist lets no crash leave anything new, and of the words it covers only what memory has. |
| `CrashLog.NowIsAllowed` | src/log.c:171-222 | What memory holds is at every point among what a crash may leave. |
| `CrashLog.WriteSafe` | src/log.c:189-222 | When a log stands before and after one item is written, every crash point between them replays within bounds that hold for both. |
| `CrashLog.OpenSafe` | src/log.c:171-187 | At every crash point of opening a new tail, linked or not, the log replays to the live items and at most the pending ones beyond. |
| `FastGc.SweepRight` | src/log.c:295-328 | After one pass, following the links from the root gives exactly the non-empty chunks in order if and only if of two empty neighbours the later one has the higher address. |
| `FastGc.RisingChain` | src/log.c:295-328 | In a chain of rising addresses any set of empty chunks comes out, adjacent runs included, and a tail that is not empty stays the tail; FastGc.TailStays says that it is not. |
| `FastGc.TailStays` | src/log.c:220-240 | After a FREE record has been appended or flushed the tail is not empty, so the pass that it starts never removes the tail and it stays the last chunk. |
| `FastGc.FallingChain` | src/log.c:295-328 | In a chain of falling addresses, as appends build it from the chunks that slow_GC gave back, no two empty neighbours come out right. |
| `FastGc.FallingRun` | src/log.c:295-328 | Exactly what goes wrong with two empty neighbours that fall: the second, although it joins the free list, stays in the chain. |
| `FastGc.ReusedChain` | src/log.c:295-328 | A concrete chain of four chunks that slow_GC and the appends after it build, on which one pass leaves a freed chunk in the chain. |
| `FastGc.SweepAt` | src/log.c:3-12 | Because the reversed comparator visits later chunks first, a link past a visited empty chunk already leads to the next chunk that stays. |
| `FastGc.SweepStuck` | src/log.c:306-312 | Met the other way round, a link from before two empty neighbours stays inside the run. |
| `FastGc.LinksBackStale` | src/log.c:307-311 | After the pass the links back are exact for the chunks that stay if and only if nothing was unlinked. |
| `FastGc.ChunkLog.FastGC` | src/log.c:295-328 | The pass itself: the tree loses exactly the empty chunks, they join the free list, their ids are cleared, the links are the sweep's, and they are right exactly as in SweepRight. |
| `FastGc.ChunkLog.Unlink` | src/log.c:298-316 | The walk's stores are the pure sweep over the links. |
| `FastGc.BitmapEmpty` | src/log.c:27-37 | True exactly when no bit is set. |
| `NumaLog.NumaLog.Alloc` | src/numa_log.c:67-94 | Every entry so far, back to at least as many as a file holds, still stands in one of the two files; a flush comes exactly when the file is full. |
| `NumaLog.NumaLog.Flush` | src/numa_log.c:96-111 | The files change roles and exactly the arenas with entries in the file just filled are told. |
| `NumaLog.Recorded` | src/numa_log.c:67-94 | Writing the next entry at its interleaved place leaves all earlier entries of the file. |
| `NumaLog.PlaceSteps` | src/numa_log.c:37-44 | Six entries go to as many lines of four, the next beside them, and after 24 the next group begins. |
| `Decay.RunIsOneAdvance` | src/arena.c:621-710 | A run of advances in which no turn finds more unused pages than the one before or than might stay after it ends as one advance by all its steps; the limit has not risen and is zero after 200 steps. |
| `Decay.AdvanceAdds` | src/arena.c:647-667 | Advancing by a and then by b is advancing by a + b when no pages became unused, even if pages came back up to the limit in between. |
| `Decay.NewPages` | src/arena.c:686-710 | Of two advances the second counts pages as new if and only if they pass both those that were unused at the first and the limit it left, and then exactly the excess. |
| `Decay.RunRemembers` | src/arena.c:621-710 | In every run the new pages of each turn stand in the backlog at the place of their age until they are 200 steps old. |
| `Decay.ShiftTwice` | src/arena.c:621-646 | Two shifts of the backlog are one, except that the pages of the first step are then b steps old. |
| `Decay.LimitFalls` | src/arena.c:669-684 | Without new pages the limit never rises. |
| `Decay.LimitDrains` | src/arena.c:621-646 | After 200 steps without new pages the limit is zero. |
| `Decay.LimitBelowPages` | src/arena.c:669-684 | The limit is at most the sum of the backlog, and at least the pages of its last step. |
| `Decay.LimitIsCurve` | src/arena.c:669-684 | Of pages that became unused at one step the curve's part for their age may stay. |
| `Decay.WeightsAdd` | src/arena.c:669-684 | The weights of two backlogs add up. |
| `Decay.ArenaDecay.EpochAdvanceHelper` | src/arena.c:647-667 | The epoch moves by at least one whole step to the last step boundary: epoch <= time < epoch + interval, the new deadline is after the time, and the backlog is shifted by the steps taken. |
| `Decay.ArenaDecay.BacklogUpdate` | src/arena.c:621-646 | The moves within the array are the pure shift, for fewer than 200 steps and for more. |
| `Decay.ArenaDecay.NpagesLimit` | src/arena.c:669-684 | The summing loop gives the weighted limit, which lies between the last step's pages and the backlog's sum. |
| `Decay.ArenaDecay.EpochAdvance` | src/arena.c:697-710 | An advance moves the epoch to the last boundary, shifts the backlog with the pages above both the earlier count and the earlier limit as new, keeps the larger of limit and current pages, and asks for exactly the pages above the limit. |
| `Decay.ArenaDecay.MaybeDecay` | src/arena.c:711-749 | Nothing happens before the deadline; a clock that went back starts the epoch again; afterwards epoch <= time < deadline. |
| `Decay.ArenaDecay.DeadlineInit` | src/arena.c:82-96 | The deadline lies one interval, and less than one interval of jitter, after the epoch. |
| `Smoothstep.TableIsCurve` | include/pmalloc/internal/smoothstep.h:26-230 | Every entry of the table is 6x^5 - 15x^4 + 10x^3 in 24-bit fixed point, rounded down. |
| `Smoothstep.Rises` | include/pmalloc/internal/smoothstep.h:26-230 | The table never falls. |
| `Smoothstep.AtMostOne` | include/pmalloc/internal/smoothstep.h:230 | Its last entry is one, so no entry is more. |

## Left out

- MixedSlab.VSlab.FreeSmall: a free from another node is of a block of the present class, the only case in which it is right, and within the remote bitmap, which morphing does not resize.
- MixedSlab.VSlab.FreeRemote: blocks of the present class within the remote bitmap, as above.
- MixedSlab.VSlab.FlushRemote: the remote bitmap has the words that the flush reads; after morphing to a class with more words the source reads past it.
- MixedSlab.VSlab.Morph: slabs with no cached blocks and no old ones; steps 1 and 2 of `slab_morphing`, which scan the new class's cache, and the skipping of stale cache entries in `pmalloc_malloc_to` are not modelled, nor is the zero entry written behind the table when there is room.
- MixedSlab.VSlab.PopOne: the timestamp and the recency list of slabs are not modelled; the flush of remote frees is one step.
- MixedSlab.VSlab.Fill: one slab at a time; the walk over a bin's slabs and `slab_get_one` are not modelled.
- MixedSlab.VSlab.Migrate: entries of other slabs leave the cache; what their slabs do with them is that slab's own model.
- Journal.Log.Append: the address has no item from an earlier allocation that still waits for its FREE record. `arena_dalloc` gives the pages back before it takes the log mutex, so another thread may log the same address first; replay then finds both items until the record is written.
- Journal.Log.AppendFree: freeing is one step. `arena_dalloc` reads the log pointer before it takes the log mutex, and a `slow_GC` in between moves the item; the record then names the old place. The size field is kept as it is written, not cut to its width.
- Journal.Log.SlowGC: runs without `fast_GC`; the item counters and timers that start a collection, and the retry when a slab's descriptor has no extent yet, are not modelled. A full log file ends the program, which is `ok == false`.
- Journal.Log.AddTomb: the linked blocks in which tombstones wait are one sequence; the flush takes them from it in any order.
- FastGc.ChunkLog.FastGC: one pass; a second pass would use stale links back. The descriptor tree is its in-order walk; `RedBlackTree` proves the tree.
- ArenaExtents.Arena.Alloc: fresh requests of at most 512 pages, and runs of mapped pages of at most 98304, so that every free extent has a class; the size index in leaves is not modelled.
- ArenaExtents.Arena.AllocFresh: requests of at most 512 pages; a longer one runs past the chunk it is cut from.
- ExtentPool.Extents.Insert: extents of at most 98304 pages; a longer one has no class, and the class the source computes for it, zero less one, is outside its heaps.
- ArenaExtents.Arena.Neighbour: a slab descriptor read as an extent counts as no extent, because the arena test on it fails.
- ArenaExtents.Arena.EvictDirty: the dirty list only; the part of `extents_evict` that gives muzzy pages back to files is not modelled.
- ExtentPool.Extents.BestFit: heaps are sets of extents with a least element; `PairingHeap` proves the heap.
- ExtentLocks.LookupMistaken: the run uses a slab of one page; a slab of more pages reads the same at the page looked up.
- ExtentLocks.LookupSafe: the two leaf writes of a registration may come in any order; the choice of what to merge and where to split is left to the step, and sizes in classes are not modelled.
- RadixTree.Context.Lookup: memory orders of the atomic loads are not modelled; leaves are never missing for lack of memory, as the code asserts.
- Decay.ArenaDecay.NpagesLimit: the sum is unbounded, so the 64-bit sum is right as long as the pages of the backlog number less than 2^40.
- Decay.ArenaDecay.DeadlineInit: the jitter is a parameter below the interval.
- NumaLog.NumaLog.Alloc: timestamps are parameters, and telling an arena is its number in the result.
- PairingHeap.PairHeap.RemoveAny: `any`, which only reads, is the same choice without the removal and has no member of its own.
- RedBlackTree.RbTree.Remove: `last`, `prev`, the iterators and `destroy` of `rb.h` are not modelled.
- File mapping, fallocate, mmap, semaphores, thread creation and the detection of processors and nodes.
- Recovery of the numa log, which is an empty stub.
- The write-ahead `minilog`, tickers, timestamps, hashes, random numbers, atomics and thread-specific data.
- The lists of `dl.c`, `ql.h`, `qr.h` and `simple_list.h` are sequences and sets where they are needed.
