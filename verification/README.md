# Heap Layers allocators, verified

This project models the Heap Layers allocators that this repository builds its
process-as-threads library on, and proves properties of the models with Dafny.
Run `dafny verify dfyconfig.toml` to check all of it.

Addresses are natural numbers. A super heap is a parameter: it is what an
operation is handed when it asks for memory, and a precondition says that this
memory overlaps nothing in use. Where the source exits or returns a null pointer
because memory is gone, the model has a precondition (or, for the deployed stack's
`Run` and the arena of `XallocHeap`, the branch itself).

## The parts

**A slot heap with bounded blowup** (`LooseSlotSpec`, `LooseSlotRuns`,
`LooseSlotHeap`). Chunks of equal slots sit on doubly linked lists by fullness.
`BigChunk` and `LooseSlotHeap` are classes whose methods follow the source; their
contracts tie each operation to a step on a "book", the slots in use of each chunk.
The main theorem is about these steps: the documented memory bound holds in all
runs exactly when the emptiness fraction divides the slots of a chunk. When it does
not, the source can return a chunk that carries less than a whole share, and a run
that fills enough chunks and then drains them evenly ends beyond the bound.

**A boundary-tag allocator** (`BoundaryTags`, `CoalesceHeap`, `CoalesceTheorems`).
Headers are eight-byte words in memory: the size of the block, the size of the
block in front and whether that one is free, so that a block's free bit lives in
the next header. The class `Heap` writes these words as malloc, split, coalesce and
the growth at the end of memory do. A write that overlaps another header destroys
it, which is what makes the proofs about the sixteen bytes of slop necessary.
The first header of a region has nothing in front of it, and free starts with a test
that reads the word there. When that foreign word is not zero, the source does not
join or even mark the block; the model has this branch, says exactly when it is
taken, and proves that no run leaves two free neighbours if and only if no word in
front of a region is other than zero.

**The deployed stack** (`Powers`, `Kingsley`, `DeployedSpec`, `DeployedTrace`, `DeployedHeap`). Pages
from one source, an arena per heap, a header per object, Kingsley classes, free
lists threaded through the free objects, and 128 heaps any of which may free what
another one allocated. Memory is explicit: headers and list links are words that the
program's own stores could reach if objects overlapped.

**Bitmap-indexed bins** (`BinMap`, `SegHeap`, `DLBigClasses`, `DLBigHeap`). The search
through 32-bit words, proved with bit vectors, finds what a scan of the bins would.
Marks may be stale; a missing mark is impossible. The size classes of the big Lea heap
are not monotone, are six too high for a range of sizes, but meet what the search needs.

**A treap and best fit** (`TreapShape`, `TreapLeaves`, `TreapOrder`, `Treap`,
`CartesianHeap`). Nodes live in memory with parent pointers. Each has a ghost rank and
the interval of ranks of its subtree, which is how pointer consistency, the search
order with duplicates, and termination are stated. Right rotations are proved as mirror
images of left ones.

**A recursive spin lock** (`RecursiveLock`). Every read and write of a shared variable
by every thread is a step of its own, and the theorems hold for all interleavings:
safety in every reachable state, and progress by the steps of one thread alone.

**Smaller allocators and containers.** `AddressOrderedHeap` (first fit in address
order), `XallocHeap` (an arena that collapses from its end), `DynStack` (amortised cost
of a growing and shrinking array), `QuickLists` (strict bins under a threshold),
`ObstackHeap` (objects freed in reverse order, the newest one growing), `BitIndex`,
`AlignedChunk` and `AlignedSlotHeap` (slots found again from their addresses).
`Alignment`, `Arithmetic` and `MapSum` hold rounding, products, quotients and sums
over maps.

## Where the code does less than it promises

- The blowup bound needs that the emptiness fraction divides the slots of a chunk
  (`BlowupBoundExactly`, with `BrokenBound` for the other direction).
- Frees leave no two neighbouring blocks free, over all runs, exactly when no word in
  front of a region is other than zero (`RunsAreCoalescedExactly`; `NeighboursAgree` and
  `ForeignWordPreventsJoining` for the heap itself).
- `XallocHeap` checks the request and not the rounded block, so a request can leave
  the arena, and a failed request blocks the heap until its last block is freed
  (`Malloc`, `OverrunExample`, `DeadEndExample`).
- Freeing an obstack object breaks the obstack exactly when a newer chunk begins at the
  object's address, which takes an empty object at the end of a chunk
  (`Free`, `AmbiguousExample`).
- Address-ordered first fit loses sixteen bytes with every split (`SplitBytes`).
- The treap's checks are meant to be called with `INT_MIN` and `INT_MAX`. Compared with
  unsigned numbers `INT_MIN` is large: the heap check then rejects every treap whose
  root's priority is below 2^31, and the search check all treaps but the empty one
  (`HeapPropertyIsHeapOrder` and `BstPropertyIsSorted` for any bounds,
  `HeapPropertyAtIntMin`, `BstPropertyAtIntMin`). In the source these calls are comments.
- The size class of the big Lea heap is six above the least sufficient one for sizes
  from 2113 to 10752 (`ClassIsLeast`).
- A request of no bytes has no size class in the big Lea heap (`ZeroHasNoClass`).

## Sizes

The slot heap, the deployed stack and the address-ordered heap use the structure sizes
of a 64-bit machine (headers of 40, 16, 24 and 8 bytes). Bitmaps have 32-bit words, and
the boundary-tag header and the obstack's chunk header have eight bytes, as on a 32-bit
machine; the source asserts or assumes these. Treap nodes have a size that is a
parameter.

## Model

| member | source | states |
|---|---|---|
| LooseSlotRuns.BlowupBoundExactly | processes-as-threads/heaplayers/experimental/looseslotheap.h:212-267 | the blowup bound (free space at most the slack, or `emptyFraction` times it at most the space) holds after every run of malloc and free if and only if `emptyFraction` divides the slots of a chunk |
| LooseSlotRuns.DivisibleRunsAreBounded | processes-as-threads/heaplayers/experimental/looseslotheap.h:138-267 | when it divides, every state of every run is bounded, and no chunk ever has more slots in use than it has |
| LooseSlotRuns.BrokenBound | processes-as-threads/heaplayers/experimental/looseslotheap.h:233-265 | when it does not divide, a concrete run of mallocs and frees ends in a state that breaks the bound |
| LooseSlotSpec.SomeChunkIsEmptyEnough | processes-as-threads/heaplayers/experimental/looseslotheap.h:231-245 | pigeonhole: when more than 1/`emptyFraction` of the space is free, some chunk is more than 1/`emptyFraction` empty, so the search finds one |
| LooseSlotSpec.ReturnedChunkIsEmptyEnough | processes-as-threads/heaplayers/experimental/looseslotheap.h:236-249 | whatever chunk of the lowest list is returned is more than 1/`emptyFraction` empty and is on a list below the last but one |
| LooseSlotSpec.FullnessOfFull | processes-as-threads/heaplayers/experimental/looseslotheap.h:129-134 | fullness runs from 0 to `emptyFraction` and is `emptyFraction` exactly for a full chunk |
| LooseSlotSpec.FullnessIs | processes-as-threads/heaplayers/experimental/looseslotheap.h:129-134 | a chunk is on list i exactly when `emptyFraction` times its slots in use is at least i and less than i + 1 times the slots of a chunk |
| LooseSlotSpec.TakesFullest | processes-as-threads/heaplayers/experimental/looseslotheap.h:147-156 | in slot counts: no chunk with room is on a higher list than the one malloc takes from |
| LooseSlotSpec.ReturnsEmptiest | processes-as-threads/heaplayers/experimental/looseslotheap.h:236-245 | in slot counts: no chunk is on a lower list than the one that is given back |
| LooseSlotSpec.ShapeOfFits | processes-as-threads/heaplayers/experimental/bigchunk.h:166-170 | as many slots, each with its tag and rounded up to eight bytes, fit behind the chunk's fields as are counted, and one more does not; and so for the slack |
| LooseSlotSpec.FullnessMonotone | processes-as-threads/heaplayers/experimental/looseslotheap.h:129-134 | a chunk with more slots in use is on no lower list |
| LooseSlotSpec.EmptyEnough | processes-as-threads/heaplayers/experimental/looseslotheap.h:129-134 | a chunk is more than 1/`emptyFraction` empty exactly when its list is below the last but one |
| LooseSlotSpec.MallocKeepsBound | processes-as-threads/heaplayers/experimental/looseslotheap.h:138-199 | one malloc keeps the bound, whether or not it gets a chunk, with no condition on the sizes |
| LooseSlotSpec.FreeKeepsBound | processes-as-threads/heaplayers/experimental/looseslotheap.h:212-267 | one free keeps the bound when `emptyFraction` divides the slots, with and without returning a chunk |
| LooseSlotSpec.MustReturnIs | processes-as-threads/heaplayers/experimental/looseslotheap.h:233-234 | the abstract return rule is the source's nonlinear test |
| LooseSlotSpec.ShapeOfIsValid | processes-as-threads/heaplayers/experimental/bigchunk.h:166-170 | for which chunk and slot sizes a chunk has a slot at all, and that the slack is never below the slots of one chunk |
| LooseSlotHeap.BigChunk.constructor | processes-as-threads/heaplayers/experimental/bigchunk.h:104-127 | the carving loop leaves every slot on the free list |
| LooseSlotHeap.BigChunk.GetSlot | processes-as-threads/heaplayers/experimental/bigchunk.h:130-148 | takes the head of the free list exactly when a slot is free; the slot was not in use |
| LooseSlotHeap.BigChunk.PutSlot | processes-as-threads/heaplayers/experimental/bigchunk.h:151-163 | the slot goes back to the head of the free list |
| LooseSlotHeap.LooseSlotHeap.Malloc | processes-as-threads/heaplayers/experimental/looseslotheap.h:138-199 | a slot of the chunk at the front of the highest list below the full ones, which is said in slot counts, or of a new chunk exactly when all are full; the chunk is on the list of its new fullness, `space` and `inUse` are the sums over all chunks, and the bound is kept |
| LooseSlotHeap.LooseSlotHeap.LocalFree | processes-as-threads/heaplayers/experimental/looseslotheap.h:212-267 | the slot's chunk is on the list of its new fullness; a chunk goes back exactly when the test on the two counters asks for it, and, in slot counts, no chunk is on a lower list than that one; the bound is kept when `emptyFraction` divides the slots |
| LooseSlotHeap.LooseSlotHeap.Update | processes-as-threads/heaplayers/experimental/looseslotheap.h:273-318 | moves one chunk to the front of the list of its fullness: every link of every other chunk's list stays right |
| LooseSlotHeap.LooseSlotHeap.FindEmptiest | processes-as-threads/heaplayers/experimental/looseslotheap.h:236-245 | the search loop stops at the lowest non-empty list and never runs off |
| LooseSlotHeap.LooseSlotHeap.FindRoom | processes-as-threads/heaplayers/experimental/looseslotheap.h:147-156 | the search for a chunk with room finds the front of the fullest such list, or shows that all chunks are full |
| LooseSlotHeap.LooseSlotHeap.Release | processes-as-threads/heaplayers/experimental/looseslotheap.h:246-263 | unlinks the head of a list and takes its slots out of `space` and `inUse` |
| LooseSlotHeap.LooseSlotHeap.TooIdle | processes-as-threads/heaplayers/experimental/looseslotheap.h:233-234 | the test on the two counters decides the abstract return rule on the chunks |
| CoalesceTheorems.RunsAreCoalescedExactly | processes-as-threads/heaplayers/coalesceheap.h:47-91 | given what the words in front of the regions read: no run of takes from the dictionary, growth into fresh memory, frees and frees that the first test turns away leaves two neighbours both free, if and only if no such word is other than zero; whatever least size up to that of a double the requests have |
| CoalesceTheorems.BlocksAreLargeEnough | processes-as-threads/heaplayers/coalesceheap.h:107-129 | over every run whose requests are for at least so many bytes, up to those of a double, every block has as many |
| CoalesceTheorems.CarveAtLeast | processes-as-threads/heaplayers/coalesceheap.h:111-114 | an object taken from a free block is less than a header and a double larger than what was asked for |
| CoalesceTheorems.RunsAreWellFormed | processes-as-threads/heaplayers/coalesceheap.h:47-91 | over every such run, whatever the words read, the blocks stay disjoint and linked, the dictionary holds blocks only, and the blocks that are free without their bit are first blocks of regions |
| CoalesceTheorems.ForeignWordRun | processes-as-threads/heaplayers/coalesceheap.h:64-69 | for every region start behind a word other than zero, a run of two mallocs and two frees that ends in two free neighbours |
| CoalesceTheorems.CarveKeepsObjects | processes-as-threads/heaplayers/coalesceheap.h:107-129 | taking and splitting a free block leaves every object in use in place with its size, and only the new one comes to be in use |
| CoalesceTheorems.ReleaseKeepsObjects | processes-as-threads/heaplayers/coalesceheap.h:62-91 | freeing with joins on both sides leaves every other object in use in place with its size |
| CoalesceTheorems.CarveConserves | processes-as-threads/heaplayers/coalesceheap.h:107-129 | a malloc conserves the bytes of all blocks, headers included, and takes exactly the object and its header from the free ones |
| CoalesceTheorems.ReleaseConserves | processes-as-threads/heaplayers/coalesceheap.h:62-105 | a free conserves all bytes and gives exactly the object and its header back |
| CoalesceTheorems.RegionTiled | processes-as-threads/heaplayers/coalesceableheap.h:138-145 | from the first block of a region, block follows block without a gap up to the region's end |
| CoalesceTheorems.CarveKeepsRegion | processes-as-threads/heaplayers/coalesceheap.h:107-129 | splitting leaves every region tiled from the same start to the same end |
| CoalesceTheorems.ReleaseKeepsRegion | processes-as-threads/heaplayers/coalesceheap.h:62-105 | joining leaves every region tiled from the same start to the same end |
| CoalesceTheorems.GrowKeeps | processes-as-threads/heaplayers/coalesceableheap.h:269-326 | a block from fresh memory keeps the blocks disjoint and linked, and no two neighbours free; the bytes of all blocks grow by the block and its header |
| CoalesceTheorems.GrowMovesRegion | processes-as-threads/heaplayers/coalesceableheap.h:269-326 | a block from fresh memory moves the end of the region that ended where the block begins to the block's own end, and leaves all other region ends |
| CoalesceTheorems.RegionEndIsEnd | processes-as-threads/heaplayers/coalesceableheap.h:138-145 | from any block on, the blocks lead to an end header |
| CoalesceTheorems.ForeignWordPreventsJoining | processes-as-threads/heaplayers/coalesceheap.h:64-69 | on the heap itself, for every two sizes, every start of a region and every non-zero word in front of it: freeing the first of two objects does not mark its block, freeing the second does not join it, and two free neighbours stay apart |
| CoalesceHeap.CoalescedRelease | processes-as-threads/heaplayers/coalesceheap.h:62-91 | after the joins of a free the block has no free neighbour on either side |
| CoalesceHeap.FrontTag | processes-as-threads/heaplayers/coalesceableheap.h:110-150 | the previous-size and previous-status fields of a header name the block in front of it and whether it is free |
| CoalesceHeap.BackTag | processes-as-threads/heaplayers/coalesceableheap.h:129-136 | the free bit in the header two further on tells whether the block behind is free |
| BoundaryTags.TaggedSplit | processes-as-threads/heaplayers/coalesceheap.h:114-125 | the three header writes of a split leave every tag right |
| BoundaryTags.TaggedJoin | processes-as-threads/heaplayers/coalesceheap.h:97-105 | the two header writes of a join leave every tag right |
| BoundaryTags.TaggedMark | processes-as-threads/heaplayers/coalesceableheap.h:119-128 | setting the free bit of one block, in the header behind it, leaves every tag right |
| BoundaryTags.TaggedGrow | processes-as-threads/heaplayers/coalesceableheap.h:269-326 | the writes for a block at the end of memory, which reuses the old end header when memory is contiguous, leave every tag right, the previous-size and previous-status of the new block included |
| BoundaryTags.TaggedAgree | processes-as-threads/heaplayers/coalesceableheap.h:81-128 | memory that agrees on the headers that matter has the same tags |
| BoundaryTags.AgreeOnScribble | processes-as-threads/heaplayers/coalesceableheap.h:107-111 | anything written inside an object disturbs no header that matters |
| CoalesceHeap.Heap.SplitBlock | processes-as-threads/heaplayers/coalesceheap.h:108-129 | splits in place, through setSize, makeObject and markPrevInUse |
| CoalesceHeap.Heap.JoinBlocks | processes-as-threads/heaplayers/coalesceheap.h:97-105 | joins in place, through setSize and setPrevSize |
| CoalesceHeap.Heap.Mark | processes-as-threads/heaplayers/coalesceableheap.h:119-128 | markFree and markInUse write the status bit of the next header only |
| CoalesceHeap.Heap.SlopMalloc | processes-as-threads/heaplayers/slopheap.h:52-105 | the bump allocator: the memory handed out is followed by 16 more bytes that nothing uses, and contiguous memory is recognised |
| CoalesceHeap.Heap.GrowBlock | processes-as-threads/heaplayers/coalesceableheap.h:269-326 | a block from fresh memory writes at most two headers past its end, which the slop always covers |
| CoalesceHeap.Heap.Malloc | processes-as-threads/heaplayers/coalesceheap.h:47-59 | the new state is the carved block or the grown layout, and all tags, the coalescing and the tail are kept |
| CoalesceHeap.Heap.Free | processes-as-threads/heaplayers/coalesceheap.h:62-91 | the new state is the released block joined with the neighbours that are free, unless the first test fails, which happens exactly for the first block of a region behind a non-zero foreign word |
| CoalesceHeap.Heap.NeighboursAgree | processes-as-threads/heaplayers/coalesceheap.h:64-69 | when the first test of free succeeds |
| CoalesceHeap.Heap.WriteInside | processes-as-threads/heaplayers/coalesceableheap.h:107-111 | a client or the free list may write anything inside an object without disturbing the heap |
| DeployedHeap.XpHeap.Run | processes-as-threads/xpheap.h:128-162 | over any sequence of mallocs and frees on the 128 heaps, frees on other heaps included: exactly the mallocs that no later free names hold an object; the objects held are large enough, lie in the pages handed out, and share no byte with each other's bytes or headers; a freed object is in the bin of its class in the heap that the free named until a malloc obtains it again, and in use only if a later malloc holds it; the run ends early only at a malloc with an empty bin, no room in the arena and too few pages left |
| DeployedTrace.LiveIsHeld | processes-as-threads/xpheap.h:128-162 | an object that was freed in a run and is in use at its end is held by a later malloc |
| DeployedTrace.FreedAfterMalloc | processes-as-threads/heaplayers/segheap.h:313-330 | a malloc takes no other freed object out of its bin |
| DeployedTrace.FreedAfterFree | processes-as-threads/heaplayers/segheap.h:332-357 | a free leaves every other freed object in its bin |
| DeployedHeap.XpHeap.Malloc | processes-as-threads/heaplayers/segheap.h:313-330 | a malloc returns an object that was not in use, of the size of its class; from the bin of its class when there is something in it, which takes no page, else new, which takes none either while the arena has room for the object and its header; everything in use keeps its size and bytes |
| DeployedHeap.XpHeap.Free | processes-as-threads/heaplayers/segheap.h:332-357 | a free puts a small object at the front of the list of its own class in the heap that was named, drops a large one, and touches no byte of any object in use |
| DeployedHeap.XpHeap.Realloc | processes-as-threads/xmemory.h:100-111 | realloc always moves, copies the common part, frees the old object into the bin of its class or drops it, and keeps everything else; of NULL it is a malloc |
| DeployedHeap.XpHeap.SizeIsRecorded | processes-as-threads/heaplayers/ansiwrapper.h:81-87 | getSize is the size in the object's header, and 0 for NULL without reading a header |
| DeployedHeap.XpHeap.BigMalloc | processes-as-threads/xpheap.h:46-67 | a new object behind its header, written where no object is: next in the arena while it has room, at the front of new pages otherwise |
| DeployedHeap.XpHeap.Refill | processes-as-threads/heaplayers/zoneheap.h:64-100 | nothing changes while the arena has as many bytes left; otherwise the new arena has exactly the larger of the request and 1048576 behind its header, in pages that exceed both by less than a page |
| DeployedHeap.XpHeap.SourceMalloc | processes-as-threads/xheap.h:88-115 | whole pages from the bump pointer |
| DeployedHeap.XpHeap.Store | processes-as-threads/objectheader.h:35-57 | what a program stores in its object reaches no header, no free list and no other object |
| DeployedHeap.XpHeap.Copy | processes-as-threads/xmemory.h:104-107 | the first bytes are copied and nothing else changes |
| DeployedHeap.XpHeap.FloorClass | processes-as-threads/heaplayers/segheap.h:345-348 | the loop that lowers the class ends at the highest class that the size covers |
| DeployedHeap.ObjectSizeCovers | processes-as-threads/heaplayers/ansiwrapper.h:26-36 | the minimum size, the rounding and the class size together cover every request, and the class is the same again for the object |
| DeployedHeap.ObjectSizeIsLeast | processes-as-threads/heaplayers/ansiwrapper.h:26-36 | the object has the least class size that covers the request and sixteen bytes, and above all classes the next multiple of eight |
| DeployedHeap.NewObject | processes-as-threads/xpheap.h:46-67 | one step of carving an object keeps placement, headers, lists and everything in use |
| DeployedHeap.FreedObject | processes-as-threads/heaplayers/adapt.h:50-53 | one step of freeing keeps headers, lists and everything in use |
| DeployedSpec.Carve | processes-as-threads/heaplayers/zoneheap.h:110-119 | carving keeps objects, their headers and the unused parts of all arenas disjoint and inside the pages |
| DeployedSpec.NewArena | processes-as-threads/heaplayers/zoneheap.h:74-99 | replacing an arena by new pages keeps them disjoint |
| DeployedSpec.ObjectsDisjoint | processes-as-threads/xpheap.h:46-67 | no byte belongs to two objects, headers included, and all are inside the pages |
| DeployedSpec.FreedInOneBin | processes-as-threads/heaplayers/segheap.h:341-354 | a freed small object is at exactly one place of exactly one list of exactly one heap, under its own class |
| DeployedSpec.BinningsAfterGet | processes-as-threads/heaplayers/util/sllist.h:55-62 | taking the head of a list through the link in memory |
| DeployedSpec.BinningsAfterPut | processes-as-threads/heaplayers/util/sllist.h:77-80 | inserting at the head of a list by writing the link into the object |
| DeployedSpec.StoreInside | processes-as-threads/objectheader.h:35-57 | a store inside an object changes no header and no other object |
| DeployedSpec.ChainKept | processes-as-threads/heaplayers/util/sllist.h:47-80 | a free list survives writes that spare its objects |
| Kingsley.Size2Class | processes-as-threads/heaplayers/kingsleyheap.h:65-100 | the table and the shifting loop compute the class |
| Kingsley.ClassSizeIsLeast | processes-as-threads/heaplayers/kingsleyheap.h:65-104 | the class size is the least power of two that is at least the size and 8 |
| Kingsley.ClassOfClassSize | processes-as-threads/heaplayers/kingsleyheap.h:65-104 | the class of a class size is the class, so free finds the bin that malloc used |
| Kingsley.ClassExists | processes-as-threads/heaplayers/kingsleyheap.h:102-106 | every size up to 2^31 has one of the 29 classes |
| SegHeap.SegHeap.Malloc | processes-as-threads/heaplayers/segheap.h:97-152 | the bitmap search returns an object of the lowest non-empty bin at or above the class, and the big heap's when there is none; it ends, and the object is large enough, for any class functions that cover, and for every request whose class is in range |
| SegHeap.SegHeap.Reach | processes-as-threads/heaplayers/segheap.h:115-124 | where a search goes on that the current word does not reach: everything skipped is empty |
| SegHeap.SegHeap.ScanBlock | processes-as-threads/heaplayers/segheap.h:126-132 | the bit loop finds the first marked bin of a word and never shifts the bit out |
| SegHeap.SegHeap.NextBlock | processes-as-threads/heaplayers/segheap.h:116-124 | the skipped words summarise empty bins only |
| SegHeap.SegHeap.TryBin | processes-as-threads/heaplayers/segheap.h:133-143 | a marked bin that is empty is unmarked, and only it |
| SegHeap.SegHeap.Free | processes-as-threads/heaplayers/segheap.h:155-186 | the object goes to the highest class from its own downwards that it is large enough for, and the bin is marked |
| SegHeap.SegHeap.Remove | processes-as-threads/heaplayers/adapt.h:56-59 | an object is taken out of its bin; a mark that stays behind is allowed |
| SegHeap.SegHeap.Clear | processes-as-threads/heaplayers/segheap.h:189-199 | all bins are empty and unmarked |
| SegHeap.RestOfBlock | processes-as-threads/heaplayers/segheap.h:115-116 | when the bit exceeds the word, or has left it, the rest of the block is empty |
| SegHeap.BlockIsEmpty | processes-as-threads/heaplayers/segheap.h:116-121 | a zero word stands for empty bins |
| SegHeap.SummaryOfMarked | processes-as-threads/heaplayers/segheap.h:235-237 | marking keeps the summary right for every other bin |
| SegHeap.SummaryOfUnmarked | processes-as-threads/heaplayers/segheap.h:239-241 | unmarking an empty bin keeps the summary right for every other bin |
| BinMap.MarkedBits | processes-as-threads/heaplayers/segheap.h:235-237 | marking sets one bit and no other |
| BinMap.UnmarkedBits | processes-as-threads/heaplayers/segheap.h:239-241 | unmarking clears one bit and no other |
| BinMap.BelowBit | processes-as-threads/heaplayers/segheap.h:115-115 | a word below a bit has no bit from there on |
| BinMap.KeepsReaching | processes-as-threads/heaplayers/segheap.h:126-130 | while the word reaches the bit and the bit is clear, it reaches the next one |
| DLBigClasses.HigherClassesCover | processes-as-threads/heaplayers/dlheap.h:274-341 | no class at or above the class of a size has a smaller size, although classes are not monotone |
| DLBigClasses.ClassCovers | processes-as-threads/heaplayers/dlheap.h:304-341 | every size from 1 to 2^31 has a class of the table, and it covers the size |
| DLBigClasses.ClassIsLeast | processes-as-threads/heaplayers/dlheap.h:304-341 | the class of a size is the least that covers it up to 2112 and above 10752, and six above the least between them |
| DLBigClasses.ClassesAreNotMonotone | processes-as-threads/heaplayers/dlheap.h:304-341 | a larger size with a lower class |
| DLBigClasses.TableIsClosedForm | processes-as-threads/heaplayers/dlheap.h:236-300 | the table of 132 sizes is the closed form that the source keeps beside it |
| DLBigClasses.TableGrows | processes-as-threads/heaplayers/dlheap.h:236-253 | the table grows |
| DLBigClasses.Log2Brackets | processes-as-threads/heaplayers/dlheap.h:262-270 | the logarithm brackets its argument between powers of two |
| DLBigHeap.ZeroHasNoClass | processes-as-threads/heaplayers/dlheap.h:304-307 | the size class of no bytes wraps around to one past the last bin |
| DLBigClasses.ComputeLog2 | processes-as-threads/heaplayers/dlheap.h:262-270 | the shifting loop computes it |
| DLBigHeap.NewHeap | processes-as-threads/heaplayers/dlheap.h:386-394 | the segregated-fits heap with these classes meets what the search asks |
| Treap.Treap.Insert | processes-as-threads/heaplayers/experimental/treap.h:373-443 | adds exactly one entry and keeps search order, heap order and all parent and child pointers |
| Treap.Treap.Remove | processes-as-threads/heaplayers/experimental/treap.h:62-117 | removes exactly one entry and keeps all of them; the rotations end because the node's subtree shrinks |
| Treap.Treap.FindPlace | processes-as-threads/heaplayers/experimental/treap.h:384-408 | the walk ends at a free place where the new key fits between all ranks |
| Treap.Treap.Raise | processes-as-threads/heaplayers/experimental/treap.h:427-436 | one rotation up: the new node's subtree grows and only the edge above it stays open |
| Treap.Treap.Sink | processes-as-threads/heaplayers/experimental/treap.h:74-92 | one rotation down: the doomed node's subtree shrinks and only the edge above it stays open |
| Treap.Treap.RotateLeft | processes-as-threads/heaplayers/experimental/treap.h:236-268 | the pointer writes of a left rotation, in the source's order, compute the rotated memory and root |
| Treap.Treap.RotateRight | processes-as-threads/heaplayers/experimental/treap.h:271-303 | the same for a right rotation |
| Treap.Treap.Lookup | processes-as-threads/heaplayers/experimental/treap.h:306-328 | finds a node with the key exactly when there is one |
| Treap.Treap.LookupGeq | processes-as-threads/heaplayers/experimental/treap.h:339-370 | the minimum key that is at least the given one over the whole treap, with duplicates |
| TreapShape.TreeAfterLeft | processes-as-threads/heaplayers/experimental/treap.h:236-268 | a left rotation keeps pointers, root, ranks and the gaps between them |
| TreapShape.TreeAfterRight | processes-as-threads/heaplayers/experimental/treap.h:271-303 | a right rotation keeps them, by mirror image |
| TreapShape.RightIsMirroredLeft | processes-as-threads/heaplayers/experimental/treap.h:236-303 | a right rotation is the mirror image of a left rotation |
| TreapLeaves.TreeAfterAttach | processes-as-threads/heaplayers/experimental/treap.h:410-425 | hanging a leaf on a free side, or as the root, keeps the tree |
| TreapLeaves.TreeAfterClip | processes-as-threads/heaplayers/experimental/treap.h:94-105 | clipping a leaf keeps the tree |
| TreapLeaves.LonelyRoot | processes-as-threads/heaplayers/experimental/treap.h:95-99 | a leaf without a parent is the only node, so the asserted root test holds |
| TreapOrder.SortedAfterLift | processes-as-threads/heaplayers/experimental/treap.h:236-303 | rotations keep the non-strict search order |
| TreapOrder.LiftingNew | processes-as-threads/heaplayers/experimental/treap.h:427-436 | lifting the new node above a larger priority leaves one open edge |
| TreapOrder.LiftingSmaller | processes-as-threads/heaplayers/experimental/treap.h:74-92 | lifting the child of smaller priority leaves one open edge |
| TreapOrder.LiftMovesSubtree | processes-as-threads/heaplayers/experimental/treap.h:74-92 | a rotation gives the upper node's subtree to the lifted one and a smaller one to the other |
| TreapOrder.HeapPropertyIsHeapOrder | processes-as-threads/heaplayers/experimental/treap.h:187-208 | for every lower bound, the recursive heap check accepts exactly the treaps in heap order whose root's priority is at least the bound |
| TreapOrder.HeapPropertyAtIntMin | processes-as-threads/heaplayers/experimental/treap.h:441 | called with INT_MIN, as unsigned 2^31, the heap check accepts exactly the treaps in heap order whose root's priority is at least 2^31 |
| TreapOrder.BstPropertyIsSorted | processes-as-threads/heaplayers/experimental/treap.h:211-232 | for every two bounds, the recursive search-order check accepts exactly the treaps in search order whose keys all lie between the bounds |
| TreapOrder.BstPropertyAtIntMin | processes-as-threads/heaplayers/experimental/treap.h:442 | called with INT_MIN and INT_MAX, at any width of an unsigned key from 32 bits on, the search-order check accepts exactly the empty treap |
| CartesianHeap.CartesianHeap.Malloc | processes-as-threads/heaplayers/experimental/cartesianheap.h:26-39 | best fit: a free object that is at least as large as asked whenever there is one, the smallest such, and exactly it leaves the free set; else the super heap's object and an unchanged free set; either is large enough for the request and for a node |
| CartesianHeap.CartesianHeap.Release | processes-as-threads/heaplayers/experimental/cartesianheap.h:41-46 | the object joins the free set as its own node, keyed by its size |
| CartesianHeap.CartesianHeap.Remove | processes-as-threads/heaplayers/experimental/cartesianheap.h:49-51 | exactly the object leaves the free set |
| RecursiveLock.MutualExclusion | processes-as-threads/heaplayers/util/recursivelock.h:39-66 | in every reachable state of every interleaving at most one thread is inside, and count and tid are its depth and id |
| RecursiveLock.TidTestIsExact | processes-as-threads/heaplayers/util/recursivelock.h:41-55 | the unsynchronised test succeeds exactly for the thread that holds the lock |
| RecursiveLock.OnlyOutermostUnlockReleases | processes-as-threads/heaplayers/util/recursivelock.h:51-66 | the base lock is released only by the holder's outermost unlock, and a thread aborts exactly when it unlocks without holding the lock |
| RecursiveLock.DepthCountsCalls | processes-as-threads/heaplayers/util/recursivelock.h:39-66 | the nesting depth is the number of locks minus unlocks over the run |
| RecursiveLock.OwnerIsUndisturbed | processes-as-threads/heaplayers/spinlock.h:82-131 | while a thread holds the lock, no step of another changes tid, count or the lock word |
| RecursiveLock.StepKeepsInv | processes-as-threads/heaplayers/util/recursivelock.h:39-66 | every single read or write of any thread keeps the invariant |
| RecursiveLock.RunsKeepInv | processes-as-threads/heaplayers/spinlock.h:82-131 | so does every run of any number of threads |
| RecursiveLock.FreeLockIsTaken | processes-as-threads/heaplayers/spinlock.h:82-131 | progress: from every reachable state in which the lock is free, a thread anywhere inside a call to lock, waiting or not, holds it after at most six steps of its own |
| RecursiveLock.HolderReturns | processes-as-threads/heaplayers/util/recursivelock.h:39-66 | progress: the holder, anywhere inside a call, returns after at most six steps of its own, one level deeper from lock, one higher from unlock, and with the lock free from the outermost unlock |
| RecursiveLock.ExchangeOnlyWithThreads | processes-as-threads/heaplayers/spinlock.h:82-91 | the atomic exchange is used only once a thread was created, the plain store only before, by the first thread |
| AddressOrderedHeap.AddressOrderedHeap.Malloc | processes-as-threads/heaplayers/experimental/aoffheap.h:51-112 | first fit; the rest stays free, begins where the object ends, and 16 bytes are lost per split, counted exactly; the branch that aborts is never reached |
| AddressOrderedHeap.AddressOrderedHeap.Free | processes-as-threads/heaplayers/experimental/aoffheap.h:114-160 | the free list covers what it did and the freed object, minus a block handed to the super heap, which is at least the threshold; freeing the front of a free block does nothing |
| AddressOrderedHeap.AddressOrderedHeap.Coalesce | processes-as-threads/heaplayers/experimental/aoffheap.h:137-149 | joins with both neighbours keep coverage and bytes and leave no block touching the next |
| AddressOrderedHeap.AddressOrderedHeap.ReleaseIfLarge | processes-as-threads/heaplayers/experimental/aoffheap.h:150-158 | the block goes to the super heap exactly when it is large |
| AddressOrderedHeap.SoundAfterSplit | processes-as-threads/heaplayers/experimental/aoffheap.h:79-97 | a split keeps the list sorted, disjoint and coalesced, the links of the small rest included |
| AddressOrderedHeap.SettledAfterInsert | processes-as-threads/heaplayers/experimental/aoffheap.h:132-136 | insertion at the place found keeps the list sorted and disjoint |
| AddressOrderedHeap.SettledAfterJoin | processes-as-threads/heaplayers/experimental/aoffheap.h:188-197 | a join closes the gap on one side |
| AddressOrderedHeap.SplitBytes | processes-as-threads/heaplayers/experimental/aoffheap.h:79-97 | a split conserves the bytes but the difference of the two headers |
| AddressOrderedHeap.JoinBytes | processes-as-threads/heaplayers/experimental/aoffheap.h:188-197 | a join conserves the bytes |
| XallocHeap.XallocHeap.Malloc | processes-as-threads/heaplayers/xallocHeap.h:48-60 | the new block at the end stays in the arena exactly when the rounded request fits; a failed request moves the end, and then every request fails |
| XallocHeap.XallocHeap.Free | processes-as-threads/heaplayers/xallocHeap.h:62-84 | the block becomes free; the maximal free tail goes, exactly when it was the last block, and no other block is lost |
| XallocHeap.XallocHeap.Collapse | processes-as-threads/heaplayers/xallocHeap.h:68-83 | the backward loop over the size words ends at the last block in use or the start |
| XallocHeap.OverrunExample | processes-as-threads/heaplayers/xallocHeap.h:51-54 | a request of 55 bytes in an arena of 64 passes the check and leaves the arena |
| XallocHeap.DeadEndExample | processes-as-threads/heaplayers/xallocHeap.h:50-54 | one failed request on an empty heap makes every one of any number of later requests fail, whatever their sizes |
| XallocHeap.TiledAfterNew | processes-as-threads/heaplayers/xallocHeap.h:55-58 | the header writes of malloc keep the tiling |
| XallocHeap.TiledAfterClear | processes-as-threads/heaplayers/xallocHeap.h:104-106 | clearing a use bit changes no size |
| XallocHeap.PreviousBlock | processes-as-threads/heaplayers/xallocHeap.h:92-94 | the back link leads to the block in front, and from the first to itself |
| DynStack.DynStack.Push | processes-as-threads/heaplayers/obstackreap.h:139-142 | refines a sequence stack; over any run at most two elements are copied per call, and one; the array is never longer than four times what is in use and one |
| DynStack.DynStack.Pop | processes-as-threads/heaplayers/obstackreap.h:144-153 | the same for pop, which answers 0 on the empty stack; the array is never longer than four times what is in use and one |
| DynStack.DynStack.Top | processes-as-threads/heaplayers/obstackreap.h:155-161 | the last element, 0 on the empty stack |
| DynStack.DynamicArray.Reach | processes-as-threads/heaplayers/util/dynarray.h:73-97 | growth keeps the elements and counts what it copies |
| DynStack.DynamicArray.Trim | processes-as-threads/heaplayers/util/dynarray.h:104-126 | trimming keeps the elements in use and counts what it copies |
| QuickLists.Threshold.Malloc | processes-as-threads/heaplayers/dlheap.h:149-166 | in-use counts the live bytes and the peak is their maximum; the bins hold at most 16384 bytes and half the peak, and lose at most the object returned |
| QuickLists.Threshold.Free | processes-as-threads/heaplayers/dlheap.h:189-196 | the bins keep the object as long as what was freed into them stays within 16384 bytes and half the peak, and nothing once it exceeds them; the counter never underflows |
| QuickLists.StrictSegHeap.Malloc | processes-as-threads/heaplayers/segheap.h:313-330 | only from the bin of its class; the object is large enough |
| QuickLists.StrictSegHeap.Free | processes-as-threads/heaplayers/segheap.h:332-357 | the object goes to the front of the bin of the highest class, from its own downwards, that it is large enough for, and no other bin changes; the bytes in the bins never exceed memoryHeld |
| QuickLists.StrictSegHeap.FreeAll | processes-as-threads/heaplayers/segheap.h:292-306 | everything in the bins, and nothing else, goes to the big heap |
| ObstackHeap.ObstackHeap.Free | processes-as-threads/heaplayers/obstackheap.h:121-147 | freeing an object, finished or still growing, leaves exactly the objects before it, in their chunks, if and only if no newer chunk begins at its address; else the class invariant is broken |
| ObstackHeap.AmbiguousExample | processes-as-threads/heaplayers/obstackheap.h:121-134 | an empty object at the end of a chunk that another chunk follows directly breaks it |
| ObstackHeap.ObstackHeap.Malloc | processes-as-threads/heaplayers/obstackheap.h:91-116 | the new object follows all others, in a new chunk exactly when there is no room; the chunk has room for the object and no less than any, rounded up to eight bytes |
| ObstackHeap.ObstackHeap.Grow | processes-as-threads/heaplayers/obstackheap.h:65-88 | the current object keeps its bytes across a move and gets the room it asks for; finished objects keep theirs |
| ObstackHeap.ObstackHeap.CopyToNew | processes-as-threads/heaplayers/obstackheap.h:240-275 | the new chunk has room for the object, the extension, an eighth of the object and a hundred bytes |
| ObstackHeap.ObstackHeap.Finalize | processes-as-threads/heaplayers/obstackheap.h:156-161 | the aligned end stays within the chunk |
| ObstackHeap.ObstackHeap.FreeAll | processes-as-threads/heaplayers/obstackheap.h:121-147 | freeing NULL empties the obstack, which gets a first chunk as at the start |
| ObstackHeap.ObstackHeap.constructor | processes-as-threads/heaplayers/obstackheap.h:43-49 | the first chunk has the chunk size behind its header |
| ObstackHeap.FoundChunk | processes-as-threads/heaplayers/obstackheap.h:125-130 | where the search over the chunks stops |
| ObstackHeap.LeftObjects | processes-as-threads/heaplayers/obstackheap.h:125-133 | the objects before the freed one are those the remaining chunks hold |
| AlignedSlotHeap.AlignedSlotHeap.Malloc | processes-as-threads/heaplayers/experimental/alignedchunk.h:353-370 | the slot was not in use, and a chunk is released only when all its slots are; new memory is used only when no chunk is kept |
| AlignedSlotHeap.AlignedSlotHeap.Release | processes-as-threads/heaplayers/experimental/alignedchunk.h:374-383 | a chunk goes back exactly when it was released and its last slot in use returns; it is kept unless too many are |
| AlignedSlotHeap.AlignedSlotHeap.Acquire | processes-as-threads/heaplayers/experimental/alignedchunk.h:276-300 | a kept chunk is reused before new memory, and either is empty |
| AlignedSlotHeap.AlignedSlotHeap.GiveBack | processes-as-threads/heaplayers/experimental/alignedchunk.h:303-314 | the list of kept chunks grows by one, or the chunk goes |
| AlignedSlotHeap.AfterFree | processes-as-threads/heaplayers/experimental/alignedchunk.h:374-383 | what freeing a slot leaves, for chunks being filled, kept and released |
| AlignedSlotHeap.AfterTake | processes-as-threads/heaplayers/experimental/alignedchunk.h:353-370 | addresses of slots in use are distinct, over all chunks |
| AlignedChunk.AlignedChunk.GetSlot | processes-as-threads/heaplayers/experimental/alignedchunk.h:122-158 | the free slot of the lowest bit; none exactly when all 31 are in use |
| AlignedChunk.AlignedChunk.PutSlot | processes-as-threads/heaplayers/experimental/alignedchunk.h:162-192 | frees the slot at the address and tells whether the chunk is empty |
| AlignedChunk.SlotIsFound | processes-as-threads/heaplayers/experimental/alignedchunk.h:150-170 | from the address of a slot the masking and the division find its chunk and its bit again |
| AlignedChunk.SlotsApart | processes-as-threads/heaplayers/experimental/alignedchunk.h:150-153 | different slots do not overlap |
| AlignedChunk.NoSlots | processes-as-threads/heaplayers/experimental/alignedchunk.h:178-188 | the bitmap is the empty one exactly when no slot is in use |
| AlignedChunk.AllSlots | processes-as-threads/heaplayers/experimental/alignedchunk.h:124-130 | all bits are set exactly when all slots are in use |
| BitIndex.LowestClearIndex | processes-as-threads/heaplayers/experimental/alignedchunk.h:131-136 | the bit trick and msb together find the lowest clear bit |
| BitIndex.MsbIsHighest | processes-as-threads/heaplayers/util/bitindex.h:72-99 | for every word but zero, the binary search by shifts and the table find the index of its highest bit |
| BitIndex.MsbOfOneHot | processes-as-threads/heaplayers/util/bitindex.h:72-99 | and of a word with a single bit, that bit |

## Left out

- Integer widths: sizes, counters and addresses are unbounded, so the 30-bit field of the previous size, the overflow of rounding near the largest size and of `calloc` products, and the casts of pointers to `int` are not modelled. The words of the bitmaps and the 32-bit priority that an address is cut to are modelled.
- The mmapped bit of a header: no operation modelled here tests it.
- The first header of a new region: its previous-size and previous-status fields are taken to read as zero, which fresh memory from the system does.
- The dictionary under the coalescing heap: any set that hands out a fitting free block; the list removal in `util/dllist.h` does not implement one.
- The bins of `SegHeap`: each is a set, because the search does not depend on the order within a bin. Those of the deployed stack are lists in memory.
- BstPropertyIsSorted: keys of 32 bits, as the `int` bounds of the check hold them; how a wider key is cut when it is passed on as a bound is not modelled.
- Requests whose size class is out of range, which the source asserts against: `SegHeap` asks that a request of zero bytes has a class in range.
- The word in front of a region: each free on the class `Heap` is handed what it reads; the theorems over runs take it to stay the same for a region.
- Chunks of a loose slot heap that come back from the super heap partly in use: the source asserts that there are none.
- Slots of a `BigChunk` are named by their position; the masking from an address to a chunk is modelled for aligned chunks.
- Concurrency is modelled for the lock only. The heaps are sequential: whole operations of any number of heaps interleave in `Run`, but two threads whose ids map to the same heap could interleave within one.
- The spin lock's memory is sequentially consistent. It promises no fairness: progress is stated for a thread that runs alone once the lock is free, not for one that others keep overtaking.
- The compare loops around the exchanges of `AlignedChunk`: without interference the first try succeeds.
- Arena headers as words in memory, and the list of past arenas, which only the destructor reads.
- The free list of `AddressOrderedHeap` is a sequence; its links are modelled by the bytes they need, not by their values. Its sentinel is taken to lie next to no object.
- Chunks of an obstack and kept chunks of `AlignedSlotHeap` are sequences, in the order of their links.
- `memalign` of the deployed stack, which returns an unaligned object of the enlarged size, and `calloc`.
- `clear` of `DynStack`, which frees the array without forgetting the number of items.
- The lookup that calls the best-fit search from the root, `lookupGreater_`, adds nothing to it.
- Destructors, statistics, logging, wrappers, the other heap layers, and everything about spawning and joining threads.
