# twingate_alloc in Dafny

This is a model of twingate_alloc, a first-fit arena allocator over a single byte buffer. The
allocator's state is a list of chunks that partitions the buffer. Each chunk is a span
`offset .. offset + size` and is either free or occupied.

There are two allocators over that list:

- **`BufferMemoryManager`** (`memorymanager.dfy`) hands out handles that hold the chunk object
  itself.
  - `Free` finds the chunk by identity and refuses a chunk that is already free.
  - After a free, every maximal run of free chunks is joined into its first chunk.
  - `Defrag` slides the occupied chunks down to the start of the buffer and moves their bytes
    with them. A single free chunk then holds whatever is left.
- **`BufferAllocator`** (`allocator.dfy`) is the earlier version. It hands out plain pointers
  (a location and a size), frees the first chunk with the same location and size, and does not
  check for double frees. Its routine that collects the free groups is modelled as written,
  defect included (see Findings).

Both classes are imperative, in the same way as the Python code:

- `chunks` is a `seq<Chunk>` of objects whose `offset`, `size` and `free` fields the methods
  update in place.
- The buffer is an `array<byte>`.
- A ghost `regions: seq<Region>` mirrors the chunk fields as values.
- Each method is proved against pure specification functions on `regions`:

  | Function | Role |
  |---|---|
  | `Placement.FirstFit` and `Placement.Place` | allocation |
  | `Coalescing.Coalesce` | the memory manager's join |
  | `Joining.AllocatorJoined` | the earlier allocator's join |
  | `Compaction.Compact` and `Compaction.CompactBytes` | defragmentation |

- Lemmas about those functions prove the properties the allocator promises: partition, free
  bytes, no two free neighbours, idempotence, and bytes that move with their chunk.

Other modules:

| Module | File | What it holds |
|---|---|---|
| `Chunks` | `chunk.dfy` | the chunk record |
| `Pointers` | `pointer.dfy` | the pointer handle |
| `Bytes` | `bytes.dfy` | Python's slice read and memoryview slice assignment |
| `Errors` | `errors.dfy` | the exceptions, as an error datatype |
| `Layout` | `layout.dfy` | regions and partitions |
| `ChunkLists` | `chunklists.dfy` | frame lemmas for list edits |
| `Joining` | `joining.dfy` | the join: the size pass and then deletion from the last marked index back |
| `Scenarios` | `scenarios.dfy` | the repository's test scenarios as lemmas and methods |

## Model

| member | source | states |
|---|---|---|
| Chunks.Chunk.constructor | twingatealloc/chunk.py:6-10 | a chunk has the given offset and size, and is free when no `free` argument is given |
| Chunks.Chunk.ReadFrom | twingatealloc/chunk.py:15-21 | a chunk inside `mem` reads exactly `mem[offset..offset+size]`; a chunk running past the end reads exactly the `mem.Length - offset` bytes from its offset to the end (none when it starts at or past the end), each from its own position |
| Chunks.FitsInReadsWhole | twingatealloc/chunk.py:12-21 | a chunk of positive size fits in `mem` iff it reads all of its `size` bytes |
| Chunks.Chunk.WriteTo | twingatealloc/chunk.py:23-31 | a longer value fails with InvalidWrite; otherwise the write passes exactly when the value is as long as the clamped span the chunk reads, so a value exactly `size` long into a chunk inside `mem` is spliced in and reads back, a shorter one fails with ValueError, and a chunk running past the end accepts only a value as long as its in-bounds part; a passing non-empty write is a splice at `offset`; a failure or an empty value changes nothing; no byte outside the span changes |
| Bytes.Slice | twingatealloc/chunk.py:21 | Python's `s[lo:hi]`: in bounds it is the subsequence; otherwise its length is `min(hi, |s|) - lo` when that is positive and 0 otherwise, and each byte comes from its own index |
| Bytes.AssignSlice | twingatealloc/chunk.py:31 | memoryview slice assignment passes iff the value has as many bytes as the clamped slice, then writes exactly those bytes; otherwise it is ValueError and changes nothing |
| Bytes.ReadBackSplice | twingatealloc/pointer.py:12-27 | reading back a span just written gives the written value |
| Pointers.Pointer.Create | twingatealloc/pointer.py:29-34 | fails with InvalidPointer iff `len(view) < loc + size`; otherwise the new pointer holds the view, location and size and lies inside the view |
| Pointers.Pointer.constructor | twingatealloc/pointer.py:29-34 | the fields are set once (they are constants) and the span lies inside the view |
| Pointers.Pointer.Read | twingatealloc/pointer.py:22-27 | a valid pointer reads `view[loc..loc+size]` |
| Pointers.Pointer.Write | twingatealloc/pointer.py:12-20 | a longer value fails with InvalidWrite; a value exactly `size` long is spliced in and reads back; a shorter one fails with ValueError; no byte outside the span changes |
| Placement.FirstFit | twingatealloc/memorymanager.py:45-50 | the lowest index whose chunk is free and large enough, or None when no chunk is |
| Placement.PlaceAllocates | twingatealloc/memorymanager.py:52-68 | placing touches chunk `i` only: it becomes `[offset, offset+size)` occupied, a split inserts the free rest right after it, and the list grows by one exactly on a split |
| Placement.PlaceKeepsPartition | twingatealloc/memorymanager.py:56-68 | placing keeps the chunks a partition of the buffer |
| Placement.PlaceTakesFreeBytes | twingatealloc/memorymanager.py:52-68 | placing removes exactly `size` bytes from the free bytes |
| Placement.PlaceKeepsNoAdjacentFree | twingatealloc/memorymanager.py:52-68 | placing does not create two free neighbours |
| MemoryManager.BufferMemoryManager.constructor | twingatealloc/memorymanager.py:34-38 | the chunk list is one free chunk `[0, len(buffer))` and the invariant holds |
| MemoryManager.BufferMemoryManager.FindFreeChunk | twingatealloc/memorymanager.py:40-71 | the first-fit chunk is returned and the list becomes `Place` of the old one, with the chunk objects before and after it kept; OutOfMemory leaves everything unchanged; the invariant is kept |
| MemoryManager.BufferMemoryManager.TakeWhole | twingatealloc/memorymanager.py:53-55 | on an exact fit only the chunk's `free` flag changes, and the list is the same objects |
| MemoryManager.BufferMemoryManager.Split | twingatealloc/memorymanager.py:56-68 | the chunk shrinks and turns occupied, and a fresh free chunk is inserted at `i + 1`; the other objects keep their places |
| MemoryManager.BufferMemoryManager.Alloc | twingatealloc/memorymanager.py:73-75 | fails with OutOfMemory iff no chunk fits, changing nothing; otherwise a fresh handle on the first-fit chunk object |
| MemoryManager.ChunkPointer.constructor | twingatealloc/memorymanager.py:75 | the handle holds the buffer and the chunk object |
| MemoryManager.ChunkPointer.Read | twingatealloc/memorymanager.py:75 | the handle reads its chunk's bytes at the chunk's current offset |
| MemoryManager.ChunkPointer.Write | twingatealloc/memorymanager.py:75 | a write through the handle is the chunk's write: longer values fail with InvalidWrite; otherwise it passes exactly when the value is as long as the clamped span, exact-length values into a chunk inside the view are spliced in and read back, shorter ones fail with ValueError; a failure changes nothing and no byte outside the chunk's span changes |
| Coalescing.RunEnd | twingatealloc/memorymanager.py:107-117 | the end of the maximal free run starting at a free chunk: every chunk before it is free, and it is the end of the list or an occupied chunk |
| Coalescing.FreeRunsAreMaximalRuns | twingatealloc/memorymanager.py:101-123 | the free groups are increasing, disjoint runs of free indices; each starts at 0 or after an occupied chunk and ends at the end or before an occupied chunk |
| Coalescing.FreeRunsCover | twingatealloc/memorymanager.py:101-123 | every free chunk lies in some free group |
| MemoryManager.BufferMemoryManager.FindFreeChunkGroups | twingatealloc/memorymanager.py:101-123 | the loop returns exactly the maximal runs of free chunks, in list order |
| MemoryManager.BufferMemoryManager.SizePass | twingatealloc/memorymanager.py:86-95 | the first chunk of each group of two or more takes the summed size of its group; the marked indices are the groups' tails; offsets and flags are unchanged |
| MemoryManager.BufferMemoryManager.DeletePass | twingatealloc/memorymanager.py:97-99 | deleting the marked indices from last to first removes exactly those entries from the list |
| Joining.JoinCorrect | twingatealloc/memorymanager.py:86-99 | for any list of runs, growing each run's head and then deleting the tails in reverse order merges each run into its head |
| Joining.JoinCoalesces | twingatealloc/memorymanager.py:77-123 | joining the free groups yields `Coalesce` of the list, which is still a partition with no two free neighbours |
| Joining.JoinKeeps | twingatealloc/memorymanager.py:97-99 | an occupied chunk is never deleted by the join |
| Coalescing.CoalesceFromKeepsOccupied | twingatealloc/memorymanager.py:77-99 | coalescing keeps the occupied chunks in order, and the total size |
| Coalescing.CoalesceKeepsFreeBytes | twingatealloc/memorymanager.py:77-99 | coalescing keeps the number of free bytes |
| Coalescing.CoalesceFromNoAdjacentFree | twingatealloc/memorymanager.py:77-99 | after coalescing, no two neighbours are free |
| Coalescing.CoalesceIdempotent | twingatealloc/memorymanager.py:77-99 | coalescing a coalesced list changes nothing |
| MemoryManager.BufferMemoryManager.JoinFreeChunks | twingatealloc/memorymanager.py:77-99 | the list becomes `Coalesce` of the old one, with no two free neighbours; no chunk is added, no occupied chunk leaves, and no offset or flag changes |
| MemoryManager.BufferMemoryManager.FindChunk | twingatealloc/memorymanager.py:126-128 | the index of the chunk object by identity, or the list length when it is absent |
| MemoryManager.BufferMemoryManager.Free | twingatealloc/memorymanager.py:125-139 | fails with InvalidPointer iff the chunk is not in the list or is already free, changing nothing; otherwise the list becomes `Coalesce` of the old list with that chunk freed, and every other occupied chunk stays occupied and in the list |
| Compaction.CompactTiles | twingatealloc/memorymanager.py:141-169 | the compacted list is a partition of the buffer with no two free neighbours |
| Compaction.CompactKeeps | twingatealloc/memorymanager.py:149-157 | compaction keeps the free bytes, and the occupied chunks are the old ones, in order, packed at offsets `0, s0, s0+s1, …` |
| Compaction.CompactMovesBytes | twingatealloc/memorymanager.py:155-156 | the bytes of each occupied chunk at its new offset are its bytes at its old offset |
| MemoryManager.BufferMemoryManager.Defrag | twingatealloc/memorymanager.py:141-169 | the list becomes `Compact` of the old one and the buffer becomes `CompactBytes`; the occupied chunk objects come first in order and read their old bytes; at most one fresh free chunk follows them |
| Allocators.BufferAllocator.constructor | twingatealloc/allocator.py:41-45 | the chunk list is one free chunk `[0, len(buffer))` |
| Allocators.BufferAllocator.FindFreeChunk | twingatealloc/allocator.py:47-78 | the first-fit chunk is returned at its old offset and the list becomes `Place` of the old one; OutOfMemory changes nothing; the partition is kept |
| Allocators.BufferAllocator.TakeWhole | twingatealloc/allocator.py:60-62 | on an exact fit only the chunk's `free` flag changes |
| Allocators.BufferAllocator.Split | twingatealloc/allocator.py:63-75 | the chunk shrinks and turns occupied, and a free chunk with the rest follows it; the partition is kept |
| Allocators.BufferAllocator.Alloc | twingatealloc/allocator.py:80-86 | fails with OutOfMemory iff no chunk fits; otherwise a fresh valid pointer with `loc` equal to the chunk's offset and `size` equal to the request |
| Allocators.FirstMatch | twingatealloc/allocator.py:137-139 | the lowest index whose chunk has the pointer's location and size, free or not, or None when there is none |
| Allocators.AllocatedIsFound | twingatealloc/allocator.py:80-86 | the chunk an allocation was placed in (or an earlier one with the same span) is found by the pointer's location and size |
| Allocators.SetFree | twingatealloc/allocator.py:141 | only the chosen chunk changes, and it turns free |
| Joining.AllocatorGroupsEmpty | twingatealloc/allocator.py:112-134 | the collected groups contain an empty group iff some free chunk has an occupied chunk on each side, or an occupied chunk before it and the end after it |
| Joining.AllocatorMergesHeadRun | twingatealloc/allocator.py:117-123 | a free run at index 0 is collected whole and merged into chunk 0 |
| Allocators.BufferAllocator.FindFreeChunkGroups | twingatealloc/allocator.py:112-134 | the loop returns exactly `AllocatorGroups` of the list (the collection as written) |
| Allocators.BufferAllocator.SizePass | twingatealloc/allocator.py:97-106 | groups are absorbed up to the first empty group; on reaching it the pass stops with IndexError |
| Allocators.BufferAllocator.DeletePass | twingatealloc/allocator.py:108-110 | deleting the marked indices from last to first removes exactly those entries |
| Joining.AllocatorJoinFails | twingatealloc/allocator.py:98-103 | the join stops with IndexError iff some free chunk is preceded by an occupied one and followed by an occupied one or the end |
| Joining.AllocatorJoinTiles | twingatealloc/allocator.py:88-110 | when the join runs through, the list is still a non-empty partition of the buffer |
| Joining.AllocatorJoinStops | twingatealloc/allocator.py:98-106 | when the join stops at an empty group, the list is left unchanged exactly when no earlier group grows its first chunk (`HeadGrows`), and a partition stays a partition exactly then: a grown chunk overlaps its neighbour, which is never deleted; an empty first group leaves the list as it was |
| Allocators.BufferAllocator.JoinFreeChunks | twingatealloc/allocator.py:88-110 | the list becomes `AllocatorJoined` of the old one; IndexError iff a group is empty, and then no chunk is deleted and the invariant holds exactly when no group before the empty one grew its first chunk; on success the partition holds |
| Allocators.BufferAllocator.Free | twingatealloc/allocator.py:136-146 | fails with InvalidPointer iff no chunk has the pointer's location and size, changing nothing; otherwise the first such chunk is marked free, whether or not it already was, and the list is joined, stopping with IndexError exactly when the join does, and then leaving a valid list exactly when no group grew |
| Scenarios.ManagerFreeing | twingatealloc/tests/test_buffer_memory_manager.py:26-57 | an empty buffer cannot serve one byte; on ten bytes, after alloc(5) the request for 10 fails, freeing joins the buffer back into one chunk, and after alloc(10) the request for 1 fails |
| Scenarios.ManagerFragmentation | twingatealloc/tests/test_buffer_memory_manager.py:60-75 | from the single free chunk, each of ten alloc(1) calls takes the next byte (`Filled`), and freeing chunks 1, 3, 5, 7 and 9 joins nothing (`Holed`), which gives ten one-byte chunks with the odd ones free: a partition with 5 free bytes, and alloc(2) finds no chunk |
| Scenarios.FreeTwice | twingatealloc/tests/test_buffer_memory_manager.py:78-86 | freeing a handle passes the first time and fails with InvalidPointer the second time |
| Scenarios.ManagerDefrag | twingatealloc/tests/test_buffer_memory_manager.py:89-114 | from ten zero bytes, writing "a" through each even one-byte chunk gives the striped buffer (`Painted`); defragmenting the list `ManagerFragmentation` reaches puts `aaaaa` first; alloc(5) then takes chunk 5, and writing `value` there gives `aaaaavalue` |
| Scenarios.AllocatorFreeing | twingatealloc/tests/test_buffer_allocator.py:26-50 | on ten bytes: alloc(5), then 10 fails; freeing the pointer restores one free chunk; alloc(10), then 1 fails |
| Scenarios.LoneFreeChunk | twingatealloc/allocator.py:117-124 | for an occupied chunk followed by a free one, the free runs are `[[1]]` but the collected groups are `[[]]`, so the join fails |
| Scenarios.AllocatorMissedJoin | twingatealloc/allocator.py:117-124 | freeing a middle chunk next to a free one leaves the two free chunks apart, so a 7-byte request fails although 7 bytes are free; freeing it again passes and changes nothing |
| Scenarios.FreeLast | twingatealloc/allocator.py:136-146 | freeing the second of two occupied five-byte chunks ends with IndexError, the second chunk left free and the list still valid |

## Left out

- The `memoryview` objects are not modelled. A pointer holds the buffer array itself, and the
  `release()` calls in `free` (twingatealloc/memorymanager.py:133, twingatealloc/allocator.py:140)
  have no counterpart. A released view that is used afterwards is not caught.
- Short writes are modelled as in the code, not as a prefix write: the memoryview slice
  assignment raises ValueError when the value is shorter than the span. Both write operations
  return that error and change nothing.
- Pointers.Pointer.Create: a negative `loc` or `size` cannot be expressed, because both are
  `nat`. Python would accept negative values with its own slice semantics.
- MemoryManager.BufferMemoryManager.Alloc: the request is a `nat`, so a negative request, which
  Python does not reject, is not modelled. Allocators.BufferAllocator.Alloc has the same
  limitation.
- MemoryManager.BufferMemoryManager.Defrag: the deletion of the free chunks is modelled as a
  filter on the `free` flag. The code's `list.remove` compares dataclasses by equality, and
  that equality-based removal is not modelled.
- MemoryManager.ChunkPointer stands for the `Pointer(view, chunk)` handle that
  twingatealloc/memorymanager.py:75 builds. That handle's class is not part of this model.
  twingatealloc/pointer.py's `Pointer` takes a location and a size instead.
- The allocator's own `Chunk` dataclass (twingatealloc/allocator.py:27-31) is modelled by
  `Chunks.Chunk`. The allocator always passes `free` explicitly, so the default does not matter.
- Allocators.BufferAllocator.FindFreeChunkGroups requires a non-empty chunk list. Python
  would raise IndexError at `self.chunks[0]` (twingatealloc/allocator.py:117) on an empty list,
  but the join runs only after `free` has found a chunk, so the list is never empty there.
- The abstract base classes `MemoryManager` and `Allocator` carry no behaviour and are not
  modelled.
- twingatealloc/exceptions.py is modelled only as the `Errors.Error` datatype.
- Thread-safety and alignment are not addressed by the code and are not modelled.

## Findings

| source | as written | input that shows it | evidently intended | confidence | as-written member | corrected member |
|---|---|---|---|---|---|---|
| twingatealloc/allocator.py:117-124 | `_find_free_chunk_groups` opens a group as `[]` when it meets a free chunk after an occupied one, so the group loses its first index. A lone free chunk gives an empty group, and `_join_free_chunks` then raises IndexError at `group[0]` (line 103). | Chunks `[(0,5,occupied), (5,5,free)]` give groups `[[]]` instead of `[[1]]`, so freeing the second of two five-byte allocations raises IndexError. Chunks `[(0,3,occupied), (3,3,free), (6,4,free)]` give `[[2]]`, so the free neighbours are never joined and alloc(7) fails. | Open the group with the current index, `group = [i]`, as twingatealloc/memorymanager.py:113 does. | not executed | Joining.AllocatorGroupsEmpty, Scenarios.LoneFreeChunk, Scenarios.AllocatorMissedJoin | MemoryManager.BufferMemoryManager.FindFreeChunkGroups, Joining.JoinCoalesces |
