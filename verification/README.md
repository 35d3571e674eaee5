# UDT: a verified model of its shared memory, buffers, protocols and codecs

This project models the parts of UDT where a mistake would not show in a single call, and proves what
they promise over all inputs and over whole runs.

**The shared-memory heap** (`Tiles`, `FreeList`, `ProcessTable`, `Registry`, `Leaks`, `SharedHeap`,
`HeapRuns`). The class `CSharedAllocator` is the allocator with its memory: block headers and process
nodes live in maps from offsets, links are offsets, and every list walk, split, merge and relocation is
done as in the source. Its meaning is a ghost row of tiles, each with an owner; `Valid()` says that
headers, free list, node list, entry arrays and back pointers all agree with that row. Every public
operation keeps `Valid()` and states which blocks it added or removed, and from the state before it, when
it cannot; `HeapRuns` follows any sequence of requests turn by turn.

**The buffer and its hand-over** (`Buffer`, `EventFifo`, `Holders`, `HandOff`, `Delivery`). `Buffer.CBuffer`
moves bytes in an array exactly as the five branches of the insertion do. `Exchange` holds handles, blocks with
use counts, and the queues of the receivers; its methods are copies, moves, releases, copy-on-write,
sends with their probes, receives and clean-up, in any interleaving. `event_fifo_t` is the ring that carries the
events. `Delivery` says what arrives over any run: first in, first out, byte for byte.

**JSON** (`ConfigTree`, `NormalForm`, `Json`, `JsonReader`, `JsonText`, `JsonRead`, `RoundTrip`). The writer is a
function to tokens, the reader a class with an explicit stack. The round trip is decided for every tree; every
text written is JSON that says what the tree holds; and which JSON objects the reader takes is decided for all.

**Two synchronisation protocols** (`Barrier`, `Condvar`): the reusable barrier and the
generation-counted condition variable, each method one critical section. A step and a run are functions
on states; the methods reach exactly those states, and the properties are proved of every run.

**Codecs and small algorithms**: CRC tables built by doubling (`Gf2`, `Crc`, `CrcBuffer`, `CrcLsb`, `CrcMirror`),
UTF-8 (`Utf8`), the glob matcher (`Glob`), program addresses (`Address`), the operation queue of the
thread pool (`OperationQueue`), the Internet checksum (`Checksum`). `Arithmetic` holds bytes and division.

`dafny verify dfyconfig.toml` checks everything.

## Where the code does not do what its documentation or its own checks say

Each of these is proved with an input that shows it, and with the exact condition under which the code
is right.

- Reserving a block at a fixed offset inside a free block adds a header that `FFreeBytesRemaining` does
  not pay for: `Tiles.AccountKeptWhen`, `Tiles.InteriorCutMiscounts`. The ghost `overcount` carries the
  error, and `HeapRuns.Run` says what it is after any run.
- Where no block can be had for a process node, `MGetOrCreateProcessNode` and `MGetOrRealocateProcessNode`
  write through a null pointer: exactly the states of `SharedHeap.WritesNull`, stated by both methods and by
  every allocation; `SharedHeap.HeapTooSmallForANode` constructs one.
- Inserting in front of a buffer whose head-room is used up leaves the block if everything must slide and the
  data are shorter than the insertion: the length of the second move wraps around (`CBuffer.cpp:862`), and where
  also head-room plus data are shorter than the insertion the first move reads before the storage. Apart from
  that an insertion leaves the block if and only if it needs a new one and head-room and data do not fit what is
  asked for: `Buffer.PrependingIsSafe`, `Buffer.AppendingIsSafe`, with `Buffer.PrependingCanOverrun` and
  `Buffer.LargeStartOutgrows`.
- Shrinking a buffer at the front moves the start and keeps the size: `Buffer.CBuffer.Resize`. The data begin with
  the bytes kept and stay inside the block if and only if the new start fits its 16 bits and enough bytes lie
  behind the data: `Buffer.FrontShrinkFits`; `Buffer.FrontShrinkLeaves` and `Buffer.FrontShrinkWraps` fail each way.
- A configuration with two wholly empty children in one node is written but cannot be read back:
  `RoundTrip.WriteThenRead`, `RoundTrip.TwoEmptyChildrenAreRefused`.
- A JSON text with an empty array, or with a second string under a key, which `MSet` would replace, fails the
  check at the end of its object: `JsonRead.ReadExactly`, `JsonRead.EmptyArrayIsRefused`,
  `JsonRead.SecondValueIsRefused`.
- The matcher misses texts for patterns that end in `**` or in `*` and a lone backslash:
  `Glob.ExactlyComplete`, `Glob.DoubleStarMisses`.
- Stepping back from position 0 of the event ring goes to the wrong place, except in a ring of 32768 places:
  `EventFifo.DecUndoesInc`, `EventFifo.StepBackMisses`; rings of more than 32767 events look empty when they are full:
  `EventFifo.FullIsNotEmpty`, `EventFifo.LargeRingLooksEmpty`.
- A waiter released by a broadcast can lose its release to later ones: `Condvar.BroadcastCanBeOvertaken`. At the
  end of a run every such waiter can still return if and only if the last notice was a broadcast, or a signal
  that found exactly one waiter without a release: `Condvar.PromiseKept`, `Condvar.ServedWaiterLeaves`,
  `Condvar.UnservedWaiterStays`.
- `MEraseAll` wakes nobody who waits for the queue to drain, which matters exactly when threads wait and no
  operation is invoked: `OperationQueue.StepKeeps`, `OperationQueue.EraseAllForgets`.
- The comment in `CSharedMemoryBaseImpl.cpp` (lines 358-361) says that the use count is raised before a send;
  the code instead keeps it and empties the handle, so a send drops the caller's reference exactly when it is
  refused after the overload test: `HandOff.SendKeeps`, `HandOff.RefusedSendLosesBytes`.

## Modelling decisions

- Offsets are the 64-bit build's: header 16 bytes, alignment 8, node 40 bytes, entry 8 bytes, null offset 2^63,
  heaps below 2^60 bytes so that no offset reaches the flag bits of a header word.
- `Outcome.NullNode` and `Outcome.TooManyEntries` are the places where the allocator writes through a null
  node, and where its check on the entry array (65535 entries) stops the program. Both end a run. The check
  (`CSharedAllocater.cpp:336`, 360) is there in debug builds only; without it the entry numbers would no longer
  fit their 16 bits, which is not modelled.
- One allocator object for each process (`current` caches its node): a second one in the same process would keep
  a pointer to a node that the first one has moved. The set of living processes is an input.
- Sizes of buffers of 2^32 and more, where the source stops at a check, and generations of the condition
  variable of 2^31 and more, where a signed number overflows, are not treated specially.
- What a clock, another process or an allocator answers is a parameter (`Probe`, `available`, `alive`), and so is
  what a build does after a fatal log (`stops`) and which sleeping thread a signal wakes (`wake`).
- The matcher reports by `past` that it has taken the terminator of the text for a character and gone on behind
  it; from there on nothing is promised. `Glob.PastExactly` says for which patterns that can happen.

## Model

| member | source | states |
|---|---|---|
| `Tiles.TilesDisjoint` | SHARE/src/UType/CSharedAllocater.cpp:1821-1860 | in a tiled heap headers and payloads of two blocks never overlap |
| `Tiles.Conservation` | SHARE/src/UType/CSharedAllocater.cpp:1806-1871 | free bytes, used bytes and one header for every block after the first always make up the maximal block size |
| `Tiles.Canonical` | SHARE/src/UType/CSharedAllocater.cpp:2027-2120 | the coalesced heap is determined by the blocks in use: two such heaps with the same used blocks are equal, free blocks included |
| `Tiles.EmptyHeapIsOneBlock` | SHARE/src/UType/CSharedAllocater.cpp:2611-2629 | with nothing in use, the heap is one free block from end to end |
| `Tiles.ReleaseSound` | SHARE/src/UType/CSharedAllocater.cpp:2027-2134 | freeing with two-sided merging keeps the tiling exact and coalesced, removes exactly the freed block, and accounts for its bytes and the merged headers |
| `Tiles.TakeSound` | SHARE/src/UType/CSharedAllocater.cpp:1806-1871 | taking a block keeps the tiling exact and coalesced and adds exactly one block in use, at the asked end of the free one: of the size asked for, with one block more and a header paid, if and only if more than two headers would be left over, and all of the free block otherwise |
| `Tiles.CutAtSound` | SHARE/src/UType/CSharedAllocater.cpp:1738-1760 | cutting a free block at a fixed offset keeps the tiling and everything in use |
| `Tiles.OnlyPlace` | SHARE/src/UType/CSharedAllocater.cpp:1692-1735 | only the last free block below a fixed offset can hold a block there, so looking at it decides the request |
| `Tiles.PlaceableIsLayout` | SHARE/src/UType/CSharedAllocater.cpp:1707-1735 | a block can be placed inside a free one if and only if three blocks with their headers can lie there, the middle one at the offset |
| `Tiles.NothingFits` | SHARE/src/UType/CSharedAllocater.cpp:1952-2026 | a request larger than all free bytes together cannot be met in any way |
| `Tiles.AccountKeptWhen` | SHARE/src/UType/CSharedAllocater.cpp:1738-1760 | a fixed-offset request keeps the byte account if and only if a free block already starts there; otherwise it is one header off |
| `Tiles.PlacedCount` | SHARE/src/UType/CSharedAllocater.cpp:1692-1760 | a fixed-offset request makes one block more if and only if no free block starts at the offset |
| `Tiles.InteriorCutMiscounts` | SHARE/src/UType/CSharedAllocater.cpp:1738-1760 | a concrete cut of an aligned heap after which the free bytes are 16 fewer than accounted |
| `FreeList.InsertPlace` | SHARE/src/UType/CSharedAllocater.cpp:2045-2060 | the place found by walking the address-ordered list is the one between the free neighbours |
| `FreeList.InsertedOk` | SHARE/src/UType/CSharedAllocater.cpp:2027-2120 | linking a block in and merging it leaves headers that describe exactly the merged tiling |
| `FreeList.SplicedIsReinserted` | SHARE/src/UType/CSharedAllocater.cpp:2064-2119 | the headers written by splice and merge equal those of a freshly linked list |
| `FreeList.ErasedOk` | SHARE/src/UType/CSharedAllocater.cpp:1806-1820 | unlinking a free block leaves a list of exactly the other free blocks in order |
| `FreeList.SpliceOk` | SHARE/src/UType/CSharedAllocater.cpp:1861-1871 | linking the rest of a split block back leaves a list of exactly the free blocks in order |
| `FreeList.CutAtOk` | SHARE/src/UType/CSharedAllocater.cpp:1738-1760 | the new header written by a fixed-offset cut describes exactly the cut tiling |
| `ProcessTable.PutOk` | SHARE/src/UType/CSharedAllocater.cpp:389-460 | the head of the chain is an unused entry; taking it leaves a chain through exactly the other unused entries |
| `ProcessTable.PopOk` | SHARE/src/UType/CSharedAllocater.cpp:461-486 | giving an entry back puts it on the chain, whatever the order of earlier puts and pops |
| `ProcessTable.PutUndoesPop` | SHARE/src/UType/CSharedAllocater.cpp:389-486 | the entry given back last is taken first, and the array is then as it was |
| `ProcessTable.GrowOk` | SHARE/src/UType/CSharedAllocater.cpp:346-372 | a relocated array, old entries followed by fresh ones, still has a chain through exactly its unused entries |
| `ProcessTable.FreshOk` | SHARE/src/UType/CSharedAllocater.cpp:320-345 | in a new node the chain visits every entry |
| `ProcessTable.AllocationsAreUsedSlots` | SHARE/src/UType/CSharedAllocater.cpp:389-486 | the allocation count is the number of used entries |
| `ProcessTable.IndexRoundTrip` | SHARE/src/UType/CSharedAllocater.cpp:61-145 | an index stored in an unused entry or in a header word is read back unchanged |
| `Registry.UniqueOwner` | SHARE/src/UType/CSharedAllocater.cpp:944-957 | the node that records a block at the entry named in its header is its owner, and no other entry of any node records it |
| `Registry.AddBlock` | SHARE/src/UType/CSharedAllocater.cpp:1422-1430 | recording a new block keeps every block recorded exactly once |
| `Registry.RemoveBlock` | SHARE/src/UType/CSharedAllocater.cpp:1417-1421 | forgetting a freed block keeps every other block recorded exactly once |
| `Registry.MoveTable` | SHARE/src/UType/CSharedAllocater.cpp:1037-1071 | moving a node to a larger block keeps every block recorded exactly once, with the entry numbers in their headers still valid, and the whole array inside the block |
| `Registry.TableMoves` | SHARE/src/UType/CSharedAllocater.cpp:1037-1071 | and replaces the node in the list, nothing else |
| `Registry.TableJoins` | SHARE/src/UType/CSharedAllocater.cpp:1026-1036 | a new node is appended to the list |
| `Registry.TableLeaves` | SHARE/src/UType/CSharedAllocater.cpp:1015-1025 | an erased node leaves the list of the others in order |
| `Registry.ListedErase` | SHARE/src/UType/CSharedAllocater.cpp:1015-1025 | unlinking node i gives the list without it |
| `Registry.ListedAppend` | SHARE/src/UType/CSharedAllocater.cpp:1026-1036 | hanging a node behind the last one gives the list with it at the end, whatever else the nodes hold |
| `Registry.ListedReplace` | SHARE/src/UType/CSharedAllocater.cpp:1037-1071 | rehanging gives the list with the new node in the place of the old one |
| `Leaks.HeadBlock` | SHARE/src/UType/CSharedAllocater.cpp:2366-2412 | the next leaked block is a used entry of a dead node, and clearing it leaves exactly the remaining leaks |
| `Leaks.AfterBlock` | SHARE/src/UType/CSharedAllocater.cpp:2176-2215 | freeing the next leaked block frees a block of that dead process and leaves exactly the remaining leaks |
| `Leaks.AfterProcess` | SHARE/src/UType/CSharedAllocater.cpp:2159-2175 | when a process is next in the leaks its node records nothing any more |
| `Leaks.NoLeaks` | SHARE/src/UType/CSharedAllocater.cpp:2302-2322 | with no leak left no listed process is dead |
| `SharedHeap.CSharedAllocator.MInsertIntoFreeList` | SHARE/src/UType/CSharedAllocater.cpp:2027-2120 | from the header of the freed block and the list alone it reaches the merged tiling of the specification |
| `SharedHeap.CSharedAllocator.MGetFreeBlockFromBegin` | SHARE/src/UType/CSharedAllocater.cpp:1656-1773 | first fit from the low end; with a fixed offset, a block there if and only if one can be placed |
| `SharedHeap.CSharedAllocator.MGetFreeBlockFromEnd` | SHARE/src/UType/CSharedAllocater.cpp:1774-1805 | the last block with more room than asked, or none if there is no such block |
| `SharedHeap.CSharedAllocator.MEraseNodeFromFreeList` | SHARE/src/UType/CSharedAllocater.cpp:1806-1820 | takes exactly that block off the list |
| `SharedHeap.CSharedAllocator.MSplitInto2Block` | SHARE/src/UType/CSharedAllocater.cpp:1821-1860 | two blocks in place of one, the wanted one low or high |
| `SharedHeap.CSharedAllocator.MSplitBlockAndUpdateList` | SHARE/src/UType/CSharedAllocater.cpp:1861-1871 | splits and puts the rest back on the list |
| `SharedHeap.CSharedAllocator.MMallocBlock` | SHARE/src/UType/CSharedAllocater.cpp:1952-2026 | a block is granted if and only if the request can be met; it is the first or last fit, exactly one used block is added, and a refused request changes nothing |
| `SharedHeap.CSharedAllocator.MFreeBlock` | SHARE/src/UType/CSharedAllocater.cpp:2121-2134 | the freed block and its free neighbours become one; all other used blocks and their headers stay |
| `SharedHeap.CSharedAllocator.MSearchProcessNode` | SHARE/src/UType/CSharedAllocater.cpp:928-943 | the first node of the process and its predecessor |
| `SharedHeap.CSharedAllocator.MSearchProcessOfBlockNode` | SHARE/src/UType/CSharedAllocater.cpp:944-957 | finds the one node that records the block, using only the entry number in its header |
| `SharedHeap.CSharedAllocator.MPutOffset` | SHARE/src/UType/CSharedAllocater.cpp:389-460 | takes an unused entry without searching and keeps the chain |
| `SharedHeap.CSharedAllocator.MPopOffsetById` | SHARE/src/UType/CSharedAllocater.cpp:461-486 | returns the entry to the chain |
| `SharedHeap.CSharedAllocator.MKeepBlock` | SHARE/src/UType/CSharedAllocater.cpp:1422-1430 | records the block and its entry number |
| `SharedHeap.CSharedAllocator.MCreateProcessNode` | SHARE/src/UType/CSharedAllocater.cpp:959-991 | a node from the high end, joined to the list, if and only if there is room |
| `SharedHeap.CSharedAllocator.MGetOrRealocateProcessNode` | SHARE/src/UType/CSharedAllocater.cpp:1037-1071 | the node moves if and only if it is full, and then has half as many entries again as are needed; holders, user blocks, owners and other nodes stay; null if and only if it is full and no free block can hold the larger one; stopped if and only if it is full, there is room, and the array would need 65535 entries |
| `SharedHeap.CSharedAllocator.AttachProcess` | SHARE/src/UType/CSharedAllocater.cpp:1083-1098 | the holders of a listed node become one more, those of a new node one, and all other nodes stay |
| `SharedHeap.CSharedAllocator.MGetOrCreateProcessNode` | SHARE/src/UType/CSharedAllocater.cpp:1072-1109 | a node of the process with a free entry, held by exactly the one object attached to it, user blocks and other nodes unchanged; null if and only if there is no node and no room for one, or the node is full and there is no room for a larger one |
| `SharedHeap.CSharedAllocator.MInitProcessNode` | SHARE/src/UType/CSharedAllocater.cpp:852-863 | a node of the process, its own or a new one, held once however often it is called; null if and only if it has none and there is no room |
| `SharedHeap.CSharedAllocator.NewHeapHasRoom` | SHARE/src/UType/CSharedAllocater.cpp:959-991 | a new heap has room for a node if and only if its block is larger than the default node |
| `SharedHeap.HeapTooSmallForANode` | SHARE/src/UType/CSharedAllocater.cpp:852-927 | a concrete new heap in which a process gets no node |
| `SharedHeap.CSharedAllocator.MMallocImpl` | SHARE/src/UType/CSharedAllocater.cpp:1431-1501 | decided by the state before: null and stopped exactly as above; otherwise a block if and only if it can be placed once the node has room, and then exactly one user block more, owned by the caller, of the aligned size asked for or at most two headers more; the byte error grows by one header exactly for an interior cut |
| `SharedHeap.CSharedAllocator.TakeForUser` | SHARE/src/UType/CSharedAllocater.cpp:1452-1501 | the second half of it, for a node with a free entry |
| `SharedHeap.CSharedAllocator.MMalloc` | SHARE/src/UType/CSharedAllocater.cpp:1218-1260 | the same for the public call, which keeps the byte error; requests above the maximal block size cannot be met |
| `SharedHeap.CSharedAllocator.MMallocTo` | SHARE/src/UType/CSharedAllocater.cpp:1120-1138 | the same at a fixed offset: a granted block lies exactly there |
| `SharedHeap.CSharedAllocator.MFreeImpl` | SHARE/src/UType/CSharedAllocater.cpp:1503-1551 | frees exactly that block and clears exactly its entry in its owner |
| `SharedHeap.CSharedAllocator.MFree` | SHARE/src/UType/CSharedAllocater.cpp:1635-1654 | removes exactly that block and keeps every owner record |
| `SharedHeap.CSharedAllocator.MGetLeakProcesses` | SHARE/src/UType/CSharedAllocater.cpp:2323-2339 | finds every listed process that does not live |
| `SharedHeap.CSharedAllocator.MGetLeakResources` | SHARE/src/UType/CSharedAllocater.cpp:2366-2412 | lists exactly the blocks recorded by dead nodes, then the nodes |
| `SharedHeap.CSharedAllocator.MCleaunUpBlock` | SHARE/src/UType/CSharedAllocater.cpp:2176-2215 | frees one leaked block, only that |
| `SharedHeap.CSharedAllocator.MCleaunUpProcess` | SHARE/src/UType/CSharedAllocater.cpp:2159-2175 | frees the node of one dead process |
| `SharedHeap.CSharedAllocator.MCleanUpMemoryImpl` | SHARE/src/UType/CSharedAllocater.cpp:2302-2322 | after the list of leaks is worked off no dead process is listed and living owners have all their blocks |
| `SharedHeap.CSharedAllocator.MCleanUpImpl` | SHARE/src/UType/CSharedAllocater.cpp:2267-2301 | exactly the blocks and nodes of living processes remain |
| `SharedHeap.CSharedAllocator.MCleanUpResource` | SHARE/src/UType/CSharedAllocater.cpp:2512-2520 | the same for the public call, with the cached node pointers still right |
| `SharedHeap.CSharedAllocator.MReleaseHeap` | SHARE/src/UType/CSharedAllocater.cpp:2579-2640 | exactly the blocks and nodes of the other living processes stay; the byte error is kept; the heap is destroyed, and is then one free block of the maximal size, if and only if no other living process is listed |
| `SharedHeap.CSharedAllocator.Detach` | SHARE/src/UType/CSharedAllocater.cpp:2592-2615 | whatever the count: the last holder takes the node and its blocks along, any other one lowers the count |
| `SharedHeap.SoleUserDestroys` | SHARE/src/UType/CSharedAllocater.cpp:864-2640 | who makes a heap and is its only user destroys it |
| `SharedHeap.CSharedAllocator.MCreateHeap` | SHARE/src/UType/CSharedAllocater.cpp:864-924 | before the node of its creator is made, a new heap is one free block of the maximal size |
| `SharedHeap.MNewHeap` | SHARE/src/UType/CSharedAllocater.cpp:864-927 | the whole call: the new heap lists exactly the node of its creator, taken from its high end, and that node is null if and only if the heap is not larger than it |
| `SharedHeap.CSharedAllocator.ByteAccount` | SHARE/src/UType/CSharedAllocater.cpp:660-663 | in every reachable heap the free-byte counter, the used bytes and the headers make up the maximal block size, plus the error of interior cuts |
| `HeapRuns.Run` | SHARE/src/UType/CSharedAllocater.cpp:1218-1654 | any sequence of requests, frees, sweeps and releases by any processes is followed turn by turn: each turn does what its request asks, the heap is in order after it with the holders of every node equal to its attachments, and the byte counter is off by one header for every interior cut of the run; it ends early exactly at a request that the source does not survive |
| `HeapRuns.Serve` | SHARE/src/UType/CSharedAllocater.cpp:1120-1654 | one request: it is not survived exactly when the code writes through a null node or stops at its check; otherwise exactly the asked block comes or goes, exactly the blocks of living processes stay, or nothing changes |
| `HeapRuns.FreeOne` | SHARE/src/UType/CSharedAllocater.cpp:1503-1654 | freeing what an entry names removes exactly that block, and an unused entry removes nothing |
| `HeapRuns.EntryBlock` | SHARE/src/UType/CSharedAllocater.cpp:382-388 | every used entry names a block of that process |
| `Buffer.RequiredLenFits` | SHARE/src/UType/CBuffer.cpp:1058-1090 | the length asked for holds the data, and the head-room too unless the allocator limit cuts it |
| `Buffer.RequiredLenReserve` | SHARE/src/UType/CBuffer.cpp:1058-1090 | and, unless the limit cuts it, between 64 and 1024 bytes more |
| `Buffer.HeadRoomRestored` | SHARE/src/UType/CBuffer.cpp:851-876 | when everything slides the head-room is restored, or no byte is left behind the data |
| `Buffer.SlidingOpens` | SHARE/src/UType/CBuffer.cpp:884-901 | moving the prefix to the front and the suffix behind the hole loses nothing, though the ranges overlap |
| `Buffer.TwoMovesOpen` | SHARE/src/UType/CBuffer.cpp:851-876 | moving the last bytes first and the rest after them opens the hole, also when everything slides |
| `Buffer.OneMoveOpens` | SHARE/src/UType/CBuffer.cpp:877-880 | moving the whole suffix behind the hole |
| `Buffer.CBuffer.MInsertImpl` | SHARE/src/UType/CBuffer.cpp:790-1010 | in every branch: old prefix, hole, old suffix; the address returned is the hole; where the data begin; a new block, of the required length, only when the old one has no room; and exactly which calls get no block or leave it |
| `Buffer.CBuffer.InsertInFront` | SHARE/src/UType/CBuffer.cpp:826-834 | uses head-room without moving a byte |
| `Buffer.CBuffer.InsertIntoTail` | SHARE/src/UType/CBuffer.cpp:835-883 | the three ways to use the room behind the data |
| `Buffer.CBuffer.InsertBySliding` | SHARE/src/UType/CBuffer.cpp:884-901 | uses head-room and tail together |
| `Buffer.CBuffer.InsertByReallocating` | SHARE/src/UType/CBuffer.cpp:952-983 | the enlarged block keeps its bytes at their offsets and opens the hole |
| `Buffer.CBuffer.InsertIntoNothing` | SHARE/src/UType/CBuffer.cpp:1000-1007 | the first block, with head-room |
| `Buffer.CBuffer.Insert` | SHARE/src/UType/CBuffer.cpp:764-788 | the data with the bytes inserted; without memory, unchanged if the fatal log stops the program, and otherwise overwritten where the hole should be, or the end of the block overrun, exactly when the bytes do not fit there |
| `Buffer.CBuffer.PushBack` | SHARE/src/UType/CBuffer.cpp:1037-1040 | appends; below the allocator limit it succeeds whenever there is memory |
| `Buffer.CBuffer.PushFront` | SHARE/src/UType/CBuffer.cpp:1054-1057 | prepends, likewise; without memory and without a stop the first byte is lost |
| `Buffer.CBuffer.PopBack` | SHARE/src/UType/CBuffer.cpp:1024-1036 | drops the last byte |
| `Buffer.CBuffer.Resize` | SHARE/src/UType/CBuffer.cpp:713-753 | growing opens a hole at the other end of the data, or fails, exactly as an insertion there is judged to; shrinking at the back keeps a prefix; shrinking at the front moves the start, keeps the size, and leaves the bytes to be kept in front exactly when they are inside the block at a start of 16 bits |
| `Buffer.FrontShrinkFits` | SHARE/src/UType/CBuffer.cpp:735-748 | for every buffer: after shrinking at the front the data begin with the bytes kept and are inside the block if and only if the new start is below 65536 and at least as many bytes as were given up lie behind the data |
| `Buffer.FrontShrinkKeeps` | SHARE/src/UType/CBuffer.cpp:735-748 | then the bytes kept come first, and the stale bytes behind the old data make up the old size |
| `Buffer.FrontShrinkLeaves` | SHARE/src/UType/CBuffer.cpp:735-748 | a concrete full buffer whose data then reach behind the block |
| `Buffer.FrontShrinkWraps` | SHARE/src/UType/CBuffer.cpp:735-748 | a concrete large buffer whose start wraps around, so that its data are other bytes of the block |
| `Buffer.CBuffer.MAllocate` | SHARE/src/UType/CBuffer.cpp:1105-1123 | a block of the required length or none |
| `Buffer.CBuffer.MReAllocate` | SHARE/src/UType/CBuffer.cpp:1091-1104 | a longer block with the old bytes at the same offsets |
| `Buffer.AppendingIsSafe` | SHARE/src/UType/CBuffer.cpp:835-983 | inserting behind the first byte leaves the block if and only if a block must be had and the one asked for cannot hold head-room and data; never while head-room is at most BEGIN_SIZE and with the data fits the allocator |
| `Buffer.GrownFits` | SHARE/src/UType/CBuffer.cpp:952-1090 | such a block holds head-room and data whenever the head-room is at most BEGIN_SIZE and with the data fits the allocator |
| `Buffer.LargeStartOutgrows` | SHARE/src/UType/CBuffer.cpp:952-1090 | a concrete buffer with larger head-room for which it happens |
| `Buffer.PrependingIsSafe` | SHARE/src/UType/CBuffer.cpp:826-983 | inserting in front leaves the block if and only if that happens, or everything must slide and the data are shorter than the hole |
| `Buffer.PrependingCanOverrun` | SHARE/src/UType/CBuffer.cpp:851-868 | a concrete buffer for which it does |
| `Buffer.InsertWorks` | SHARE/src/UType/CBuffer.cpp:790-1010 | an insertion no longer than the data always finds its hole |
| `EventFifo.event_fifo_t.MPut` | SHARE/include/SHARE/Socket/CSharedMemoryImplTypes.h:241-262 | appends to the queue if and only if there is a place, the last four being kept for events without data |
| `EventFifo.event_fifo_t.MPop` | SHARE/include/SHARE/Socket/CSharedMemoryImplTypes.h:292-310 | removes the oldest event |
| `EventFifo.event_fifo_t.MCount` | SHARE/include/SHARE/Socket/CSharedMemoryImplTypes.h:212-224 | the number of queued events, across the wrap of the positions |
| `EventFifo.event_fifo_t.MEmpty` | SHARE/include/SHARE/Socket/CSharedMemoryImplTypes.h:225-228 | whether nothing is queued |
| `EventFifo.WrapKeepsSlot` | SHARE/include/SHARE/Socket/CSharedMemoryImplTypes.h:235-240 | positions wrap at a multiple of the size without changing their place in the ring |
| `EventFifo.PutsLast` | SHARE/include/SHARE/Socket/CSharedMemoryImplTypes.h:241-262 | writing the place of the write position appends and overwrites nothing queued |
| `EventFifo.PopsFirst` | SHARE/include/SHARE/Socket/CSharedMemoryImplTypes.h:292-310 | advancing the read position drops the first event only |
| `EventFifo.FullIsNotEmpty` | SHARE/include/SHARE/Socket/CSharedMemoryImplTypes.h:134-160 | a full ring can be told from an empty one exactly up to 32767 events |
| `EventFifo.LargeRingLooksEmpty` | SHARE/include/SHARE/Socket/CSharedMemoryImplTypes.h:134-160 | a concrete full ring that looks empty |
| `EventFifo.DecUndoesInc` | SHARE/include/SHARE/Socket/CSharedMemoryImplTypes.h:229-240 | in rings of every size, stepping back undoes stepping forward at every position except over the wrap, and over the wrap only in a ring of 32768 places |
| `EventFifo.StepBackMisses` | SHARE/include/SHARE/Socket/CSharedMemoryImplTypes.h:229-240 | a concrete step back to the wrong position |
| `Holders.DropKeeps` | SHARE/src/UType/CBuffer.cpp:431-454 | releasing keeps use counts equal to holders, and frees a block exactly when its last holder goes |
| `Holders.ShareKeeps` | SHARE/src/UType/CBuffer.cpp:326-334 | copying a handle keeps use counts equal to holders |
| `Holders.CreateKeeps` | SHARE/src/UType/CBuffer.cpp:376-387 | a new block has one holder |
| `Holders.OnlyHolder` | SHARE/src/UType/CBuffer.cpp:427-430 | a block with use count one is held by that handle alone, in no queue and at no receiver |
| `Holders.PokeKeeps` | SHARE/src/UType/CBuffer.cpp:674-679 | changing the bytes of such a block touches no other holder |
| `Holders.QueueKeeps` | SHARE/src/UType/CBuffer.cpp:1161-1167 | turning a handle into a queued offset keeps the number of holders and puts the buffer behind all that is under way |
| `Holders.ReceiveKeeps` | SHARE/src/Socket/CSharedMemoryBaseImpl.cpp:566-601 | receiving keeps it too, and the order of what is under way; the waiting bytes and the overload bit are right |
| `Holders.ReclaimKeeps` | SHARE/src/UType/CBuffer.cpp:296-325 | adopting a queued offset is always of a live block |
| `Holders.TakeKeeps` | SHARE/src/Socket/CSharedMemoryBaseImpl.cpp:604-621 | taking a waiting buffer takes the oldest of what is under way, and keeps counts, waiting bytes and overload bit |
| `Holders.NoLeak` | SHARE/src/Socket/CSharedMemoryBaseImpl.cpp:123-159 | when nothing is held or queued no block is left, and every block ever made was freed exactly once |
| `HandOff.Exchange.Release` | SHARE/src/UType/CBuffer.cpp:431-454 | one holder less; the block goes with the last |
| `HandOff.Exchange.Assign` | SHARE/src/UType/CBuffer.cpp:494-511 | the handle comes to share the other block, releasing its own |
| `HandOff.Exchange.Copy` | SHARE/src/UType/CBuffer.cpp:326-334 | a further handle of the same block |
| `HandOff.Exchange.MMoveTo` | SHARE/src/UType/CBuffer.cpp:481-493 | the other handle takes over, unless both share the block |
| `HandOff.Exchange.MAllocate` | SHARE/src/UType/CBuffer.cpp:376-387 | a new block with one holder |
| `HandOff.Exchange.Renew` | SHARE/src/UType/CBuffer.cpp:512-545 | a private copy through a temporary, with the right counts at the end |
| `HandOff.Exchange.MDetach` | SHARE/src/UType/CBuffer.cpp:1145-1155 | a private copy if and only if the block has other holders |
| `HandOff.WrittenKeeps` | SHARE/src/UType/CBuffer.cpp:674-679 | a write through a shared handle makes a private copy first: its view changes in one byte, every other view and everything queued or waiting is unchanged |
| `HandOff.Exchange.Write` | SHARE/src/UType/CBuffer.cpp:674-679 | the method does that |
| `HandOff.Exchange.MGetValidBuffer` | SHARE/src/Socket/CSharedMemoryBaseImpl.cpp:279-291 | the same bytes in a shared block |
| `HandOff.SendKeeps` | SHARE/src/Socket/CSharedMemoryBaseImpl.cpp:327-436 | delivered if and only if the peer is not overloaded and its fifo takes the event: the sender's bytes are then its last event and the handle is empty; otherwise an error if and only if the peer has not read lately, does not answer and has not read meanwhile; overloaded: nothing held changes; refused: the reference is given up and nobody else loses a byte |
| `HandOff.RefusedSendLosesBytes` | SHARE/src/Socket/CSharedMemoryBaseImpl.cpp:358-436 | a concrete run from the empty exchange, with the invariant, whose last send is refused, after which the bytes exist nowhere |
| `HandOff.Exchange.MCheckConnection` | SHARE/src/Socket/CSharedMemoryBaseImpl.cpp:475-501 | a probe puts a keep-alive request into the fifo if there is a place, and succeeds exactly if it was put and is answered |
| `HandOff.Exchange.MSend` | SHARE/src/Socket/CSharedMemoryBaseImpl.cpp:327-436 | the method does what SendKeeps describes and answers by the state before |
| `HandOff.Exchange.MReceiveData` | SHARE/src/Socket/CSharedMemoryBaseImpl.cpp:566-601 | the oldest event becomes the last waiting buffer |
| `HandOff.Exchange.MGetData` | SHARE/src/Socket/CSharedMemoryBaseImpl.cpp:604-621 | the first waiting buffer goes to the user; the source's two checks hold |
| `HandOff.CleanedUpKeeps` | SHARE/src/Socket/CSharedMemoryBaseImpl.cpp:123-159 | the queue is emptied, and each of its buffers, in order, is held by a new handle; no block is lost |
| `HandOff.Exchange.MCleanUp` | SHARE/src/Socket/CSharedMemoryBaseImpl.cpp:123-159 | the loop adopts exactly those buffers |
| `HandOff.StepKeeps` | SHARE/src/Socket/CSharedMemoryBaseImpl.cpp:87-436 | every step of any process keeps use counts equal to holders, queues and overload bits, and changes no byte of a block that is queued or waiting |
| `HandOff.RunKeeps` | SHARE/src/Socket/CSharedMemoryBaseImpl.cpp:87-621 | and so does every run |
| `HandOff.TravelsUnchanged` | SHARE/src/Socket/CSharedMemoryBaseImpl.cpp:327-621 | a buffer that is queued or waiting throughout a run arrives with the bytes it was sent with, whatever everybody does meanwhile |
| `HandOff.RunLeaksNothing` | SHARE/src/Socket/CSharedMemoryBaseImpl.cpp:87-621 | a run that ends with nothing held or queued has freed every block it made, each once |
| `HandOff.Exchange.Run` | SHARE/src/Socket/CSharedMemoryBaseImpl.cpp:87-621 | the methods, in any interleaving, reach exactly the state of the specified run |
| `Delivery.StepInbox` | SHARE/src/Socket/CSharedMemoryBaseImpl.cpp:327-621 | for every step: what the user takes, then what is under way, is what was under way, then what is sent, byte for byte |
| `Delivery.FirstInFirstOut` | SHARE/src/Socket/CSharedMemoryBaseImpl.cpp:327-621 | over any run of any processes without clean-up of the peer, nothing is lost, doubled, changed or out of order |
| `Delivery.TakenIsSent` | SHARE/src/Socket/CSharedMemoryBaseImpl.cpp:327-621 | so from an empty inbox on, what the user took is a beginning of what was sent, and all of it once nothing is under way |
| `Json.RunValue` | SHARE/src/UType/CConfig.cpp:735-830 | reading one written value adds its normal form, or fails exactly when a node in it has two wholly empty children |
| `Json.RunBody` | SHARE/src/UType/CConfig.cpp:753-829 | reading the members of an object adds their normal form; members plus array elements beyond the first equal the number of children |
| `Json.RunArrays` | SHARE/src/UType/CConfig.cpp:801-824 | each repeated key is one member, its elements becoming children in order |
| `Json.RunArray` | SHARE/src/UType/CConfig.cpp:807-823 | the same for one array, with the element count right |
| `Json.LeafReplaces` | SHARE/src/UType/CConfig.cpp:592-603 | a value under a key becomes the only child of that key; the children of every other key stay, in order |
| `Json.ObjectClosed` | SHARE/src/UType/CConfig.cpp:604-657 | whatever was read between its two ends, a nested object counts as one member or one element, and is refused unless members and extra elements add up |
| `Json.ArrayClosed` | SHARE/src/UType/CConfig.cpp:659-682 | a closed array counts as one member and its elements but one as extra children |
| `NormalForm.GroupsKept` | SHARE/src/UType/CConfig.cpp:764-825 | for every key the normal form has the normal forms of the children with that key, in order, and no others |
| `NormalForm.UniquesFirst` | SHARE/src/UType/CConfig.cpp:764-825 | unique keys come first in order; the repeated keys and their order are those of the original |
| `NormalForm.OrderedUnique` | SHARE/src/UType/CConfig.cpp:801-803 | the order of the repeated keys is a matter of the keys alone |
| `NormalForm.LessByCodePoints` | SHARE/src/UType/CText.cpp:216-255 | texts are ordered by the first code point in which they differ, a beginning before the longer text |
| `NormalForm.BodyFixed` | SHARE/src/UType/CConfig.cpp:735-830 | normalising twice is normalising once |
| `RoundTrip.WriteThenRead` | SHARE/src/UType/CConfig.cpp:517-830 | reading back what was written gives the normal form at every depth with the stack empty and every check passed, exactly when no node has two wholly empty children |
| `RoundTrip.SecondRoundTrip` | SHARE/src/UType/CConfig.cpp:517-830 | a second round trip changes nothing |
| `RoundTrip.TwoEmptyChildrenAreRefused` | SHARE/src/UType/CConfig.cpp:659-668 | a concrete tree that cannot be read back |
| `JsonText.WrittenIsJson` | SHARE/src/UType/CConfig.cpp:517-830 | every text written is one JSON object (section 2 of RFC 8259) with no key twice in any object, which says exactly what the configuration holds: an array for each key of several children, the child itself otherwise |
| `JsonRead.ReadExactly` | SHARE/src/UType/CConfig.cpp:592-841 | any JSON object, whoever wrote it, is read as its members in order if and only if no object in it has a string under a key used before in it, and no array is empty, without a key, or directly in another; all others fail a check |
| `JsonRead.GoodIsReadable` | SHARE/src/UType/CConfig.cpp:592-682 | those conditions are what the checks of the reader come to, member by member |
| `JsonRead.EmptyArrayIsRefused` | SHARE/src/UType/CConfig.cpp:669-682 | a concrete family of texts that are refused for an empty array |
| `JsonRead.SecondValueIsRefused` | SHARE/src/UType/CConfig.cpp:646-657 | and one for a second value under a key |
| `JsonReader.CJsonReader.MParse` | SHARE/src/UType/CConfig.cpp:832-841 | a whole text: the tree of the specification, or a failed check |
| `Barrier.CBarrier.Enter` | SHARE/src/UType/CBarrier.cpp:49-74 | the last of the threads ends the round and wakes all; the others go to sleep; every call returns true |
| `Barrier.CBarrier.Wake` | SHARE/src/UType/CBarrier.cpp:66-74 | a thread leaves its wait exactly when its phase is over, whatever woke it |
| `Barrier.StepKeeps` | SHARE/src/UType/CBarrier.cpp:49-74 | every step keeps the phase bit, the count of arrived threads and the rounds in agreement, and every useful step that does not end the round brings its end nearer |
| `Barrier.RoundsAreSeparate` | SHARE/src/UType/CBarrier.cpp:49-74 | at the end of any run no thread has left a round that another has not entered; completed rounds differ by at most one |
| `Barrier.NeverStuck` | SHARE/src/UType/CBarrier.cpp:49-74 | at the end of any run some thread can go on without being woken, and who sleeps belongs to the current phase, so one bit is enough |
| `Barrier.RunProgresses` | SHARE/src/UType/CBarrier.cpp:49-74 | under any schedule, useful steps are bounded by what was left and two for each thread and completed round; more than two for each thread complete a round |
| `Barrier.CBarrier.Run` | SHARE/src/UType/CBarrier.cpp:49-74 | the method, under any schedule, reaches exactly the state of the specified run |
| `Condvar.CCondvar.Register` | SHARE/src/UType/CCondvarWin32.cpp:51-59 | a waiter registers with the current generation |
| `Condvar.CCondvar.Check` | SHARE/src/UType/CCondvarWin32.cpp:60-107 | a waiter returns if and only if a release is left and it registered before the last notice |
| `Condvar.CCondvar.MSignal` | SHARE/src/UType/CCondvarWin32.cpp:109-122 | one more release if and only if some waiter has none; the releases of a broadcast stay reserved if and only if it serves the last such waiter |
| `Condvar.CCondvar.MBroadcast` | SHARE/src/UType/CCondvarWin32.cpp:123-136 | a release of its own for every waiter |
| `Condvar.StepKeeps` | SHARE/src/UType/CCondvarWin32.cpp:51-136 | what each step makes of the invariant and, both ways, of the reservation |
| `Condvar.RunKeeps` | SHARE/src/UType/CCondvarWin32.cpp:51-136 | in every run releases never exceed the waiters they are for, the event is set exactly while one is left, and no more waits return than were granted |
| `Condvar.ReleasesAreUsable` | SHARE/src/UType/CCondvarWin32.cpp:51-136 | a release is left if and only if some waiter can return, and then the event is set |
| `Condvar.ReturnWasNoticed` | SHARE/src/UType/CCondvarWin32.cpp:51-136 | who can return at the end of a run registered in it, and somebody signalled or broadcast after that |
| `Condvar.LastNoticeIs` | SHARE/src/UType/CCondvarWin32.cpp:109-136 | the last notice of a run is a notice, and none follows it |
| `Condvar.PromiseKept` | SHARE/src/UType/CCondvarWin32.cpp:51-136 | at the end of a run every old waiter has a release of its own if and only if the last notice was a broadcast, or a signal that served the last waiter without one |
| `Condvar.ServedWaiterLeaves` | SHARE/src/UType/CCondvarWin32.cpp:60-107 | then each of them returns when it looks next, whoever returned before |
| `Condvar.UnservedWaiterStays` | SHARE/src/UType/CCondvarWin32.cpp:60-107 | and otherwise any of them can be left behind when the others return first |
| `Condvar.BroadcastCanBeOvertaken` | SHARE/src/UType/CCondvarWin32.cpp:51-136 | a concrete run in which later threads use up the release of a broadcast |
| `Condvar.CCondvar.Run` | SHARE/src/UType/CCondvarWin32.cpp:51-136 | the methods, in any interleaving, reach exactly the state of the specified run |
| `Crc.StepLinear` | SHARE/include/SHARE/crc8.h:186-194 | one shift of the register is linear |
| `Crc.StepReduces` | SHARE/include/SHARE/crc8.h:186-194 | a shift is one step of long division by the polynomial with its top term |
| `Crc.FeedAtOnce` | SHARE/include/SHARE/crc8.h:181-194 | feeding bits one by one equals adding them at the top and shifting |
| `Crc.TableStep` | SHARE/include/SHARE/crc16.h:65-83 | one table look-up and a shift do what eight steps of the register do |
| `Crc.EntryDoubles` | SHARE/include/SHARE/crc8.h:186-194 | doubling the index is one more step |
| `Crc.RemainderStep` | SHARE/include/SHARE/crc8.h:184-193 | bits above the register do not come back into it |
| `Crc.MakeCRCTable` | SHARE/include/SHARE/crc8.h:176-196 | for every polynomial the table built by doubling holds eight register steps of each byte, in both widths |
| `CrcBuffer.CalcCrc8` | SHARE/include/SHARE/crc8.h:75-85 | the table-driven crc8 of any buffer is the bit-serial one |
| `CrcBuffer.CalcCrc16` | SHARE/include/SHARE/crc16.h:65-83 | the same for crc16 |
| `CrcBuffer.Crc8Residue` | SHARE/include/SHARE/crc8.h:104-111 | a message followed by its crc8 has the checking constant, for every polynomial and initial value |
| `CrcBuffer.Crc16Residue` | SHARE/include/SHARE/crc16.h:65-83 | a message followed by its crc16, high byte first, has crc16 zero |
| `CrcBuffer.OneByteIsNoticed` | SHARE/include/SHARE/crc8.h:75-85 | with an odd polynomial a change of one byte anywhere changes the checksum |
| `CrcBuffer.EvenPolynomialMisses` | SHARE/include/SHARE/crc8.h:75-85 | with an even polynomial some change of one byte does not change crc8 |
| `CrcLsb.MakeCRCTable` | SHARE/include/SHARE/crc8.h:155-175 | the same table result with the least significant bit first |
| `CrcLsb.CalcCrc8` | SHARE/include/SHARE/crc8.h:75-85 | the table-driven crc8 equals the bit-serial one, least significant bit first |
| `CrcLsb.Crc8Residue` | SHARE/include/SHARE/crc8.h:104-111 | a message followed by its crc8 has the checking constant, least significant bit first |
| `CrcLsb.OneByteIsNoticed` | SHARE/include/SHARE/crc8.h:75-85 | least significant bit first, with the top bit of the polynomial set, a change of one byte anywhere changes the checksum |
| `CrcLsb.LowPolynomialMisses` | SHARE/include/SHARE/crc8.h:75-85 | and without that bit some change of one byte does not, for every initial value |
| `CrcMirror.SerialMirrored` | SHARE/include/SHARE/crc8.h:75-175 | the checksum of a message, least significant bit first, is the mirror image of that of the mirrored message with the mirrored polynomial, most significant bit first |
| `CrcMirror.MirrorTwice` | SHARE/include/SHARE/crc8.h:155-175 | mirroring twice is doing nothing, so either generator says all about the other |
| `Utf8.OneRoundTrip` | SHARE/src/UType/CCodeConv.cpp:89-168 | a code point is decoded from its bytes, whatever follows, if and only if it is below 0x200000 |
| `Utf8.EncodedForm` | SHARE/src/UType/CCodeConv.cpp:143-168 | a code point below 0x200000 is written in the byte form of section 3 of RFC 3629, extended to 21 bits, and the bits that are not marks are the code point |
| `Utf8.OnlyForm` | SHARE/src/UType/CCodeConv.cpp:143-168 | and there is no shorter form that carries it and no other one of that length |
| `Utf8.DecodedForm` | SHARE/src/UType/CCodeConv.cpp:89-134 | any bytes are decoded by the same rule, whatever their marks, on 8, 11, 16 or 21 bits |
| `Utf8.RoundTrip` | SHARE/src/UType/CCodeConv.cpp:89-168 | the same for sequences, and the number of bytes is the announced one |
| `Utf8.DecodeBounds` | SHARE/src/UType/CCodeConv.cpp:31-134 | decoding any bytes ends, with at least a quarter as many and at most as many code points as bytes |
| `Utf8.OrderKept` | SHARE/src/UType/CCodeConv.cpp:143-168 | comparing encoded texts byte by byte compares them code point by code point (section 1 of RFC 3629) |
| `Utf8.MNext` | SHARE/src/UType/CCodeConv.cpp:89-134 | moves on by at least one byte and never past the end |
| `Utf8.MAppend` | SHARE/src/UType/CCodeConv.cpp:135-168 | writes the code point whole or not at all |
| `Utf8.MSizeOf` | SHARE/src/UType/CCodeConv.cpp:19-25 | the number of bytes of a text |
| `Utf8.LengthCode` | SHARE/src/UType/CText.cpp:334-339 | the number of bytes of the encoding, also of the empty text |
| `Utf8.MFromUCS4` | SHARE/src/UType/CText.cpp:1374-1389 | the longest prefix whose encoding fits |
| `Utf8.MToUCS4` | SHARE/src/UType/CText.cpp:1390-1400 | as many code points as the destination holds |
| `Utf8.ThereAndBack` | SHARE/src/UType/CText.cpp:1374-1400 | a text written to a buffer of the announced size and read back is unchanged |
| `Glob.IsMatch` | SHARE/src/UType/CText.cpp:2137-2187 | for all patterns and texts the backtracking loop ends, goes behind the end of the text exactly when its specification says so, and otherwise accepts exactly the texts of that specification |
| `Glob.MatchText` | SHARE/src/UType/CText.cpp:2189-2193 | accepted texts are meant by the pattern; with a pattern that does not end starred, exactly those |
| `Glob.PastExactly` | SHARE/src/UType/CText.cpp:2137-2187 | the matcher runs behind the end of some text if and only if the pattern has a NUL, escaped or not, that stands first or behind something other than a star |
| `Glob.NeverPast` | SHARE/src/UType/CText.cpp:2137-2187 | so a pattern without a NUL character never does |
| `Glob.Sound` | SHARE/src/UType/CText.cpp:2137-2187 | what is accepted is meant, for every pattern |
| `Glob.Complete` | SHARE/src/UType/CText.cpp:2137-2187 | what is meant is accepted when the pattern does not end starred |
| `Glob.ExactlyComplete` | SHARE/src/UType/CText.cpp:2162-2171 | every meant text is accepted if and only if no star is followed by nothing but stars and a lone backslash |
| `Glob.DoubleStarMisses` | SHARE/src/UType/CText.cpp:2162-2171 | a concrete text that is meant and missed |
| `Address.Compare` | SHARE/src/UType/CAddress.cpp:158-205 | the loop computes the level of its specification |
| `Address.Levels` | SHARE/src/UType/CAddress.cpp:158-205 | the level is finite and not zero exactly when the names are equal and the one path begins the other, and is one plus the difference in depth |
| `Address.LevelsAdd` | SHARE/src/UType/CAddress.cpp:158-205 | levels add up along a chain of addresses |
| `Address.CompareGroups` | SHARE/src/UType/CAddress.cpp:158-205 | with groups in both, comparing names is comparing groups |
| `Address.LeadsIsPrefix` | SHARE/src/UType/CAddress.cpp:352-384 | a text leads another up to a dot exactly when the path is a prefix; the dots left are the difference in depth |
| `Address.IsSubGroupOf` | SHARE/src/UType/CAddress.cpp:352-384 | the loop computes the level of a group |
| `Address.SplitOfJoin` | SHARE/src/UType/CAddress.cpp:281-351 | splitting a joined path gives it back |
| `Address.JoinOfSplit` | SHARE/src/UType/CAddress.cpp:281-351 | joining what was split gives any text back |
| `Address.GroupIsPath` | SHARE/src/UType/CAddress.cpp:475-491 | valid groups are exactly the texts of paths |
| `Address.ValidIsFull` | SHARE/src/UType/CAddress.cpp:432-474 | a valid name with a group is a name in front of a path |
| `Address.FullIsValid` | SHARE/src/UType/CAddress.cpp:432-474 | and every name in front of a path is valid |
| `Address.NameIsValid` | SHARE/src/UType/CAddress.cpp:432-474 | the loop decides validity |
| `Address.CProgramGroup.MSet` | SHARE/src/UType/CAddress.cpp:281-292 | the group built from components has them as its path |
| `Address.CProgramGroup.MAddPath` | SHARE/src/UType/CAddress.cpp:301-311 | one component more |
| `Address.CProgramGroup.MGetPath` | SHARE/src/UType/CAddress.cpp:329-351 | the components |
| `Address.CProgramGroup.MRemoveLastPath` | SHARE/src/UType/CAddress.cpp:312-324 | one component less, still valid |
| `OperationQueue.PlacedKeeps` | SHARE/src/UType/CThreadPool.cpp:105-126 | an operation is queued last in its class, and immediate ones stay in front |
| `OperationQueue.CThreadPool.MAdd` | SHARE/src/UType/CThreadPool.cpp:105-126 | the loop finds that place, the cursor stays at the beginning or the end, and one sleeping thread is woken |
| `OperationQueue.CThreadPool.MNextOperation` | SHARE/src/UType/CThreadPool.cpp:67-103 | the first operation is taken if there is one; a thread that finds none sleeps, and one just woken returns without any |
| `OperationQueue.CThreadPool.Finished` | SHARE/src/UType/CThreadPool.cpp:312-327 | an operation was run and is kept or not |
| `OperationQueue.CThreadPool.Requeue` | SHARE/src/UType/CThreadPool.cpp:317-328 | a kept operation is queued again before its end is reported |
| `OperationQueue.CThreadPool.MFinishOperation` | SHARE/src/UType/CThreadPool.cpp:59-66 | one invoked operation less; who waits for the end is woken |
| `OperationQueue.CThreadPool.MWaitFor` | SHARE/src/UType/CThreadPool.cpp:48-58 | returns at once exactly when nothing is queued or invoked |
| `OperationQueue.CThreadPool.MEraseAll` | SHARE/src/UType/CThreadPool.cpp:154-165 | forgets waiting threads exactly when no operation is invoked |
| `OperationQueue.StepKeeps` | SHARE/src/UType/CThreadPool.cpp:48-165 | every step keeps each class in its order and, while some thread sleeps, a thread awake and free for every queued operation; every step but one wakes whom it must, and that one forgets waiting threads if and only if no operation is invoked |
| `OperationQueue.AfterAnyRun` | SHARE/src/UType/CThreadPool.cpp:48-349 | after any run of a new pool operations of each class were taken in the order in which they were added, the queue is empty and the counter of invoked operations zero if and only if it is empty and no thread runs an operation or has one to queue again, and no operation stays queued while every free thread sleeps |
| `OperationQueue.WaitersAreWoken` | SHARE/src/UType/CThreadPool.cpp:48-349 | without MEraseAll, nobody sleeps in MWaitFor once nothing is left to do |
| `OperationQueue.EraseAllForgets` | SHARE/src/UType/CThreadPool.cpp:154-165 | a concrete pool in which MEraseAll leaves a waiting thread asleep for ever |
| `OperationQueue.CThreadPool.Run` | SHARE/src/UType/CThreadPool.cpp:279-349 | the methods, in any interleaving of callers and threads, reach exactly the state of the specified run |
| `Checksum.TwoFolds` | SHARE/src/Socket/net_function.cpp:407-412 | two folds reduce every 32-bit sum to its ones' complement value |
| `Checksum.OnesSumFolds` | SHARE/src/Socket/net_function.cpp:379-414 | the folded plain sum is the ones' complement sum of the words |
| `Checksum.OrderDoesNotMatter` | SHARE/src/Socket/net_function.cpp:379-414 | which is the same in any order of the words |
| `Checksum.Cksum` | SHARE/src/Socket/net_function.cpp:379-414 | the complement of the ones' complement sum |
| `Checksum.AccumulatorSuffices` | SHARE/src/Socket/net_function.cpp:379-397 | up to 32768 words, and an odd byte, the accumulator does not overflow |
| `Checksum.ChecksToZero` | SHARE/src/Socket/net_function.cpp:379-414 | a buffer with its checksum in a zeroed word checks to zero (section 1 of RFC 1071) |
| `Checksum.WhatIsChecked` | SHARE/src/Socket/net_function.cpp:379-414 | exactly the buffers that check to zero |

## Left out

- Reserve pools of the allocator: `FReserv` is 0, since merging a reserve rewrites a header without marking it allocated.
- Semaphores, locks and the watch-dog of the allocator: each public operation is one step; the branch of the sweep that hands a block over to a watch-dog is not modelled.
- The heap's payload bytes, `MReallocate`, block locks, the XML dump, and the alignment of the base address.
- `SharedHeap.CSharedAllocator.MReleaseHeap`: the pid that the source sets to the maximum before its last sweep is modelled by sweeping once more with that process counted as gone.
- `Buffer.CBuffer.MInsertImpl`: one holder only; with several holders the source goes on using the header of the block it has just detached from.
- `Buffer.CBuffer.Insert`: the inserted bytes do not lie in the buffer itself.
- `Buffer.CBuffer.Resize`: `pop_front` and `erase` at the front, which do the same as shrinking at the front, are not modelled apart.
- `Buffer.CBuffer.MAllocate`: the content of fresh bytes is zero here and arbitrary in the source.
- `HandOff.Exchange.Connect`: rings of 2 to 32767 places, the sizes in which `event_fifo_t` is a queue. The fifo of a
  peer is that queue: `EventFifo.event_fifo_t.MPut` and `MPop` do to it what `Accepts`, appending and dropping the
  first event say, and the exchange takes those steps on the queue. A larger ring looks empty when it is full
  (`EventFifo.LargeRingLooksEmpty`), and one of a single place stops at a check.
- Blocking sends, removal of an event from the ring, and disconnecting. Events without data are only counted, and nobody answers them by an event of its own.
- `HandOff.Exchange.MCheckConnection`: the wait for the answer is part of the same step, so that nobody else moves meanwhile.
- `HandOff.Exchange.MCleanUp`: the list of received buffers that the source returns is the tail of the caller's handles; sender, flags and block code of each are not kept.
- `HandOff.Exchange.Write`: writes through `end()` are not modelled: it does not detach.
- `Json.ReadJson`: the lexer, numbers and escapes are rapidjson's; a text that starts with anything but an object, where the source uses an empty stack, counts as rejected.
- `RoundTrip.WriteThenRead`: an empty key on a child that is not wholly empty is excluded; the writer logs it as fatal.
- `Barrier.CBarrier.Enter`: no reset, no shut-down, no change of the number of threads.
- `Condvar.CCondvar.Check`: no time-outs, which decrement the number of waiters alone.
- `Utf8.MFromUCS4`: the source returns start minus end as an unsigned number; the model returns the number of bytes. `MIsBufValid` reads past the end of a cut sequence and is left out, as are the other code pages.
- `Utf8.MNext`: called inside the buffer, as its callers do; at the end the source would read one byte too many.
- `Address.Compare`: the level is not reduced to 32 bits.
- `OperationQueue.CThreadPool.MEraseAll`: erasing by id is left out, since copies receive fresh ids.
- `OperationQueue.CThreadPool.MNextOperation`: stopping the pool and unlocking its threads by force are left out.
- `Crc.MakeCRCTable`: one method for the two headers, which differ in the width only; the least significant bit first variant of crc16 is left out.
- `Checksum.Cksum`: the words are those the machine reads; sums of 2^31 and more overflow a signed number in the source.
- Sockets, pipes, serial ports, files, dynamic libraries, logging, base64, the XML tree and the printf formatter.
