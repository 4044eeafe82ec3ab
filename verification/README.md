# M3: verified models of its stateful cores

This project models parts of M3, a microkernel-based system for heterogeneous manycores, in Dafny and proves
what they keep over every run. Six cores are covered:

- **Pipe server** (`RingBuffer.dfy`, `PipeSpec.dfy`, `PipeProofs.dfy`, `PipeAnswers.dfy`, `PipeAttach.dfy`, `PipeData.dfy`): a ring buffer
  that hands out windows of shared memory and settles them later, and the protocol for many readers and writers on top
  of it. Readers and writers may move between a grant and its settlement. The main results are that a grant stays valid
  and that the pipe is a byte FIFO over all interleavings.
- **Heap** (`HeapAreas.dfy`, `HeapMemory.dfy`, `Heap.dfy`): the boundary-tag allocator. The list of areas is one level,
  the headers in memory are the next, and the object with its loops is the third. The main results are that every
  sequence of operations keeps the heap and all live payload, and that freeing is confluent.
- **Pager** (`Cow.dfy`, `CowProofs.dfy`, `CowLimits.dfy`, `Pager.dfy`, `RegionList.dfy`): copy-on-write between address
  spaces. The main result is that faults, clones and stores refine a machine in which every region has its own contents.
- **Accelerator chains** (`ChainSpec.dfy`, `ChainProofs.dfy`, `Chain.dfy`): a pipeline with deferred forwards, for any
  number of stages. The main result is that every output is all stages applied to its input, in whatever order
  messages arrive.
- **File system** (`Extents.dfy`, `Fsck.dfy`, `FsckLayout.dfy`, `FsckCollect.dfy`, `FsckMain.dfy`, `FsckMeaning.dfy`, `MetaBuffer.dfy`): block lookup, the
  checker `m3fsck`, and the cache for metadata blocks. The main results are that the checker accepts exactly the intact
  images and that the cache is transparent.
- **Threads and the kernel's send queue** (`Threads.dfy`, `SendQueue.dfy`): where threads and messages are in every run.

Each core has a specification on values (functions and a step relation), proofs about all runs, and classes or methods
in the form of the source whose postconditions equate the object's state with the specification. `dafny verify
dfyconfig.toml` checks everything.

## Where the code does less than it seems to promise

The model follows the code. These properties hold only under a condition, which is stated exactly:

- The ring buffer's constructor means to demand a size of whole packets, but tests a single bit. Every other size leads
  to a grant behind the end of the buffer (`OtherSizesGrantOutside`).
- The pipe server checks neither that a commit fits into the grant (`PushExactly` for writers, `PullExactly` for readers)
  nor that an end of the pipe is still open when a channel is attached. A late writer makes the end of the file not final,
  a late reader makes the server refuse writers although somebody reads (`AttachWriterExactly`, `AttachReaderExactly`; a run
  is `AttachBehindEof`). With less than four bytes per reader, a window of length 0 looks like the end of the file
  (`ZeroWindow`).
- `heap_alloc` wraps for sizes within 127 bytes of the end of the address range (`AreaSizeExactly`); for 64 of them the area has
  length 0 and the heap is lost, for no others (`TakeHeapExactly`). `heap_append` merges correctly only with an end that is one
  header below a page boundary (`MergeNeedsAlignedEnd`). `heap_realloc` is safe for every payload exactly if the new area is not
  smaller than the old one (`ReallocExactly`); reallocating an area of 128 bytes to size 0 loses a heap (`ReallocToNothingLoses`).
- `Region::copy` ignores the offset into the memory for the new memory (`CopyNeedsOffsetZero`) and depends on an owner
  that still has its mapping (`CopyNeedsOwner`, a comment in the source says so). Over whole runs, regions stay isolated
  exactly if no owner of shared memory goes first (`DropExactly`) and writable memory has no offset (`PopulateExactly`).
  `limit_to` needs at least one page (`LimitToExactly`).
- `get_block_no` follows pointers that are 0 into the superblock, so block numbers behind the end of a file are noticed only
  if all pointers are in use or, for a file with only an indirect block, if the tables that the superblock seems to name are
  empty (`BehindEndExactly`).
- `m3fsck` accepts inodes and blocks in the unused bits of the last bitmap word (`PaddingIsAccepted`); the counters show
  exactly when (`WithinTotalsExactly`), and with whole words there are none (`WholeWordsStayWithin`). `first_free` can read
  behind a bitmap without a clear bit (`FirstFree`). The walk over a directory block reads behind the block unless it ends at an
  entry without a next one (`WalkInsideExactly`), but the result does not depend on it (`ChildrenIgnoreBehind`).
- The metadata cache loses changes to block 0, and only these (`WrittenBackExactly`), and has no answer if all heads are in use
  (`ExhaustedExactly`).
- An abort of the send queue notifies the thread whose message is in flight (`RepliesReachWaiters`), but never those whose
  messages were still queued (`DroppedAreNotTold`).

## Model

| member | source | states |
|---|---|---|
| RingSpec.GrantStability | src/apps/pipeserv/VarRingBuf.h:45-100 | Whatever pulls happen between a successful `get_write_pos(n)` and `push(n, k)` with k <= n, the push takes the branch that appends exactly the k bytes at the granted position, also if the reader wraps in between. |
| RingSpec.PullKeepsSlot | src/apps/pipeserv/VarRingBuf.h:93-100 | One pull keeps the invariant, the writer's position and the answer that a request of the same size would get. |
| RingSpec.PullsKeepSlot | src/apps/pipeserv/VarRingBuf.h:93-100 | The same for any sequence of pulls. |
| RingSpec.PushAppends | src/apps/pipeserv/VarRingBuf.h:78-91 | A push of at most the granted amount keeps the invariant and appends the bytes of the window to the unread bytes. |
| RingSpec.PushExactly | src/apps/pipeserv/VarRingBuf.h:78-91 | The amount of a push is not checked: it appends its bytes if and only if it fits into the free bytes behind the granted position. |
| RingSpec.SlotIsFree | src/apps/pipeserv/VarRingBuf.h:53-61 | A granted write window lies inside of the buffer and contains no unread byte. |
| RingSpec.StoreKeepsUnread | src/apps/pipeserv/VarRingBuf.h:53-61 | Filling a granted window changes no unread byte. |
| RingSpec.EmptyIffNothingUnread | src/apps/pipeserv/VarRingBuf.h:38-40 | A buffer looks empty if and only if no byte is unread, so a full buffer never looks empty. |
| RingSpec.AlignKeeps | src/apps/pipeserv/VarRingBuf.h:46-51 | The rounding of the write position keeps the invariant and the unread bytes, and touches only an empty buffer. |
| RingSpec.ReadWindow | src/apps/pipeserv/VarRingBuf.h:64-76 | In a buffer that is not empty, a read window has positive length and shows the oldest unread bytes. |
| RingSpec.PullDrops | src/apps/pipeserv/VarRingBuf.h:93-100 | A pull removes exactly the oldest bytes, namely those at the position that the reader was told. |
| RingSpec.PullExactly | src/apps/pipeserv/VarRingBuf.h:93-100 | The amount of a pull is not checked either: it drops exactly its oldest bytes if and only if it does not exceed the bytes that can be read in one piece. |
| RingSpec.PushKeepsReadWindow | src/apps/pipeserv/VarRingBuf.h:64-91 | A commit in between neither moves nor shortens a granted read window. |
| RingSpec.EmptyAccepts | src/apps/pipeserv/VarRingBuf.h:45-62 | An empty buffer accepts every request of at most half of its size, at every position, also after rounding. |
| RingSpec.EmptyAcceptsExactly | src/apps/pipeserv/VarRingBuf.h:45-62 | For whole packets this bound is exact: half of the size is accepted at all positions, and nothing more. |
| RingSpec.GrantExactly | src/apps/pipeserv/VarRingBuf.h:45-62 | A request is granted if and only if it fits behind the aligned write position or, strictly in front of the reader, at the beginning; only an empty buffer is aligned first. |
| RingSpec.ReadGrantExactly | src/apps/pipeserv/VarRingBuf.h:64-76 | A reader gets a window if and only if something is unread; it shows the oldest bytes, as many as wanted or as there are in one piece. |
| RingSpec.PushNeedsWindow | src/apps/pipeserv/VarRingBuf.h:78-91 | A push for which no window would be offered changes nothing. |
| RingSpec.WholePacketsStayInside | src/apps/pipeserv/VarRingBuf.h:30-36 | With a size of whole packets, filling, draining and asking again is answered with position 0. |
| RingSpec.OtherSizesGrantOutside | src/apps/pipeserv/VarRingBuf.h:30-36 | With every other size, the same three calls grant a position behind the end of the buffer. |
| RingSpec.ConstructorAcceptsFour | src/apps/pipeserv/VarRingBuf.h:35-35 | The assertion in the constructor tests one bit of the size and lets size 4 pass. |
| RingBuffer.VarRingBuf.constructor | src/apps/pipeserv/VarRingBuf.h:30-36 | The new object is the empty ring of the specification. |
| RingBuffer.VarRingBuf.GetWritePos | src/apps/pipeserv/VarRingBuf.h:45-62 | State and answer are those of the specification. |
| RingBuffer.VarRingBuf.GetReadPos | src/apps/pipeserv/VarRingBuf.h:64-76 | The window is that of the specification; nothing changes. |
| RingBuffer.VarRingBuf.Push | src/apps/pipeserv/VarRingBuf.h:78-91 | New state of the object; the precondition is the assertion of the source. |
| RingBuffer.VarRingBuf.Pull | src/apps/pipeserv/VarRingBuf.h:93-100 | New state of the object; the precondition is the assertion of the source. |
| PipeProofs.StepKeeps | src/apps/pipeserv/Session.cc:83-351 | Every step (attach, read, write, the two closes, the two pending handlers, a store by the writer) keeps the invariant: holders are attached and hold valid windows, committed bytes are delivered plus unread bytes, and every message is accounted for. |
| PipeProofs.ReachableInv | src/apps/pipeserv/Session.cc:83-351 | The invariant holds after every run from the empty pipe. |
| PipeProofs.PipeIsFifo | src/apps/pipeserv/Session.cc:165-317 | In every reachable state: delivered bytes are a prefix of committed bytes; the buffer is empty exactly if they are equal; the current read window shows the next bytes; the write window contains no unread byte and is apart from the read window. |
| PipeProofs.StepGrows | src/apps/pipeserv/Session.cc:165-351 | No step takes back delivered or committed bytes or answers; both histories only grow. |
| PipeProofs.OnlyOwnCloseDiscards | src/apps/pipeserv/Session.cc:35-45 | A waiting message is discarded only by the close of its own channel. |
| PipeProofs.ExactlyOneFate | src/apps/pipeserv/Session.cc:141-351 | In every reachable state each message was answered once, waits in one queue, or was discarded; waiting messages belong to attached channels. |
| PipeProofs.PendingHasChannel | src/apps/pipeserv/Session.cc:97-106 | The assertions in the size functions, in `push` and in `pull` hold in every state that satisfies the invariant. |
| PipeProofs.ZeroWindow | src/apps/pipeserv/Session.cc:97-101 | A reader gets a window of length 0 although bytes are there if and only if the size is below four times the number of readers. |
| PipeProofs.EofOnlyWhenDrained | src/apps/pipeserv/Session.cc:196-246 | With at least four bytes per reader, a step tells a reader the end of the file only if all writers have closed and every committed byte was delivered. |
| PipeProofs.DrainedIsFinal | src/apps/pipeserv/Session.cc:83-351 | Once that is so, nothing more is committed or delivered in any later state. |
| PipeProofs.WritersWaitOnlyForReaders | src/apps/pipeserv/Session.cc:325-351 | After `handle_pending_write`, a writer waits without any other holding a window only if there are unread bytes. |
| PipeProofs.NoDeadlock | src/apps/pipeserv/Session.cc:47-50 | After `work`, a waiting reader without a holder means an empty buffer, a waiting writer without a holder means a buffer that is not empty; so never both. |
| PipeAnswers.MovesExactly | src/apps/pipeserv/Session.cc:141-351 | Every step delivers exactly the bytes that the holder of the read window settles (what it commits, or the whole window if it asks for the next one) and commits exactly those that the holder of the write window settles; no other step moves bytes. |
| PipeAnswers.ReadMoves | src/apps/pipeserv/Session.cc:165-187 | For reads: the settled bytes are the first ones of the window that the reader was told. |
| PipeAnswers.WriteMoves | src/apps/pipeserv/Session.cc:272-300 | For writes: the same for commits. |
| PipeAnswers.ReadAnswer | src/apps/pipeserv/Session.cc:165-212 | Whether a read is answered or waits, and with what: bytes if and only if some are left and nobody was there before, the end of the file if and only if none are left and all writers have closed. |
| PipeAnswers.WriteAnswer | src/apps/pipeserv/Session.cc:272-317 | Whether a write is answered or waits, and with what: refused after the last reader has closed, its share if and only if nobody holds a window or waits and the buffer has room for it. |
| PipeAnswers.PendingReadAnswer | src/apps/pipeserv/Session.cc:220-246 | Waiting readers are served from the front: one if there are bytes, all of them, in order, at the end of the file. |
| PipeAnswers.PendingWriteAnswer | src/apps/pipeserv/Session.cc:325-351 | Waiting writers are served from the front: one if there is room, all of them are refused, in order, if nobody reads. |
| PipeAnswers.ShareExactly | src/apps/pipeserv/Session.cc:97-106 | The share is the largest one with which all channels together get at most a quarter of the buffer. |
| PipeAnswers.WindowsAreTold | src/apps/pipeserv/Session.cc:165-351 | In every step, whoever gets a window is told exactly that window, and all other holders keep theirs. |
| PipeAnswers.HoldersWereTold | src/apps/pipeserv/Session.cc:165-351 | In every reachable state, the windows that will be settled are windows that their holders were told. |
| PipeAnswers.CloseReaderExactly | src/apps/pipeserv/Session.cc:141-163 | Exactly the channel, its requests and its window go; nothing is delivered; the end is closed if and only if no reader is left. |
| PipeAnswers.CloseWriterExactly | src/apps/pipeserv/Session.cc:248-270 | The same for writers; nothing is committed. |
| PipeAnswers.LastReaderRefuses | src/apps/pipeserv/Session.cc:141-351 | In every run after the close of the last reader, every write is refused and commits nothing, and so are the waiting ones. |
| PipeAnswers.LastWriterEnds | src/apps/pipeserv/Session.cc:189-270 | In every run after the close of the last writer, a reader that finds everything delivered is told the end of the file. |
| PipeAnswers.AttachExactly | src/apps/pipeserv/Session.cc:83-95 | An attached channel can send requests to its end; nothing else changes. |
| PipeAnswers.NewPipeServes | src/apps/pipeserv/Session.cc:52-68 | A new pipe grants its first writer the share at position 0, and its first reader waits. |
| PipeAttach.AttachWriterExactly | src/apps/pipeserv/Session.cc:83-95 | `attach` does not look at the flags. After attaching a writer, it holds in all later states that nothing is committed once the write end is marked closed, if and only if the write end was still open or the read end was already closed. |
| PipeAttach.AttachReaderExactly | src/apps/pipeserv/Session.cc:83-95 | After attaching a reader, it holds in all later states that writers are refused only if nobody reads, if and only if the read end was still open or the write end was already closed. |
| PipeAttach.AttachBehindEof | src/apps/pipeserv/Session.cc:83-95 | A run in which a reader is told the end of the file, another writer is attached and commits, and the reader gets a window with its bytes. |
| PipeAttach.LateIsNotFinal | src/apps/pipeserv/Session.cc:83-95 | From every state with a writer behind the end of the file there is a run that commits something. |
| PipeAttach.InvIsFinal | src/apps/pipeserv/Session.cc:141-163 | From every state that satisfies the invariant, both promises hold in all later states. |
| PipeProofs.OvercommitLosesBytes | src/apps/pipeserv/Session.cc:291-294 | A commit beyond the grant, which the server does not check either, can drop unread bytes (a concrete case; the exact bound is PushExactly). |
| PipeServer.RemovePending | src/apps/pipeserv/Session.cc:35-45 | The loop keeps the messages of all other channels in order and removes exactly those of the given one. |
| PipeServer.PipeData.constructor | src/apps/pipeserv/Session.cc:52-68 | The empty pipe. |
| PipeServer.PipeData.Attach | src/apps/pipeserv/Session.cc:83-95 | New state of the object. |
| PipeServer.PipeData.Read | src/apps/pipeserv/Session.cc:165-187 | New state of the object: refuse, queue, settle the own window, acknowledge a commit, or ask. |
| PipeServer.PipeData.AskRead | src/apps/pipeserv/Session.cc:189-212 | New state of the object for a request of a new read window. |
| PipeServer.PipeData.Write | src/apps/pipeserv/Session.cc:272-300 | New state of the object, as for read, with the refusal after the last reader. |
| PipeServer.PipeData.AskWrite | src/apps/pipeserv/Session.cc:302-317 | New state of the object for a request of a new write window. |
| PipeServer.PipeData.CloseReader | src/apps/pipeserv/Session.cc:141-163 | New state of the object and the error code. |
| PipeServer.PipeData.CloseWriter | src/apps/pipeserv/Session.cc:248-270 | New state of the object and the error code. |
| PipeServer.PipeData.HandlePendingRead | src/apps/pipeserv/Session.cc:220-246 | The loop refines the recursive specification. |
| PipeServer.PipeData.HandlePendingWrite | src/apps/pipeserv/Session.cc:325-351 | The loop refines the recursive specification. |
| PipeServer.PipeData.Serve | src/apps/pipeserv/Session.cc:83-351 | Whatever the clients may do (a message, a work item, a store into the own window) keeps the invariant of the object and is the step of the specification. |
| PipeServer.PipeData.Work | src/apps/pipeserv/Session.cc:47-50 | Keeps the invariant and leaves nobody waiting who could be served. |
| HeapAreas.RunKeeps | src/libs/heap/heap.cc:67-198 | Every sequence of allocations, frees and appends keeps the areas well formed (multiples of 64 bytes, no two free neighbours), and they fill exactly what was there plus what was appended. |
| HeapAreas.LastFit | src/libs/heap/heap.cc:75-88 | The area that is found is free and large enough. |
| HeapAreas.LastFitIsLast | src/libs/heap/heap.cc:75-88 | If any area fits, one is found, and none behind it fits. |
| HeapAreas.AllocKeeps | src/libs/heap/heap.cc:67-115 | An allocation keeps the areas well formed and grows the heap by what it appended; the result is used, at least as large as needed and less than 64 bytes larger. |
| HeapAreas.AllocFailsOnlyWhenFull | src/libs/heap/heap.cc:76-93 | An allocation fails only if, after all extensions, no area fits. |
| HeapAreas.FreeUndoesTake | src/libs/heap/heap.cc:95-177 | Freeing what was just taken out of the heap restores the list of areas exactly. |
| HeapAreas.FreeUndoesAlloc | src/libs/heap/heap.cc:67-177 | The same by address: freeing what an allocation returned, without extension, restores the list of areas. |
| HeapAreas.FreeIsCoalesce | src/libs/heap/heap.cc:140-177 | The two local merges of `heap_free` have the effect of merging all free neighbours of the whole heap. |
| HeapAreas.FreeIsConfluent | src/libs/heap/heap.cc:140-177 | Freeing a set of blocks gives the same areas in any order. |
| HeapAreas.FreeEverything | src/libs/heap/heap.cc:140-177 | Freeing all used blocks, in any order, leaves one free area. |
| HeapAreas.FreePlusUsed | src/libs/heap/heap.cc:200-209 | Free and used bytes add up to the size of the heap. |
| HeapAreas.AreaSizeExactly | src/libs/heap/heap.cc:73-73 | The size computation has room for header and payload if and only if the requested size plus 127 does not wrap around; it yields 0 exactly for 64 of the sizes that do. |
| HeapMemory.TakeRepresents | src/libs/heap/heap.cc:95-109 | The stores of `heap_alloc` turn headers for the old list into headers for the new list, with distances in both directions. |
| HeapMemory.FreeRepresents | src/libs/heap/heap.cc:154-176 | The same for the stores of `heap_free` with its merges to both sides. |
| HeapMemory.AppendRepresents | src/libs/heap/heap.cc:179-198 | The same for `heap_append`. |
| HeapMemory.MergeNeedsAlignedEnd | src/libs/heap/heap.cc:186-197 | In every heap whose last area is free, that area reaches the new end after `heap_append` if and only if the old end plus one header is page aligned. |
| HeapMemory.AppendHeap | src/libs/heap/heap.cc:179-198 | `heap_append` keeps the heap, including that alignment, and every live payload byte. |
| HeapMemory.TakeHeap | src/libs/heap/heap.cc:95-109 | Taking an area keeps the heap and every live payload byte. |
| HeapMemory.TakeNothingLoses | src/libs/heap/heap.cc:97-109 | With an area size of 0 the new header is the old one: whatever area was found, no list of areas fits to the memory afterwards. |
| HeapMemory.TakeHeapExactly | src/libs/heap/heap.cc:73-109 | The stores of an allocation that found an area leave no heap if and only if the requested size is one of the 64 that wrap around to 0. |
| HeapMemory.FreeHeap | src/libs/heap/heap.cc:140-177 | Freeing an area keeps the heap and every payload byte outside of it. |
| HeapMemory.UsedAreasApart | src/libs/heap/heap.cc:67-115 | Used areas are pairwise disjoint. |
| HeapMemory.TakeGivesPayload | src/libs/heap/heap.cc:97-114 | What is handed out is an aligned used area with room for the requested bytes. |
| HeapMemory.TakeGivesFresh | src/libs/heap/heap.cc:97-114 | What is handed out was not part of any payload before. |
| HeapMemory.AllocKeepsArea | src/libs/heap/heap.cc:67-115 | An allocation, with its extensions, keeps every used area and hands out a different one. |
| HeapMemory.CopySurvivesFree | src/libs/heap/heap.cc:132-136 | Freeing the old area in `heap_realloc` leaves the copy alone. |
| HeapMemory.ShrinkingOverwritesHeader | src/libs/heap/heap.cc:132-134 | `heap_realloc` copies the whole old payload: if the new area is smaller, the header behind it is replaced by payload, and no heap is left unless the distance to the previous header happens to be right. |
| HeapMemory.CopyExactly | src/libs/heap/heap.cc:132-134 | The copy keeps the heap for all contents of the payload if and only if the new area is not smaller; otherwise, and only then, some contents leave no heap at all. |
| HeapMemory.ReallocExactly | src/libs/heap/heap.cc:124-138 | The same in terms of what the caller knows: the length of the old area and the area size for the request. |
| HeapMemory.SmallHeapIsHeap | src/libs/heap/heap.cc:76-88 | A heap with an area of 128 bytes; an allocation of size 0 finds the free area behind it. |
| HeapMemory.ReallocToNothingLoses | src/libs/heap/heap.cc:124-138 | After allocating, copying and freeing for a `heap_realloc` of that area to size 0, no heap is left. |
| HeapObject.Heap.constructor | src/libs/base/arch/baremetal/Heap.cc:48-54 | The headers of a heap that is one free area, for every aligned end. |
| HeapObject.Heap.Scan | src/libs/heap/heap.cc:78-88 | The backward scan over the headers terminates and finds the last area that fits, or shows that none does. |
| HeapObject.Heap.Alloc | src/libs/heap/heap.cc:67-115 | Areas and pointer are those of the specification; the payload is aligned, fresh and fills the computed area size; no live payload byte changes. If the size wraps around to 0 and an area is found, the heap is lost. |
| HeapObject.Heap.Free | src/libs/heap/heap.cc:140-177 | Null does nothing, a double free is reported and changes nothing, everything else frees exactly that area and keeps all other payload. |
| HeapObject.Heap.Append | src/libs/heap/heap.cc:179-198 | The heap grows by the pages, keeps every live payload byte, and can be extended again. |
| HeapObject.Heap.Realloc | src/libs/heap/heap.cc:124-138 | Returns null exactly if the allocation fails, and then nothing is lost; otherwise the new payload has the old contents and all others are kept. |
| HeapObject.Heap.FreeMemory | src/libs/heap/heap.cc:200-209 | The loop over the headers returns the free bytes; with the used ones they are end minus begin. |
| CowProofs.StepRefines | src/apps/pager/DataSpace.cc:31-167 | Every step (populate, fault, share, drop, store) is a step of a machine in which each region has its own contents; the invariant holds afterwards. |
| CowProofs.RunRefines | src/apps/pager/DataSpace.cc:31-167 | So does every run. |
| CowProofs.EveryRunRefines | src/apps/pager/DataSpace.cc:31-167 | And every run from the empty pager. |
| CowProofs.Isolation | src/apps/pager/Region.cc:67-116 | No run of faults, stores, clones and removals for others changes what a region contains. |
| CowProofs.CloneIsSnapshot | src/apps/pager/DataSpace.cc:48-63 | After any such run, the clone's region contains what the parent's region contained at the time of the clone. |
| CowProofs.SharedIsCow | src/apps/pager/DataSpace.cc:50-62 | A writable region whose memory has several references is marked copy-on-write and not mapped writable. |
| CowProofs.StoreIsPrivate | src/apps/pager/DataSpace.cc:98-106 | A store through a writable mapping changes no other region. |
| CowProofs.SeenIsContent | src/apps/pager/Region.cc:57-65 | Whoever has a mapping sees the contents of the region through it, also after the owner swapped gates. |
| CowProofs.LastSharer | src/apps/pager/PhysMem.h:58-60 | A reference count of one means that no other region uses the memory. |
| CowProofs.FaultKeeps | src/apps/pager/DataSpace.cc:94-106 | A fault keeps the invariant and all contents, and leaves the region mapped and without the flag. |
| CowProofs.PopulateGivesAccess | src/apps/pager/DataSpace.cc:74-106 | After the first fault the process sees the pages that were loaded, and can store to each of them if and only if the dataspace is writable. |
| CowProofs.FaultGivesAccess | src/apps/pager/DataSpace.cc:94-106 | After every other fault the process sees what the region contained, and can store if and only if the dataspace is writable. |
| CowProofs.MemoryIsGivenBack | src/apps/pager/PhysMem.h:54-60 | In every run, all physical memory that exists belongs to some region. |
| CowProofs.CowFaultContent | src/apps/pager/Region.cc:67-116 | All three cases of `copy` (last one, owner, not owner) keep the contents of every region. |
| CowProofs.CopySourceIsContent | src/apps/pager/Region.cc:83-85 | The place that `copy` reads from, the owner's memory or the gate, holds the contents. |
| CowLimits.CopyNeedsOffsetZero | src/apps/pager/Region.cc:83-115 | Whoever gets the copy, the region itself or, if it is the owner, the others, keeps its contents if and only if the offset into the memory is 0. |
| CowLimits.CopyNeedsOwner | src/apps/pager/Region.cc:94-98 | With another owner, the copy has the contents, whatever the memories hold, if and only if the owner has its region, it is mapped, and the mapping shows the memory. |
| CowLimits.DropExactly | src/apps/pager/Region.cc:36-42 | After a region was destroyed, all later runs leave regions of others alone if and only if it was not the owner of writable memory that others still use. |
| CowLimits.PopulateExactly | src/apps/pager/DataSpace.cc:109-149 | After a region was populated, all later runs leave regions of others alone if and only if it is read-only or starts at its first page of memory. |
| CowLimits.InvIsolates | src/apps/pager/Region.cc:67-116 | From every state that satisfies the invariant, all later runs do. |
| Pager.CopyBlock | src/apps/pager/Region.cc:28-34 | The loop copies the pages in order. |
| Pager.Pager.CopyMemory | src/apps/pager/Region.cc:83-98 | The copy of a region is what the owner's mapping shows or, without owner, what the physical memory holds. |
| Pager.Pager.MapRegion | src/apps/pager/Region.cc:57-65 | New state: the region is mapped to its gate with the given permission. |
| Pager.Pager.CopyRegion | src/apps/pager/Region.cc:67-116 | New state of regions, memories and gates. |
| Pager.Pager.HandleFault | src/apps/pager/DataSpace.cc:94-107 | New state after a fault on a region with memory; see Serve for what it keeps. |
| Pager.Pager.DropRegion | src/apps/pager/Region.cc:36-42 | New state: the region is gone, and its memory if it was the last one. |
| Pager.Pager.ShareRegion | src/apps/pager/DataSpace.cc:49-63 | New state for one iteration of the loop of `inherit`. |
| Pager.Pager.PopulateRegion | src/apps/pager/DataSpace.cc:90-106 | New state after the first fault in a region. |
| Pager.Pager.Serve | src/apps/pager/DataSpace.cc:31-167 | Whatever may happen keeps the invariant of the object and looks like a step of the machine without sharing. |
| Pager.Pager.constructor | src/apps/pager/pager.cc:46-56 | A new pager without address spaces satisfies the invariant. |
| Pager.Pager.Clear | src/apps/pager/RegionList.cc:20-25 | Exactly the regions of the dataspace go; all others keep their contents. |
| Pager.Pager.Inherit | src/apps/pager/DataSpace.cc:31-64 | The dataspace takes over the id; it keeps its regions if it is read-only and has some, otherwise it has exactly the parent's regions with the parent's contents; nothing else changes. |
| Pager.Pager.RemoveSpace | src/apps/pager/AddrSpace.cc:34-37 | The dataspace and its regions are gone, all others keep their contents. |
| Pager.Pager.PrepareSpace | src/apps/pager/AddrSpace.cc:44-60 | The child's dataspace with the same id stays as it is; any other one is removed and replaced by a new one without regions and with the parent's permissions. |
| Pager.Pager.Clone | src/apps/pager/AddrSpace.cc:39-67 | For every dataspace of the parent the child has one with its id and permissions and exactly its regions with its contents, or keeps the regions and contents of a read-only one with the same id; no other address space changes. |
| RegionList.LimitToExactly | src/apps/pager/Region.cc:48-55 | The limited region is a page-aligned part that contains the faulting offset if and only if at least one page is allowed; it is never larger than allowed. |
| RegionList.LimitToIsLarge | src/apps/pager/Region.cc:48-55 | The limited region is as large as it may be: it begins half of the pages in front of the fault or at the old beginning, and has all pages or ends at the old end. |
| RegionList.AnonIsLarge | src/apps/pager/DataSpace.cc:80-93 | A fault at the beginning of a large page populates 2 MiB or everything up to the end, every other one no more than the maximum. |
| RegionList.AlignToCapKeeps | src/apps/pager/DataSpace.cc:125-139 | After the alignment with the capability, the faulting page is still inside and mapped to its place in the file, and the mapping does not exceed the page-rounded capability. |
| RegionList.InsertKeepsSorted | src/apps/pager/RegionList.cc:42-47 | A new region in a gap keeps the list sorted, disjoint, aligned and inside of the dataspace. |
| RegionList.ShrinkKeepsSorted | src/apps/pager/Region.h:104-124 | So does shrinking a region. |
| RegionList.RegionList.PageFault | src/apps/pager/RegionList.cc:27-48 | Returns the region that contains the offset; the list is unchanged or got exactly the gap as a new region. |
| RegionList.RegionList.PopulateAnon | src/apps/pager/DataSpace.cc:74-93 | Adds at most one region around the fault, the gap limited to the maximum or to a large page; the list stays in order and all other regions stay. |
| RegionList.RegionList.PopulateExternal | src/apps/pager/DataSpace.cc:109-139 | The same for files, with the mapping inside of the capability and at the right offset. |
| RegionList.OverlapExactly | src/include/base/util/Math.h:58-62 | `Math::overlap` of a range that is not empty with any other range holds if and only if they are not disjoint. |
| RegionList.Overlaps | src/apps/pager/AddrSpace.cc:21-27 | The loop finds an overlap if and only if there is one; otherwise the dataspaces with the new one, if it is not empty, are disjoint. |
| ChainProofs.StepKeeps | src/apps/imgproc/indirect.cc:84-138 | Every step (an accelerator finishes, a message arrives) keeps the invariant: output plus what is in the stages is all stages applied to what was read. |
| ChainProofs.ForwardsIntoIdle | src/apps/imgproc/indirect.cc:86-91 | A stage that forwards has an idle successor. |
| ChainProofs.AlwaysOutstanding | src/apps/imgproc/indirect.cc:84-123 | While any stage is not idle, an accelerator is working or has a message on its way. |
| ChainProofs.BytesInFlight | src/apps/imgproc/indirect.cc:97-101 | `total - seen` is the number of bytes in the stages. |
| ChainProofs.InactiveExactly | src/apps/imgproc/indirect.cc:84-123 | `handle_msg` returns false if and only if the input is exhausted and all stages are idle. |
| ChainProofs.OutputIsComplete | src/apps/imgproc/indirect.cc:95-122 | When all stages are idle, the output is all stages applied in order to every chunk of the input. |
| ChainProofs.WorkDecreases | src/apps/imgproc/indirect.cc:84-138 | Every step decreases a measure, so every run ends. |
| ChainHost.LabelRoundTrip | src/apps/imgproc/indirect.cc:74-77 | The event loop recovers chain and accelerator from the label. |
| ChainHost.IndirChain.constructor | src/apps/imgproc/indirect.cc:39-66 | An idle chain. |
| ChainHost.IndirChain.ReadNext | src/apps/imgproc/indirect.cc:125-138 | New state of the object, and whether there was input. |
| ChainHost.IndirChain.HandleMsg | src/apps/imgproc/indirect.cc:84-123 | New state of the object, and whether the chain is still active. |
| ChainHost.CreateChains | src/apps/imgproc/indirect.cc:163-178 | One idle object for every input; no two share memory. |
| ChainHost.StartChains | src/apps/imgproc/indirect.cc:186-191 | Succeeds if and only if every input has a first chunk; then all chains are active and on their way. |
| ChainHost.HandleEvent | src/apps/imgproc/indirect.cc:193-211 | Whichever accelerator is next, one round changes only its chain, keeps all chains on their way, leaves the chain active exactly if chunks are in it, and decreases the work that is left. |
| ChainHost.EventLoop | src/apps/imgproc/indirect.cc:193-211 | The loop over all objects ends, in whatever order messages arrive, with no active chain left. |
| ChainHost.ChainIndirect | src/apps/imgproc/indirect.cc:183-211 | It fails if and only if an input is empty; otherwise every output file is all stages applied to its input. |
| Extents.LookupIsIndexing | src/include/fs/internal.h:274-307 | For every block number of the file, `get_block_no` is the element at that index of the direct, then indirect, then double-indirect extents laid out one after the other. |
| Extents.LookupIsInjective | src/include/fs/internal.h:274-307 | If the extents of a file are pairwise disjoint, different block numbers have different blocks. |
| Extents.BehindEndIsNoticed | src/include/fs/internal.h:296-307 | Behind the last block the answer is 0 if no pointer is 0. |
| Extents.BehindEndExactly | src/include/fs/internal.h:296-307 | All numbers behind the end are answered with 0 if and only if there is an indirect block and either all entries of the double-indirect block are in use or, without one, the tables that the superblock's entries name contain no block: pointers that are 0 are followed into the superblock. |
| Extents.IndirectEndDepends | src/include/fs/internal.h:303-306 | A file with an indirect block and no double-indirect one, on a disk where a number behind its end gets block 7, and on one where all are noticed. |
| Extents.MissingBlockIsNotNoticed | src/include/fs/internal.h:303-306 | For a file without indirect block, as many block numbers behind the end as there are inodes get an answer that is not 0. |
| Extents.UnusedEntryIsFollowed | src/include/fs/internal.h:279-283 | An unused entry of the double-indirect block is followed in the same way. |
| Extents.FindInTable | src/include/fs/internal.h:284-290 | The loop over one table. |
| Extents.FindBlock | src/include/fs/internal.h:296-307 | The loops refine the recursive lookup. |
| FsckCollect.Checker.SetBlock | src/tools/m3fsck/m3fsck.cc:33-37 | Succeeds if and only if the block is in range and was not set. |
| FsckCollect.Checker.ClaimUsed | src/tools/m3fsck/m3fsck.cc:107-124 | The loop accepts a double-indirect block of an intact tree exactly if the used entries come first and have length 1, and claims each of them. |
| FsckCollect.Checker.ClaimPointers | src/tools/m3fsck/m3fsck.cc:87-129 | Accepts, for an intact tree, exactly the pointers that fit to the number of extents, and claims their blocks. |
| FsckCollect.Checker.CollectBlock | src/tools/m3fsck/m3fsck.cc:52-84 | One data block: it is found, readable and claimed, and with a directory all children in it are collected; an intact tree is accepted. |
| FsckCollect.Checker.WalkBlock | src/tools/m3fsck/m3fsck.cc:63-71 | All children that the directory block lists are collected. |
| FsckSpec.WalkInsideExactly | src/tools/m3fsck/m3fsck.cc:63-71 | The walk over a directory block reads only inside of it if and only if it ends at an entry inside of the block without a next one. |
| FsckSpec.LastEntryReadsBehind | src/tools/m3fsck/m3fsck.cc:66-66 | An entry that reaches the end of the block, as `mkm3fs` writes it, makes the walk read behind the block. |
| FsckSpec.ChildrenIgnoreBehind | src/tools/m3fsck/m3fsck.cc:66-66 | What is read there has no influence on the children that are found. |
| FsckLayout.LayoutExactly | src/include/fs/internal.h:138-158 | Data begins behind the superblock, two bitmaps and the inodes, each of which has as many blocks as it needs and no fewer would do. |
| FsckLayout.CapacityExactly | src/include/fs/internal.h:187-190 | A bitmap has whole words for all its bits, and none too many. |
| FsckLayout.ExtentsPerBlockExactly | src/include/fs/internal.h:159-161 | As many extents of 8 bytes as fit into a block. |
| FsckLayout.BlockCountExactly | src/tools/m3fsck/m3fsck.cc:49-49 | A file has as many blocks as its bytes need, and no fewer would do. |
| FsckLayout.BytesAndBlocks | src/tools/m3fsck/m3fsck.cc:49-49 | Every byte lies in one of the blocks, and a block is counted if and only if a byte of the file lies in it. |
| FsckLayout.EntriesExactly | src/tools/m3fsck/m3fsck.cc:96-116 | In an accepted double-indirect block an entry is used if and only if its table has one of the extents. |
| FsckLayout.PointerBlocksAre | src/tools/m3fsck/m3fsck.cc:87-129 | The blocks claimed for extents are those that the indirect pointer, the double-indirect pointer and its entries name. |
| FsckLayout.ChildrenAreEntries | src/tools/m3fsck/m3fsck.cc:63-71 | The children of a directory block are those named by the entries on the walk, without `.` and `..`. |
| FsckLayout.PowerOf2Exactly | src/tools/m3fsck/m3fsck.cc:180-180 | The test on the block size accepts the powers of two. |
| FsckLayout.ChecksumWeights | src/include/fs/internal.h:165-169 | The weight of every field. |
| FsckLayout.ChecksumDetects | src/include/fs/internal.h:165-169 | Replacing any one field but the block size by another 32-bit value changes the checksum. |
| FsckLayout.BlocksizeDetects | src/include/fs/internal.h:165-169 | Another block size leaves the checksum as it is if and only if it differs by half of the 32-bit range. |
| FsckCollect.Checker.Collect | src/tools/m3fsck/m3fsck.cc:39-130 | The recursion ends, also for cyclic directories; if it accepts, every inode that it marked is intact, has claimed all of its blocks and has its children marked; an intact tree is accepted. |
| FsckMain.CheckBitmap | src/tools/m3fsck/m3fsck.cc:132-157 | Accepts if and only if the bitmap on disk agrees with the one in memory and has the given number of free bits. |
| FsckMain.FirstFree | src/include/fs/internal.h:309-314 | The first clear bit; reads behind the bitmap if and only if all bits are set and fill the last word. |
| FsckMain.MarkMeta | src/tools/m3fsck/m3fsck.cc:194-196 | Marks the blocks of the file system itself. |
| FsckMain.CheckTree | src/tools/m3fsck/m3fsck.cc:198-199 | Accepts if and only if every inode reachable from the root is intact and no block is used twice; then the bitmaps in memory are the reachable inodes and the used blocks. |
| FsckMain.Check | src/tools/m3fsck/m3fsck.cc:172-216 | Accepts if and only if the superblock is valid, the tree is intact, no block is used twice, both bitmaps on disk are exactly the sets in use, and the counters fit. |
| FsckMain.EmptyIsIntact | src/tools/m3fsck/m3fsck.cc:172-216 | An empty file system is accepted. |
| FsckMain.PaddingIsAccepted | src/tools/m3fsck/m3fsck.cc:33-37 | An image of 8 blocks whose root directory is in block 20 is accepted: the bits of the last bitmap word behind the total are there and are not compared. |
| FsckMain.WithinTotalsExactly | src/tools/m3fsck/m3fsck.cc:132-157 | An accepted image has all inodes and blocks in use below the totals of the superblock if and only if the numbers in use are the totals minus the free counters. |
| FsckMain.WholeWordsStayWithin | src/tools/m3fsck/m3fsck.cc:132-157 | It always has if both totals are multiples of 32. |
| FsckMeaning.BytesAreMarked | src/tools/m3fsck/m3fsck.cc:36-216 | In an accepted image, every byte of a reachable file lies in a block behind the metadata that the bitmap marks, if it has a bit for it. |
| FsckMeaning.BytesAreApart | src/tools/m3fsck/m3fsck.cc:36-216 | No block holds bytes of two reachable files or of two places of one file. |
| FsckMeaning.PointersAreMarked | src/tools/m3fsck/m3fsck.cc:36-216 | The blocks with extents are marked, too, and hold no byte of any file. |
| FsckMeaning.FreeIsUnused | src/tools/m3fsck/m3fsck.cc:36-216 | A block that the bitmap calls free holds no byte and no extent of any reachable file, and is no metadata. |
| FsckMeaning.ChildrenAreIntact | src/tools/m3fsck/m3fsck.cc:36-216 | Every inode that an entry of a reachable directory names exists, names itself and is marked. |
| MetaBufferProofs.StepIsPlain | src/apps/m3fs/MetaBuffer.cc:38-129 | Every get, modification while dirty, quit, write-back and mark has the effect on the logical contents that it has on a plain map from blocks to contents. |
| MetaBufferProofs.RunIsPlain | src/apps/m3fs/MetaBuffer.cc:38-129 | So does every run. |
| MetaBufferProofs.EveryRunIsPlain | src/apps/m3fs/MetaBuffer.cc:31-129 | And every run from the empty cache. |
| MetaBufferProofs.GetKeeps | src/apps/m3fs/MetaBuffer.cc:38-88 | A get changes no logical contents and returns a pinned head with the contents of the block. |
| MetaBufferProofs.PinnedStays | src/apps/m3fs/MetaBuffer.cc:59-73 | A block with links is never evicted, and its copy changes only by modification. |
| MetaBufferProofs.ExhaustedExactly | src/apps/m3fs/MetaBuffer.cc:59-69 | There is no head to reuse, which the source does not check, if and only if the block is not cached and all heads have links. |
| MetaBufferProofs.PinsBalance | src/apps/m3fs/MetaBuffer.cc:38-94 | In every run, the links of a head are the gets that returned it minus the releases. |
| MetaBufferProofs.VictimIsLeastRecentlyUsed | src/apps/m3fs/MetaBuffer.cc:46-82 | In every run, the head that is reused is unpinned, and no other unpinned head was last used earlier. |
| MetaBufferProofs.WriteBackStores | src/apps/m3fs/MetaBuffer.cc:115-121 | Afterwards the disk has the contents of the block and its head is clean; no other block of the disk and nothing else of the cache changes. |
| MetaBufferProofs.MarkedCanChange | src/apps/m3fs/Buffer.cc:40-44 | A cached block in use can be changed after it was marked dirty. |
| MetaBufferProofs.BlockZeroIsLost | src/apps/m3fs/MetaBuffer.cc:68-73 | An instance of WrittenBackExactly, a cache with one head: a change to block 0 is lost when the head is reused, and block 0 shows the other block. |
| MetaBufferProofs.WrittenBackExactly | src/apps/m3fs/MetaBuffer.cc:68-84 | In every cache, a block that was loaded, changed and released keeps its new contents, and the disk gets them, when its head is reused for another block, if and only if it is not block 0. |
| MetaBuffer.MetaBuffer.constructor | src/apps/m3fs/MetaBuffer.cc:31-36 | Unused heads over the disk; satisfies the invariant. |
| MetaBuffer.MetaBuffer.GetBlock | src/apps/m3fs/MetaBuffer.cc:38-88 | New state of the object and the head, for every block and also if there is no head; with a head and a block other than 0 the invariant and all contents are kept, and the head has the contents of the block. |
| MetaBuffer.MetaBuffer.Quit | src/apps/m3fs/MetaBuffer.cc:90-94 | New state of the object; keeps the invariant. |
| MetaBuffer.MetaBuffer.FlushChunk | src/apps/m3fs/MetaBuffer.cc:103-113 | New state of the object. |
| MetaBuffer.MetaBuffer.WriteBack | src/apps/m3fs/MetaBuffer.cc:115-121 | New state of the object; no logical contents change. |
| MetaBuffer.MetaBuffer.Flush | src/apps/m3fs/MetaBuffer.cc:123-129 | Afterwards the disk has the logical contents of every block but 0. |
| ThreadProofs.ExactlyOnePlace | src/include/thread/ThreadManager.h:64-132 | In every run each thread that was not stopped is exactly once in current, ready, blocked or sleep, and no other thread is. |
| ThreadProofs.WokenInOrder | src/include/thread/ThreadManager.h:64-105 | Threads run in the order in which they were woken up. |
| ThreadProofs.WakeUpNeedsNotify | src/include/thread/ThreadManager.h:64-96 | If a thread that waits for an event runs again, there was a notify of that event since, and the thread has the message of that notify. |
| ThreadProofs.BlockedStep | src/include/thread/ThreadManager.h:84-96 | A step makes a blocked thread ready exactly if it notifies its event. |
| ThreadProofs.ReadyKeepsMessage | src/include/thread/ThreadManager.h:84-96 | A ready thread has the same message until it runs. |
| ThreadProofs.WaitBlocks | src/include/thread/ThreadManager.h:64-74 | The caller of `wait_for(e)` is blocked for exactly this event and does not run; the events of all other blocked threads stay. |
| ThreadProofs.WaitNeedsNotify | src/include/thread/ThreadManager.h:64-96 | In every run from a call of `wait_for(e)` to its return there is a notification of `e`, and the thread has its message. |
| ThreadProofs.NotifyInOrder | src/include/thread/ThreadManager.h:84-96 | A notification makes exactly the threads ready that wait for the event, in the order in which they began to wait. |
| ThreadProofs.ReadyRunsNext | src/include/thread/ThreadManager.h:64-105 | If the current thread waits, yields or stops, the first ready thread runs and the others move up; no other step takes the processor away. |
| ThreadProofs.ReadyRuns | src/include/thread/ThreadManager.h:64-105 | In every run, a ready thread with `i` others in front of it runs after `i + 1` switches. |
| ThreadProofs.SleepingRunsNext | src/include/thread/ThreadManager.h:64-105 | Without ready threads, the first sleeping one replaces a thread that waits or stops, and a thread that yields goes on. |
| ThreadProofs.YieldSleeps | src/include/thread/ThreadManager.h:76-82 | A thread that yields is the first one to be reused. |
| ThreadManager.ThreadManager.constructor | src/include/thread/ThreadManager.h:108-115 | Only the main thread; satisfies the invariant. |
| ThreadManager.ThreadManager.Add | src/include/thread/ThreadManager.h:117-119 | New state of the object; keeps the invariant. |
| ThreadManager.ThreadManager.WaitFor | src/include/thread/ThreadManager.h:64-74 | New state of the object; keeps the invariant that every living thread is in exactly one place and woken threads wait in order. |
| ThreadManager.ThreadManager.Yield | src/include/thread/ThreadManager.h:76-82 | New state of the object; keeps the invariant that every living thread is in exactly one place and woken threads wait in order. |
| ThreadManager.ThreadManager.Notify | src/include/thread/ThreadManager.h:84-96 | The loop that removes while it walks refines the recursive specification; keeps the invariant. |
| ThreadManager.ThreadManager.Stop | src/include/thread/ThreadManager.h:98-105 | New state of the object; keeps the invariant that every living thread is in exactly one place and woken threads wait in order. |
| SendQueueProofs.StepKeeps | src/apps/kernel/SendQueue.cc:41-141 | Every step keeps the invariant; `send_pending` is two steps, because other steps can happen while it resumes the VPE. |
| SendQueueProofs.NeverTwoInFlight | src/apps/kernel/SendQueue.cc:115-125 | In every run that was not aborted, at most one message is unanswered, and the current event is that of this message. |
| SendQueueProofs.SendsOnlyToRunning | src/apps/kernel/SendQueue.cc:47-48 | A step sends at most one message, and only to a running VPE with nothing in flight. |
| SendQueueProofs.ExactlyOneFate | src/apps/kernel/SendQueue.cc:41-141 | Each accepted message is exactly one of queued, held by `send_pending`, in flight, answered, dropped, or unheard after an abort; nothing is dropped or unheard before an abort or the death of the VPE; no message is ever sent twice, and none that waits or was dropped was sent. |
| SendQueueProofs.RepliesReachWaiters | src/apps/kernel/SendQueue.cc:99-132 | In every run, the events that are notified until an abort are those of the answered messages, in the order of sending; an abort also notifies the message in flight. |
| SendQueueProofs.EventsDiffer | src/apps/kernel/SendQueue.cc:37-39 | Different messages have different events, and none is 0. |
| SendQueueProofs.DroppedAreNotTold | src/apps/kernel/SendQueue.cc:127-141 | In every run with ids below the highest bit, the event of a message that was dropped is never notified. |
| SendQueueProofs.NotForgotten | src/apps/kernel/SendQueue.cc:50-113 | While messages are queued and the VPE did not die, a reply, a timeout or a held message will continue the queue. |
| SendQueueProofs.EventIsMarked | src/apps/kernel/SendQueue.cc:37-39 | An event is the id with the highest bit set, for all ids. |
| SendQueueProofs.SendReturnsOwnEvent | src/apps/kernel/SendQueue.cc:41-66 | `send` accepts one message and returns the event of this message, or 0 if the queue was aborted. |
| SendQueueProofs.AnsweredAreTold | src/apps/kernel/SendQueue.cc:41-113 | In every run, each call of `send` returned the event of its message, and if the message was answered, this event was notified. |
| SendQueueProofs.PendingTakesOldest | src/apps/kernel/SendQueue.cc:68-97 | `send_pending` takes the oldest message and sends this one, or queues it again as the last one. |
| SendQueueProofs.InFlightExactly | src/apps/kernel/SendQueue.cc:41-141 | Only an abort aborts the queue, and until then only a reply takes a message out of flight. |
| SendQueueProofs.AbortExactly | src/apps/kernel/SendQueue.cc:127-141 | The first abort notifies exactly the message in flight and drops exactly the queued ones. |
| SendQueueProofs.TimeoutsBalance | src/apps/kernel/SendQueue.cc:50-141 | In every run, the pending timeouts are those that were armed minus those that fired or were cancelled, and one that is to be cancelled is pending. |
| SendQueue.SendQueue.constructor | src/apps/kernel/SendQueue.h:46-52 | An empty queue with nothing in flight, which satisfies the invariant. |
| SendQueue.SendQueue.Send | src/apps/kernel/SendQueue.cc:41-66 | New state of the object and the event; keeps the invariant. |
| SendQueue.SendQueue.BeginPending | src/apps/kernel/SendQueue.cc:68-76 | New state of the object up to the resume of the VPE; keeps the invariant. |
| SendQueue.SendQueue.EndPending | src/apps/kernel/SendQueue.cc:87-97 | New state of the object after the resume: queue again or send; keeps the invariant. |
| SendQueue.SendQueue.ReceivedReply | src/apps/kernel/SendQueue.cc:99-113 | New state of the object; keeps the invariant. |
| SendQueue.SendQueue.DoSend | src/apps/kernel/SendQueue.cc:115-125 | New state of the object and the event. |
| SendQueue.SendQueue.Abort | src/apps/kernel/SendQueue.cc:127-141 | New state of the object; keeps the invariant. |

## Left out

- DTU, gates, system calls, message marshalling, sessions and logging: replies, mappings, reads and writes of memory are abstract steps.
- Failures of `createmap`, of `derive` and of memory allocation in the pager.
- Pager objects: regions, memories and gates are maps of one `Pager` object instead of objects that refer to each other; pointers between them are keys.
- Thread switches and dirty caches inside of `Region::copy`: a fault is one step.
- Writable mappings with `MAP_SHARED`, which are shared on purpose.
- Dataspaces: `clone` matches dataspaces by their start address; that `dstree.find` also finds one that merely contains the address is not modelled.
- CowProofs.StepRefines: for runs in which no owner of writable memory that others still use destroys its region first; DropExactly shows that isolation is lost otherwise.
- CowProofs.RunRefines: the same restriction.
- CowProofs.EveryRunRefines: the same restriction.
- CowProofs.Isolation: the same restriction.
- CowProofs.CloneIsSnapshot: the same restriction.
- Pager.Pager.Clear: the address space does not own memory that others still use, see DropExactly.
- Pager.Pager.RemoveSpace: the same restriction.
- Pager.Pager.Serve: the same restriction for the region that is dropped.
- Pager.Pager.Inherit: the same restriction for the child.
- Pager.Pager.PrepareSpace: the same restriction for the child.
- Pager.Pager.Clone: the same restriction for the child; that an address space without parent is refused is not modelled.
- RegionList.AlignToCapKeeps: for a page-aligned capability that covers the fault, which the file system returns.
- RegionList.RegionList.PopulateExternal: requires a page-aligned capability that covers the fault, which the file system returns.
- HeapAreas.RunKeeps: for area sizes of at least one header; TakeHeapExactly shows what the others do.
- HeapMemory.AppendRepresents: for an end that is one header below a page boundary, see MergeNeedsAlignedEnd.
- HeapMemory.AppendHeap: the same restriction.
- HeapObject.Heap.Append: the same restriction.
- HeapObject.Heap.Alloc: requires a page-aligned end if it has to extend the heap, see MergeNeedsAlignedEnd.
- HeapObject.Heap.Realloc: requires a new area that is at least as large as the old one, see ReallocExactly.
- Heap memory: cells of 64 bytes in a map; whether memory is mapped, `heap_calloc`, `heap_used_end` and the callbacks for tracing are not modelled. The used bits are a field of their own.
- FsckCollect.Checker.WalkBlock: reading behind the end of a directory block has no influence on the verdict, in contrast to a bitmap access outside; WalkInsideExactly says when it happens.
- FsckMain.Check: the same read behind a directory block is not part of the verdict. 32-bit overflow of sizes and the raw bytes of the image are not modelled; blocks are given as tables of extents of any length and as directory entries by offset, and a block that cannot be read is missing.
- `Bitmap`: an array of bits in whole words, without the packing.
- MetaBufferProofs.RunIsPlain: for a backend that does not switch threads, for blocks other than 0 and as long as a head is free; nothing is said about the cache after `flush`.
- MetaBufferProofs.EveryRunIsPlain: the same restriction; WrittenBackExactly and ExhaustedExactly are about the other cases.
- MetaBufferProofs.StepIsPlain: the same restriction.
- MetaBufferProofs.GetKeeps: the same restriction.
- `FileBuffer` of m3fs: loaded chunks can overlap there.
- FIFO order of the send queue: a direct send overtakes queued ones in the source.
- SendQueue.SendQueue.EndPending: the loop around `resume` is a step of the environment; messages have ids, but no contents.
- Fairness between readers after all writers have closed: a new read overtakes waiting ones in the source.
- ThreadManager.ThreadManager.Notify: messages are values; their truncation to the buffer of the thread is not modelled. Nor is the destruction of threads.
- ChainHost.ChainIndirect: accelerators keep the length of a chunk, a set replaces the bit mask of active chains, and the number of chains is not limited by the width of that mask. Failing to open files or to create VPEs is not modelled.
- PipeProofs.EofOnlyWhenDrained: for at least four bytes per reader, see ZeroWindow.
- PipeAttach.AttachWriterExactly: for a buffer that is not empty in size; a pipe without memory never carries a byte.
- Treap, SList and DList: sequences and maps.
- Kernel capability tables, the network service, the shell, benchmarks and scripts.
