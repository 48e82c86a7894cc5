# Pintos kernel: verified models

Dafny models of the parts of the Pintos kernel whose correctness rests on invariants over unbounded state, with proofs of
what those parts are for. Each module models one component and keeps that component's form: code that updates structures in
place is a class whose fields are reassigned, an in-place array algorithm works on an array, and a loop is a loop with its
invariants. Every such method is tied by its contract to a specification function or relation, about which the lemmas beside
it prove what the component promises.

| module | component | main results |
|---|---|---|
| `PageTable` | four-level page table, `threads/mmu.c` | the radix tree refines a map from page number to entry; a failed insertion changes nothing; enumeration and destruction are exact |
| `PagingState`, `FlatMemory`, `FileSharing`, `Paging` | frames, lazy loading, swap, file-backed pages, `vm/` | any run of accesses and new pages, from the first load of each page on, behaves like flat memory, however often pages are evicted and claimed; exactly when file pages lose bytes |
| `List`, `MergeRuns` | intrusive list with natural merge sort, `lib/kernel/list.c` | sorting relinks the same nodes into the stable sorted order and terminates because the number of runs halves |
| `HashTable` | resizing chained hash table, `lib/kernel/hash.c` | a finite map under insert, replace, find, delete and rehash; iteration visits each element once |
| `Arithmetic` | 64-bit division from a 64/32 divide, `lib/arithmetic.c` | exact for every dividend and divisor, and no divide instruction traps |
| `InodeData` | sector transfers, `filesys/inode.c` | reads and writes of any alignment refine a byte array; nothing else on the disk changes |
| `Bitmap`, `Ownership`, `FileBytes`, `FileSystem` | bitmap, free map, directory, inode lifetime, `filesys/` | over any run no two files share a sector, and a file that stays open holds what it held, with the writes to it |
| `Arenas`, `Malloc` | block allocator, `threads/malloc.c` | live blocks are disjoint, large enough and keep their bytes; a page goes back exactly with its last live block |
| `SchedulerState`, `SchedulerSteps`, `SchedulerRuns`, `Scheduler` | threads, semaphores, locks, `threads/thread.c`, `threads/synch.c` | over all interleavings: queues exclusive, no lost wake-up, conservation, mutual exclusion; the steps a run takes, and from them who runs, gets a unit or a lock, or wakes next |
| `Donation` | giving back donated priority, `threads/thread.c` | after a release the priority is the highest of the thread's own and those of its remaining donors |
| `WaitExit` | wait/exit handshake, `userprog/process.c` | over all interleavings: a status is read only after exit, once, no page is freed while it is referred to, and once its child has exited a waiting parent returns the status in four turns |
| `Mlfqs` | fixed-point recurrences of the feedback scheduler, `threads/thread.c` | no 32-bit overflow in any run with at most 545 threads; the rounded recurrences stay within stated errors of the intended ones |
| `ArgPass` | `strtok_r` and `argument_stack` | the words of a line are its maximal runs, and a started program finds exactly them in `argv` |
| `PrintParse` | `%d` and `atoi` | the layout each flag asks for; reading back what was printed gives the integer, exactly unless grouping puts a comma in |
| `Sorting` | heap sort and binary search, `lib/stdlib.c` | sorted permutation for every total preorder; a match is found if and only if there is one |
| `Bits`, `Sequences` | shared: bit operations on naturals; queues and options | |

How things are represented. Kernel memory that the source reaches through pointers (page-table pages, `struct page`,
`struct frame`, in-memory inodes, arenas) is a map or sequence held in a field and reassigned in place; only the list and the
hash table's bucket array use heap objects of their own. Failures the code must survive (allocation, a bounce buffer, a short
read) are boolean or numeric parameters, so each contract covers every combination of them. In the concurrent modules a step
is one region during which interrupts are off, a thread's place between two such regions is part of the state, and a run is
any sequence of steps. The runs return, for the contracts only, the trace of states they pass through; a step relation
(`Next`) that spells out the records before and after holds between neighbours.

Findings, each proved, and where it depends on the input, together with the exact condition under which the code is right:

- `pml4_set_dirty (…, false)` clears with a 32-bit mask, so it keeps the frame address exactly when the whole entry is below
  4 GiB (`PageTable.ClearDirtyKeepsFrame`).
- A page claim whose page-table allocation or first load fails leaves the frame list and the page inconsistent, and so does
  one that brings a file page back but runs out of bounce buffers, which reports success; the invariant holds afterwards
  exactly when the page was mapped and wholly loaded (`Paging.Vm.DoClaimPage`).
- Evicting a dirty file page loses what its file does not take: it keeps its bytes in every state if and only if the file
  accepts writes and the transfer is not cut short (`FileSharing.WriteBackExact`; `PagingState.WriteBack` for each state).
- Two pages backed by the same bytes of a file do not agree: writing one back keeps the other in every state if and only if
  their parts do not meet (`FileSharing.SharedExact`).
- `umod64` returns 32 bits and is exact exactly when the remainder fits; `sdiv64` is exact except for the smallest dividend
  divided by -1.
- `malloc` wraps on sizes within a page and a header of 2^64; what it hands out is a valid block exactly for the other sizes
  (`Malloc.Allocator.Malloc`, `Malloc.PagesEnough`).
- `calculate_priority` does not clamp, so priorities leave the range 0 to 63; `Mlfqs.PriorityInRange` gives the exact band of
  recent_cpu in which they stay inside.
- `bitmap_scan_and_flip` with a count of zero returns its start argument, where its comment says zero; the model follows the code.
- `dir_add` takes the slot at which its search stopped, so a failed read can make it overwrite an entry in use: the files
  keep their entries if and only if the search does not end, for want of a buffer, at an entry in use with no free one before
  it (`FileSystem.EntriesKept`, with a lost entry in `FileSystem.EntryLost`). File ownership survives that, as the overwritten
  file's sectors merely stay marked.
- In `inode_write_at` the case that starts from a zeroed sector is never reached (asserted in `InodeData.Inode.WriteChunk`).

## Model

| member | source | states |
|---|---|---|
| PageTable.VpnDigits | include/threads/pte.h:25-28 | the four table indices of an address are the base-512 digits of its page number |
| PageTable.MacrosAreMasks | include/threads/pte.h:20-41 | the arithmetic used for indices, presence, frame address and new entries is what the shifts, masks and ors compute on 64-bit words |
| PageTable.DirtyBits | threads/mmu.c:278-289 | testing, setting and clearing the dirty bit by the code's masks is the arithmetic used; clearing also drops the upper half |
| PageTable.ClearDirtyKeepsFrame | threads/mmu.c:284 | clearing the dirty bit keeps the frame address if and only if the entry fits in 32 bits |
| PageTable.LookupIsEntry | threads/mmu.c:214-222 | the hardware's four-level walk over raw memory reads exactly the abstract map |
| PageTable.AddTable | threads/mmu.c:38-43 | hanging a zeroed page under an absent entry keeps the tree and every leaf entry |
| PageTable.DropTable | threads/mmu.c:51-55 | undoing that keeps the tree and every leaf entry |
| PageTable.StoreLeaf | threads/mmu.c:233-244 | storing a leaf entry changes that page of the map and no other |
| PageTable.PageMap.PgdirWalk | threads/mmu.c:12-29 | finds the leaf slot, allocating exactly what is missing; fails if and only if the allocator is short, and then frees and changes nothing |
| PageTable.PageMap.PdpeWalk | threads/mmu.c:32-56 | the same one level up, including the roll-back of its own table |
| PageTable.PageMap.Pml4eWalk | threads/mmu.c:65-89 | the same from the root: at any level of failure the map and the set of free pages are what they were |
| PageTable.PageMap.Pml4GetPage | threads/mmu.c:214-222 | returns the mapped frame plus the offset in the page, or null |
| PageTable.PageMap.Pml4SetPage | threads/mmu.c:233-244 | succeeds if and only if the missing tables can be had; then this page translates to the frame and every other as before; otherwise nothing has changed |
| PageTable.TranslateAfterSet | threads/mmu.c:214-244 | set then get is the identity on frame and offset, for every address |
| PageTable.PageMap.Pml4ClearPage | threads/mmu.c:251-263 | only the presence of that page is lost |
| PageTable.PageMap.Pml4IsDirty | threads/mmu.c:270-273 | the dirty bit of the page's entry in the map |
| PageTable.PageMap.Pml4SetDirty | threads/mmu.c:278-289 | only that page's entry changes, as the masks change it |
| PageTable.PageMap.Pml4Create | threads/mmu.c:96-101 | a new root that maps what the base maps, sharing its tables; null if and only if there is no page, and then nothing has changed |
| PageTable.RootCopied | threads/mmu.c:96-101 | a copied root is the root of a tree with the base's lower tables and leaf entries |
| PageTable.PageMap.PtForEach | threads/mmu.c:104-118 | passes one leaf table's present entries, and the auxiliary data, through the callback until it says to stop |
| PageTable.PageMap.PgdirForEach | threads/mmu.c:121-131 | the same over a directory |
| PageTable.PageMap.PdpForEach | threads/mmu.c:134-144 | the same over a pointer table |
| PageTable.PageMap.Pml4ForEach | threads/mmu.c:148-156 | passes the present leaves of the whole table in order, with the auxiliary data, through the callback until it says to stop |
| PageTable.VisitPrefix | threads/mmu.c:104-118 | the calls made are all of the leaves, or those up to and including the first for which the callback, with the data it had then, said to stop |
| PageTable.VisitAppend | threads/mmu.c:121-156 | visiting table by table is visiting the leaves of all of them in one sequence |
| PageTable.LeavesComplete | threads/mmu.c:148-156 | that enumeration holds a leaf if and only if it is present in the map, with its own address |
| PageTable.LeavesAscending | threads/mmu.c:148-156 | and is strictly ascending, so each leaf is visited once |
| PageTable.TagUnique | threads/mmu.c:159-200 | no page is reached in two ways, which is why destruction frees nothing twice |
| PageTable.PageMap.PtDestroy | threads/mmu.c:159-166 | releases the table and its frames, all in use until then, and nothing else |
| PageTable.PageMap.PgdirDestroy | threads/mmu.c:169-176 | the same for a directory's subtree |
| PageTable.PageMap.PdpeDestroy | threads/mmu.c:179-186 | the same for a pointer table's subtree |
| PageTable.PageMap.Pml4Destroy | threads/mmu.c:190-200 | exactly the pages under slot 0 and the root go back to the allocator |
| PageTable.DestroyedPages | threads/mmu.c:190-200 | those pages are the tables and mapped frames of the user half, none of the shared slots |
| PagingState.NewFrame | vm/vm.c:142-165 | taking a frame from the pool keeps the invariant and every page's bytes |
| PagingState.DirtyIsResident | vm/file.c:65-67 | a file page with its dirty bit set, in a present entry or not, is resident |
| PagingState.Claim | vm/vm.c:233-246 | claiming keeps all other pages' bytes, puts the content in the page and restores the bijection of resident pages and frames |
| PagingState.SwapOut | vm/anon.c:85-102 | evicting an anonymous page keeps every page's bytes and the distinct, marked swap slots |
| PagingState.WriteBack | vm/file.c:53-73 | evicting a file page keeps all others' bytes and changes files only under file pages; its own are kept if and only if the part that did not reach the file was in it anyway |
| PagingState.Write | vm/vm.c:185-212 | a user store changes one byte of one page, and marks it dirty |
| PagingState.Alloc | vm/vm.c:53-83 | a new page descriptor changes no page's bytes and keeps all of the invariant that does not compare file parts |
| FileSharing.SharedExact | vm/file.c:53-73 | writing a page back keeps another's bytes, in every state, if and only if their parts of files do not meet |
| FileSharing.SharedBreaks | vm/file.c:53-73 | for any two parts that meet, a state in which evicting one page changes the other |
| FileSharing.WriteBackExact | vm/file.c:53-73 | an evicted file page keeps its bytes, in every state, if and only if the file accepts writes and all of them get across |
| FileSharing.WriteBackLoses | vm/file.c:61-62 | for any part, and a file that denies writes or a transfer cut short, a state in which bytes are lost |
| Paging.Vm.AnonSwapOut | vm/anon.c:85-102 | the page's eight sectors are in the first free slot, which is now taken; it fails if and only if swap is full |
| Paging.Vm.AnonSwapIn | vm/anon.c:63-76 | the frame holds what the slot held, and the slot is free |
| Paging.Vm.FileSwapOut | vm/file.c:53-73 | the file holds the page's part, as far as the transfer goes, exactly if it was dirty and writes are allowed; the dirty bit is cleared and the page unmapped |
| Paging.Vm.EvictFrame | vm/vm.c:120-135 | the frame at the front of the list is spare, the others keep their order, with all bytes kept but those a file does not take; it panics if and only if that page is anonymous and swap is full |
| Paging.Vm.GetFrame | vm/vm.c:142-165 | a spare frame at the back of the list, the others in order: one from the pool, or, if that is empty, the one at the front after eviction; a panic if and only if neither is to be had |
| Paging.Vm.LazyLoadSegment | userprog/process.c:694-707 | the frame holds the file's bytes and zeros, if and only if the file has them all and the transfer is not cut short; otherwise the frame is freed |
| Paging.Vm.SwapIn | vm/uninit.c:47-57 | a page becomes what it was made for exactly once and is filled from its own backing; a file page that comes back reports success even if it is not filled |
| Paging.Vm.DoClaimPage | vm/vm.c:233-246 | exactly when it panics, when it succeeds, and when the invariant holds afterwards, which for a file page is not the same as success |
| Paging.Vm.AllocPage | vm/vm.c:53-83 | fails if and only if the address is taken; the new page is uninitialised, not resident, and has exactly the kind, writability and file part asked for; no page's bytes change, and the invariant holds unless file parts meet |
| Paging.Vm.Access | vm/vm.c:185-212 | exactly when the page can be made resident, and then what it holds: its own bytes or, at its first access, what it was made with |
| Paging.Vm.UserRead | vm/vm.c:185-212 | returns the byte of what the page holds, its first load included |
| Paging.Vm.UserWrite | vm/vm.c:185-212 | changes that byte of that page, its first load included, and no other; exactly if the page is writable |
| Paging.Vm.Run | vm/vm.c:53-246 | over any run of accesses and new pages, up to the first that is not served, each page that keeps its writes holds, and each read returns, what flat memory would, from the page's first contents on |
| FlatMemory.FlatStep | vm/vm.c:53-246 | one access with its faults and evictions, or one new page, is one step of flat memory |
| FlatMemory.FreshThen | userprog/process.c:694-707 | what a page is loaded with at its first access is what its file held at the start, unless another file page backs those bytes |
| FlatMemory.FirstAccess | userprog/process.c:694-757 | the first access to a page of a program segment finds exactly its bytes of the file followed by zeros, and the page is writable as asked |
| Paging.NewPageServed | vm/vm.c:185-212 | a store to a new page that can be made resident is served if and only if the page was made writable |
| Paging.EnoughReaches | vm/vm.c:142-246 | with a free frame or swap slot, table memory and the file's bytes at hand, an access is served if and only if the page was made |
| FlatMemory.PageOfHas | vm/vm.c:92 | the page of an address is the one it lies in |
| Paging.Vm.Serve | vm/vm.c:53-246 | an operation is served exactly under the stated condition, and then does what flat memory's step says |
| Paging.Vm.constructor | vm/anon.c:45-52 | with no pages and all frames and slots free the invariant holds |
| MergeRuns.PassHalves | lib/kernel/list.c:381-413 | one pass takes k runs to at most half of k, rounded up |
| MergeRuns.PassRuns | lib/kernel/list.c:381-413 | after a pass the list has no more runs than the pass counted |
| MergeRuns.MergeSorted | lib/kernel/list.c:358-375 | merging two sorted runs is sorted, for every strict weak order |
| MergeRuns.MergeStable | lib/kernel/list.c:358-375 | and keeps equivalent elements in order, the first run's first |
| MergeRuns.PassStable | lib/kernel/list.c:381-413 | so does a whole pass |
| MergeRuns.PassElements | lib/kernel/list.c:381-413 | a pass keeps the elements |
| MergeRuns.OneRunSorted | lib/kernel/list.c:405-412 | a list of one run is sorted, which is when the sort stops |
| MergeRuns.StableOrder | lib/kernel/list.c:381-413 | a stable sort puts equivalent elements in the order they had |
| List.RelinkedChain | lib/kernel/list.c:171-190 | the six link updates of a splice exchange two segments of the chain |
| List.List.ListInsert | lib/kernel/list.c:157-165 | the node is linked in, both ways, before the given one |
| List.List.ListRemove | lib/kernel/list.c:241-246 | the node is unlinked both ways and its successor returned |
| List.List.ListSplice | lib/kernel/list.c:171-190 | the range is moved in front of the given node and the links remain a chain |
| List.List.FindEndOfRun | lib/kernel/list.c:339-350 | the end of the maximal run in which no element is less than the one before it |
| List.List.InplaceMerge | lib/kernel/list.c:358-375 | relinking in place computes the stable merge of the two runs |
| List.List.MergePass | lib/kernel/list.c:381-413 | one pass over the nodes computes the pass on sequences and its count |
| List.List.ListSort | lib/kernel/list.c:381-413 | terminates with a well-formed chain of the same nodes, sorted and stable |
| List.List.ListInsertOrdered | lib/kernel/list.c:419-431 | keeps a sorted list sorted, the new node behind its equals |
| HashTable.TurnOffKeepsTop | lib/kernel/hash.c:304-306 | turning off the lowest one never goes below the power of two under the number, unless it is that power |
| HashTable.PowerOf2Test | lib/kernel/hash.c:310-312 | the test holds exactly for powers of two |
| HashTable.IdealBucketCnt | lib/kernel/hash.c:324-345 | a power of two, 4 or more, between a quarter of the elements and, above 4, half of them |
| HashTable.BucketIndex | lib/kernel/hash.c:283-286 | masking the hash is the hash modulo the bucket count |
| HashTable.LookupInserted | lib/kernel/hash.c:94-104 | inserting adds one entry to the map and changes no other |
| HashTable.LookupRemoved | lib/kernel/hash.c:137-144 | removing takes out one entry and changes no other |
| HashTable.InItsBucket | lib/kernel/hash.c:283-300 | an equal element can only be in the element's own bucket |
| HashTable.Table.FindElem | lib/kernel/hash.c:291-300 | a match in the bucket, or there is none |
| HashTable.Table.HashFind | lib/kernel/hash.c:125-127 | the map's entry |
| HashTable.Table.InsertElem | lib/kernel/hash.c:385-388 | the element is added, the count with it |
| HashTable.Table.RemoveElem | lib/kernel/hash.c:392-395 | the element is taken out, the count with it |
| HashTable.Table.HashInsert | lib/kernel/hash.c:94-104 | the map gains the element unless an equal one was there, which is returned |
| HashTable.Table.HashReplace | lib/kernel/hash.c:109-120 | the map holds the element in place of an equal one, which is returned |
| HashTable.Table.HashDelete | lib/kernel/hash.c:137-144 | the map loses the equal element, which is returned |
| HashTable.Table.Rehash | lib/kernel/hash.c:324-381 | the same elements in the ideal number of buckets, each at home; without memory, as before |
| HashTable.LoadFactor | lib/kernel/hash.c:314-345 | after a rehash there are fewer than four elements per bucket |
| HashTable.HashIterator.Next | lib/kernel/hash.c:205-218 | the next element in bucket order, or none after the last |
| HashTable.VisitAll | lib/kernel/hash.c:187-218 | the iteration idiom visits every element exactly once |
| Arithmetic.Divl | lib/arithmetic.c:26-36 | traps unless the quotient fits in 32 bits |
| Arithmetic.Nlz | lib/arithmetic.c:41-67 | shifting by the count sets the top bit and loses none |
| Arithmetic.TwoDigits | lib/arithmetic.c:79-89 | long division by one 32-bit digit: the partial quotients are digits and make up the quotient |
| Arithmetic.EstimateParts | lib/arithmetic.c:93-112 | the estimate from the normalised top half is the quotient or one more, and its divide does not trap |
| Arithmetic.Correction | lib/arithmetic.c:112-114 | the correction in wrapping arithmetic makes the estimate exact |
| Arithmetic.Udiv64 | lib/arithmetic.c:72-116 | the floor of the quotient, for every dividend and nonzero divisor |
| Arithmetic.Umod64 | lib/arithmetic.c:121-123 | the remainder's low 32 bits: the remainder if and only if it fits |
| Arithmetic.TruncatedRemainder | lib/arithmetic.c:128-133 | truncating division leaves a remainder below the divisor with the dividend's sign |
| Arithmetic.Sdiv64 | lib/arithmetic.c:128-133 | the truncated quotient if and only if it is not the one that overflows |
| InodeData.DataWritten | filesys/inode.c:234-288 | storing a range replaces exactly that range of the file's byte array |
| InodeData.ReadAfterWrite | filesys/inode.c:183-288 | what was stored is read back, and every other range reads as before, at any alignment |
| InodeData.OtherFileSame | filesys/inode.c:234-288 | files on other sectors do not change |
| InodeData.WrittenAppend | filesys/inode.c:244-283 | the chunks stored one after the other are the whole range stored at once |
| InodeData.ChunkOfData | filesys/inode.c:188-222 | a chunk within a sector is that part of the byte array |
| InodeData.Inode.ReadChunk | filesys/inode.c:204-217 | one round delivers its part of the file, or nothing for want of a bounce buffer |
| InodeData.Inode.ReadAt | filesys/inode.c:183-226 | fills the buffer with data[offset..min(offset+size, length)], or, without a bounce buffer, the exact prefix of whole sectors |
| InodeData.Inode.WriteChunk | filesys/inode.c:260-277 | one round stores its part and leaves the rest of the sector |
| InodeData.Inode.WriteAt | filesys/inode.c:234-288 | stores exactly that range and leaves every other byte of the disk; nothing when writes are denied |
| InodeData.SectorsLeast | filesys/inode.c:23-27 | a file has the least number of sectors that hold its length |
| Bitmap.MarkWord | lib/kernel/bitmap.c:143-151 | or-ing the mask sets that bit of the word and no other |
| Bitmap.ResetWord | lib/kernel/bitmap.c:155-163 | and-ing the complement clears that bit and no other |
| Bitmap.BitmapCreate | lib/kernel/bitmap.c:73-85 | a new bitmap is all false, whatever the memory held; null if and only if memory is short, an empty one needing none for its bits |
| Bitmap.Bitmap.Mark | lib/kernel/bitmap.c:143-151 | one bit of the sequence the packed words stand for becomes true |
| Bitmap.Bitmap.Reset | lib/kernel/bitmap.c:155-163 | one bit becomes false |
| Bitmap.Bitmap.Test | lib/kernel/bitmap.c:181-185 | that bit |
| Bitmap.Bitmap.SetMultiple | lib/kernel/bitmap.c:199-208 | exactly the range is set |
| Bitmap.Bitmap.Contains | lib/kernel/bitmap.c:230-241 | whether the value occurs in the range |
| Bitmap.Bitmap.Scan | lib/kernel/bitmap.c:271-283 | the first group of such bits at or after start, if and only if there is one |
| Bitmap.Bitmap.ScanAndFlip | lib/kernel/bitmap.c:293-298 | that group, and only it, is flipped; a count of zero gives start |
| Ownership.PlacedKept | filesys/inode.c:68-97 | a file made of unmarked sectors changes no other file's header or data |
| Ownership.PlacedRelease | filesys/inode.c:159-165 | giving up one file's sectors leaves all others' marked |
| Ownership.CreateEntered | filesys/filesys.c:61-73 | a completed create keeps ownership: sectors disjoint and marked |
| Ownership.CreateAbandoned | filesys/filesys.c:64-70 | so does one that fails after the data was allocated, whatever stays marked |
| Ownership.InodeDropped | filesys/inode.c:150-169 | the last close keeps ownership, whether or not the sectors are released |
| FileSystem.FileSystem.Format | filesys/filesys.c:107-122 | succeeds if and only if there are the four sectors it needs, and establishes the invariant with an empty directory |
| FileSystem.FileSystem.FreeMapAllocate | filesys/free-map.c:26-37 | the first free group, marked; none if there is none or the map cannot be written, and then nothing is marked |
| FileSystem.FileSystem.FreeMapRelease | filesys/free-map.c:41-45 | frees exactly sectors that were marked |
| FileSystem.FileSystem.InodeCreate | filesys/inode.c:68-97 | a new inode with zeroed data in a free group, or no change |
| FileSystem.FileSystem.InodeOpen | filesys/inode.c:103-130 | one more opener of the only inode in memory for the sector |
| FileSystem.FileSystem.InodeClose | filesys/inode.c:150-169 | one opener fewer; sectors become free exactly at the last close of a removed file |
| FileSystem.FileSystem.InodeRemove | filesys/inode.c:174-177 | marks the file removed and nothing else |
| FileSystem.FileSystem.Lookup | filesys/directory.c:80-98 | the first entry with the name among those that can be read, if any |
| FileSystem.FileSystem.DirAdd | filesys/directory.c:127-163 | succeeds if and only if the name is good and unseen, the search ends at a slot and the write gets through; the entry is in that slot |
| FileSystem.EntriesKept | filesys/directory.c:143-158 | a new entry leaves all files their entries if and only if the search was not cut short at one in use |
| FileSystem.EntryLost | filesys/directory.c:143-158 | a directory in which a new entry takes the place of another file's |
| FileSystem.FileSystem.DirRemove | filesys/directory.c:169-199 | erases the entry; the file goes now or at its last close |
| FileSystem.FileSystem.Create | filesys/filesys.c:61-73 | with memory, succeeds if and only if name, slot and sectors allow; the file is blank, on sectors of its own, and all other files are as before |
| FileSystem.FileSystem.Open | filesys/filesys.c:81-90 | a handle on the file with the name; with memory, if and only if there is one |
| FileSystem.FileSystem.Remove | filesys/filesys.c:97-103 | succeeds, with memory, if and only if the name exists; an open file keeps its sectors |
| FileSystem.FileSystem.Close | filesys/inode.c:150-169 | frees sectors exactly when the last opener of a removed file closes it |
| FileSystem.FileSystem.Write | filesys/inode.c:234-288 | on an open handle, byte by byte: the request as far as it lies in the file, or without a bounce buffer its whole leading sectors, or nothing when denied, is stored; every other byte and file is as before |
| FileBytes.StoredData | filesys/inode.c:234-288 | storing a range in a file's sectors replaces exactly that range of its bytes and keeps its inode |
| FileBytes.StoredKeeps | filesys/inode.c:234-288 | it keeps ownership and every other live file's length and data |
| FileBytes.KeptData | filesys/inode.c:43-50 | a file whose sectors are the same has the same bytes |
| FileBytes.CountIs | filesys/inode.c:240-287 | how much a write stores: nothing when denied, all inside the file with a bounce buffer, else the most whole sectors if it starts at one |
| FileBytes.WriteAtCounts | filesys/inode.c:234-288 | the sector loop of a write reports that number |
| FileBytes.BlankData | filesys/inode.c:83-92 | a new file's bytes are all zero |
| FileSystem.FileSystem.Run | filesys/filesys.c:61-103 | over any run of creates, opens, writes, closes and removes, each step and its result are as the step relation says, ownership holds, and a file held open throughout has the bytes it had with exactly the writes to it |
| FileSystem.FileSystem.Serve | filesys/filesys.c:61-103 | one operation is one step of that relation |
| FileSystem.CreateThenOpen | filesys/filesys.c:61-90 | opening a name just created gives a handle on a new file of the size asked for, all zeros |
| FileSystem.CreateThenRemove | filesys/filesys.c:61-103 | removing a name just created frees exactly the sectors creating it took, and the name is gone |
| Arenas.BlockInPage | threads/malloc.c:244-268 | a block lies on its arena's page past the header, and rounding down finds the arena again |
| Arenas.LiveInside | threads/malloc.c:85-144 | a live block is inside its arena, past the header, and as large as asked for |
| Arenas.LiveDisjoint | threads/malloc.c:85-144 | live blocks do not overlap |
| Arenas.BookkeepingOffLive | threads/malloc.c:116-141 | arena headers and the list links in free blocks are never inside a live block |
| Arenas.WithArenaKeeps | threads/malloc.c:116-133 | a new arena keeps the invariant: its blocks are all free, each once |
| Arenas.PoppedKeeps | threads/malloc.c:136-141 | taking the front block keeps it, and the arena's count with it |
| Arenas.PushedKeeps | threads/malloc.c:220-225 | giving a block back keeps it, and the count never exceeds the arena's blocks |
| Arenas.DroppedKeeps | threads/malloc.c:225-234 | giving the page back when all blocks are free keeps it, and nothing on the page is live |
| Arenas.WithBigKeeps | threads/malloc.c:100-114 | a big block on free pages keeps it |
| Arenas.WithoutBigKeeps | threads/malloc.c:235-239 | and so does freeing it |
| Malloc.MallocInit | threads/malloc.c:69-80 | the seven descriptors, with as many blocks as fit behind the header |
| Malloc.PagesEnough | threads/malloc.c:103 | the page count holds the request, and is the least that does, if and only if the sum does not wrap |
| Malloc.Allocator.Malloc | threads/malloc.c:85-144 | a new live block of the smallest size that fits, from a page that already serves blocks or from pages that were free, or the pages are not there and nothing changes; no live block and no byte changes; for a size that wraps, what is handed out breaks the invariant |
| Malloc.FirstFits | threads/malloc.c:94-97 | the first descriptor that is large enough is the smallest that fits |
| Malloc.MallocThenFree | threads/malloc.c:85-240 | freeing what was just allocated brings back the pages in use and the live blocks |
| Malloc.OwnStoresOffLive | threads/malloc.c:116-141 | stores to headers and list links leave every live block's bytes as they are |
| Malloc.Allocator.NewArena | threads/malloc.c:116-133 | the loop puts each of the new arena's blocks on the list once |
| Malloc.Allocator.BlockToArena | threads/malloc.c:244-257 | the alignment assertions hold for every block handed out |
| Malloc.Allocator.Free | threads/malloc.c:202-240 | the block is no longer live, its page goes back exactly if nothing live is left on it, and other live blocks keep their bytes |
| Malloc.Allocator.DropArena | threads/malloc.c:225-234 | all blocks of the page, and only those, leave the free list |
| Malloc.Allocator.Realloc | threads/malloc.c:183-197 | the first min(old block size, new size) bytes move, all other blocks keep theirs |
| Malloc.Allocator.BlockSizeOf | threads/malloc.c:168-174 | the bytes usable in a live block, at least what was asked for |
| Malloc.Allocator.PallocFreeMultiple | threads/palloc.c:301-323 | frees exactly the pages, which were in use |
| SchedulerState.ElemExclusive | include/threads/thread.h:89-94 | a thread's list element is in at most one queue, and in none while it runs |
| SchedulerState.InsertedOrder | threads/thread.c:775-779 | a thread is queued behind its equals and ahead of lower priorities |
| SchedulerState.SortedHas | threads/synch.c:113-117 | sorting the waiters keeps them and puts the highest priority first |
| SchedulerState.SwitchedQueues | threads/thread.c:695-730 | switching keeps the queues and leaves exactly one thread running |
| SchedulerState.BuriedKeeps | threads/thread.c:682-692 | freeing the dead keeps the invariant |
| SchedulerState.JoinedKeeps | threads/synch.c:67-71 | joining the waiters keeps queues, wake-ups and locks |
| SchedulerState.TookKeeps | threads/synch.c:72-73 | taking a unit keeps them: the taker was one of those coming for it |
| SchedulerState.UppedKeeps | threads/synch.c:107-121 | an up keeps them: each new unit has a woken thread coming for it |
| SchedulerState.HolderSetKeeps | threads/synch.c:206-208 | becoming the holder after the down keeps mutual exclusion |
| SchedulerState.ReleasedKeeps | threads/synch.c:237-250 | so does the up after giving the lock up |
| SchedulerState.AwakenedKeeps | threads/thread.c:761-773 | so does waking a sleeper |
| Scheduler.Kernel.Schedule | threads/thread.c:695-730 | the front of the ready list runs next, or the idle thread if it is empty; no other record changes, and the thread left is doomed exactly if it is dying and not the initial one |
| Scheduler.Kernel.ThreadYield | threads/thread.c:403-415 | the current thread is queued by priority and the next one runs |
| Scheduler.Kernel.ThreadBlock | threads/thread.c:316-321 | the current thread stops and the next one runs |
| Scheduler.Kernel.ThreadUnblock | threads/thread.c:334-345 | the thread is ready and queued by priority |
| Scheduler.Kernel.ThreadSleep | threads/thread.c:745-759 | the thread is asleep and the next one runs; the idle thread does not sleep |
| Scheduler.Kernel.ThreadAwake | threads/thread.c:761-773 | exactly the sleepers whose time has come are ready; the rest stay in order |
| Scheduler.Kernel.SemaDown | threads/synch.c:61-75 | takes a unit if there is one, otherwise waits |
| Scheduler.Kernel.SemaTryDown | threads/synch.c:83-100 | takes a unit if and only if there is one |
| Scheduler.Kernel.SemaUp | threads/synch.c:107-121 | adds a unit and wakes the waiter of highest priority |
| Scheduler.Kernel.LockRelease | threads/synch.c:237-250 | the lock has no holder, its semaphore not yet being up |
| Donation.Holder.RemoveDonation | threads/thread.c:808-817 | the donors that wait for the lock, and only they, leave the list while it is walked |
| Donation.OthersHas | threads/thread.c:808-817 | a donor is left if and only if it waits for another lock |
| Donation.Holder.RePriority | threads/thread.c:819-830 | the priority is the highest of the thread's own and its donors' |
| Donation.Holder.ReleaseDonations | threads/synch.c:245-246 | on release the priority is the highest of the thread's own and those of the donors for its other locks |
| Scheduler.Kernel.ThreadExit | threads/thread.c:380-393 | the thread is dead and another one runs |
| Scheduler.Kernel.StartChild | threads/thread.c:302-303 | the thread a creator has initialised becomes ready, however often the creator was switched away in between |
| Scheduler.Kernel.Run | threads/synch.c:61-250 | over every interleaving the invariant holds (queues, no lost wake-up, locks, value = initial + ups - downs), and each state of the trace follows the one before by the step relation |
| Scheduler.Kernel.Step | threads/synch.c:61-250 | one region of the running thread is one step of that relation, which says for each place and call what changes |
| Scheduler.Kernel.TimerInterrupt | threads/thread.c:761-773 | so is a tick: the sleepers whose time has come are queued, and the running thread gives way if its slice is up |
| SchedulerSteps.InsertedQueued | threads/thread.c:775-779 | ordered insertion puts a thread behind all that are as important and before the first that is not, moving no other |
| SchedulerSteps.SortedFirst | threads/synch.c:113-117 | the waiter woken is the first of those with the highest priority |
| SchedulerRuns.YieldRuns | threads/thread.c:403-415 | a thread that yields runs on exactly if no ready thread is at least as important; otherwise the first of them runs |
| SchedulerRuns.UpRuns | threads/synch.c:107-121 | an up that wakes a thread more important than all others makes it run at once, with the unit there |
| SchedulerRuns.UpHandsOver | threads/synch.c:61-121 | and one step later that thread has the unit |
| SchedulerRuns.AcquireFree | threads/synch.c:190-209 | two steps after a thread acquires a free lock it is the holder |
| SchedulerRuns.LockHandover | threads/synch.c:190-250 | a lock released while a more important thread waits for it goes to that thread, and to nobody in between |
| SchedulerRuns.SleepStops | threads/thread.c:745-759 | a sleeper is blocked, last on the list, with the time it asked for, and the front of the ready list runs |
| SchedulerRuns.TickWakes | threads/thread.c:761-773 | a tick makes a sleeper ready exactly if its time has come |
| SchedulerRuns.ExitFrees | threads/thread.c:380-393 | an exiting thread does not run again and is freed by the next switch |
| Scheduler.MutualExclusion | threads/synch.c:190-250 | at most one thread is between acquire and release, and the semaphore is then 0 |
| Scheduler.SomeoneIsComing | threads/synch.c:61-121 | a positive value with waiters means a woken thread is on its way |
| WaitExit.Processes.ExitUp | userprog/process.c:312-330 | an exiting process signals its parent once |
| WaitExit.Processes.ExitDown | userprog/process.c:312-330 | it goes on only after the parent has let it go |
| WaitExit.Processes.Free | threads/thread.c:682-692 | a dead thread's page is freed only after its status was returned, when nothing refers to it |
| WaitExit.Processes.WaitFind | userprog/process.c:288-300 | a child that is not on the list, in particular one already waited for, gives -1 at once |
| WaitExit.Processes.WaitDown | userprog/process.c:302 | the parent goes on only after the child has exited |
| WaitExit.Processes.WaitRead | userprog/process.c:304 | the status is read from a child that exists and has exited |
| WaitExit.Processes.WaitUnlink | userprog/process.c:305 | the child leaves the list |
| WaitExit.Processes.WaitUp | userprog/process.c:306-308 | the status returned is the one the child exited with, and it had not been returned before |
| WaitExit.Processes.Run | userprog/process.c:288-330 | over every interleaving the invariant holds, and each state of the trace and each answer follows from the one before by the step relation |
| WaitExit.Processes.Step | userprog/process.c:288-330 | one step of one thread is a step of that relation, which gives the successor for each place and action, or the same state when it blocks |
| WaitExit.WaitCompletes | userprog/process.c:302-308 | whatever else is interleaved, a parent whose child has exited returns the child's status at its fourth turn and not before |
| WaitExit.ExitThenWait | userprog/process.c:288-330 | an exit under a waiting parent, and then four turns of the parent, give the parent the status the child exited with |
| WaitExit.WaitBlocks | userprog/process.c:302 | until the child has exited the parent's turns change nothing |
| WaitExit.AnswerStep | userprog/process.c:298-308 | an answer is either the status of a child that has exited, recorded for the first time, or -1 for one that is not on the list |
| WaitExit.WaitedOnce | userprog/process.c:288-308 | after a wait has answered for a child every later wait for it gives -1 |
| WaitExit.ChildGoes | userprog/process.c:328-330 | once its status was returned, an exiting child is dead after its next turn and can be freed |
| WaitExit.DeadUnreferenced | threads/thread.c:682-730 | nothing refers to a thread that may be freed |
| Mlfqs.LoadBound | threads/thread.c:846-857 | the load average of n threads stays between 0 and n |
| Mlfqs.LoadNear | threads/thread.c:846-857 | the new load average is 59/60 of the old one plus 1/60 of the ready threads, up to the stated rounding |
| Mlfqs.LoadMoves | threads/thread.c:846-857 | so it falls while above the number of ready threads and rises while far enough below |
| Mlfqs.DecayNear | threads/thread.c:867 | the decayed recent_cpu is 2 load / (2 load + 1) of the old one plus nice, up to the stated rounding towards zero |
| Mlfqs.PriorityNear | threads/thread.c:832-836 | the priority is 63 - recent_cpu / 4 - 2 nice up to half a unit of rounding |
| Mlfqs.DecayBound | threads/thread.c:867 | the decay factor is at most 2n/(2n+1) |
| Mlfqs.RecentBound | threads/thread.c:859-872 | one second's decay makes room for one second's ticks and any nice value |
| Mlfqs.MostThreads | threads/thread.c:838-872 | the bound fits 32 bits if and only if there are at most 545 threads |
| Mlfqs.BoundsFit | threads/thread.c:97-134 | within the bounds every account fits in 32 bits |
| Mlfqs.Decay | threads/thread.c:867 | one thread's decay overflows nowhere and lands within the bounds |
| Mlfqs.Accounts.TimerInterrupt | devices/timer.c:128-146 | every thread's account after a tick (the charge, and the new load, decay and priority when due), and the bounds again |
| Mlfqs.Accounts.Run | devices/timer.c:128-146 | over every run the bounds hold, so no operation overflows, and each state of the trace follows the one before by the step relation |
| Mlfqs.ChargedExactly | threads/thread.c:838-844 | within a second a thread is charged exactly one for each tick it runs in, and no other thread for it |
| Mlfqs.PriorityInRange | threads/thread.c:832-836 | a priority is within 0 to 63 if and only if recent_cpu is within this band |
| Mlfqs.PriorityOutOfRange | threads/thread.c:832-836 | a fresh thread with nice -20 has priority 103 |
| ArgPass.StrtokR | lib/string.c:219-254 | the next maximal run is cut off in place, the rest of the line untouched |
| ArgPass.Tokenise | userprog/process.c:216-222 | all maximal runs, in order, as strings in place; or there are more than the 64 there is room for |
| ArgPass.ArgumentStack | userprog/process.c:245-275 | the top of the page is exactly the words' image, the stack pointer is 8-aligned, and nothing below is touched |
| ArgPass.ArgvRead | userprog/process.c:245-275 | a started program finds a null return address, argv[i] pointing to a null-terminated word i, the words in order up to the top, and argv[argc] null; fewer than eight zeros lie in between |
| ArgPass.WordRead | userprog/process.c:258-272 | the eight bytes of a stored word, least significant first, make up the word |
| ArgPass.PassArguments | userprog/process.c:201-244 | from line to stack in one: the image is that of the line's words, argv is just above the return address |
| PrintParse.DigitsFit | lib/stdio.c:437-475 | the digits of a 64-bit number, grouped or not, fit the buffer |
| PrintParse.FormatInteger | lib/stdio.c:437-510 | the layout spelled out for each combination of flags: the sign asked for, the least zeros for the precision, the numeral, and padding to exactly the width, without leaving the 64-byte buffer |
| PrintParse.NumeralIs | lib/stdio.c:445-470 | the digits printed are the decimal ones of the value, without leading zeros, and with a comma exactly before each group of three if grouped |
| PrintParse.Atoi | lib/stdlib.c:10-41 | the number of the first run of digits behind spaces and one sign, with no intermediate overflow whenever it fits an int |
| PrintParse.RoundTrip | lib/stdio.c:172-209 | for every int, width, precision and flags, parsing what was printed gives the int, if and only if no comma was put in |
| Sorting.FloatDown | lib/stdlib.c:97-123 | swapping with the larger child moves the gap in the heap one level down |
| Sorting.RootLargest | lib/stdlib.c:132-152 | the root of a heap is its largest element |
| Sorting.Heapify | lib/stdlib.c:97-123 | restores the heap from i on, permuting only the prefix |
| Sorting.Sort | lib/stdlib.c:132-152 | a sorted permutation, for every total preorder |
| Sorting.BinarySearch | lib/stdlib.c:185-207 | a match if and only if there is one |

## Left out

- Devices, inline assembly, context switching and ELF loading: the disk is a sequence of sectors, the divide instruction and the page allocator are contracts, and a switch only changes which thread runs.
- Malloc.Allocator.Realloc: moving a block to a size whose page count wraps is not modelled, because the block malloc returns is too small and the copy runs past it (Malloc.PagesEnough says which sizes these are).
- Malloc.Allocator.Free: the link words that free blocks carry, and arena headers, are typed fields and not stored into memory; Malloc.OwnStoresOffLive says that such stores stay off live blocks.
- PageTable.PageMap.Pml4ForEach: with PtForEach, PgdirForEach and PdpForEach, callbacks may carry data on but not change the entry they are given, nor the table that is walked.
- Paging.Vm.DoClaimPage: a panic when swap is full ends the run, as in the kernel; one address space only, so eviction under another process's page table, fork, stack growth and failed allocations of page descriptors are not modelled.
- Paging.Vm.Run: reads of the bytes of a file page behind its file part are not related to anything, because the code does not keep them; the run ends at the first operation that is not served, and pages are not removed.
- Paging.Vm.UserRead: a page made without a file starts with whatever its frame held, as in the kernel, so its first contents are only known to be a page's worth of bytes.
- PagingState.WriteBack: where a transfer without a bounce buffer stops is a parameter; InodeData.Inode.WriteAt says where that is.
- FileSystem.FileSystem.Run: the bytes of the directory and of the free map file are typed fields, and inode sectors hold typed headers, so their encoding is not modelled; directories hold the 16 entries they are made with, as files do not grow. A write takes its effect in one piece; its loop is InodeData.Inode.WriteAt.
- FileSystem.FileSystem.Create: which sectors stay marked after a failed create is not counted; the code leaks the data sectors of a file whose entry could not be added.
- FileSystem.FileSystem.Lookup: dir_readdir and the wrappers around the modelled calls would only add easy members.
- Scheduler.Kernel.SetPriority: priority donation on acquire, thread_set_priority and the feedback scheduler are arbitrary changes of a thread's priority at any time; nested donation, condition variables and the order of the ready list after such changes are not modelled.
- Scheduler.Kernel.LockRelease: its first half, which gives back donated priority, is Donation.Holder.ReleaseDonations and appears here as a change of priority.
- Scheduler.Kernel.StartChild: a thread_create that fails for want of memory is not modelled.
- Scheduler.Kernel.Run: the state starts after thread_start, when the idle thread has blocked for the first time; a thread is known by its page.
- WaitExit.Processes.Run: process identifiers are never reused, as allocate_tid counts up; the load semaphore of fork and a parent that exits without waiting (its children then wait for ever, as in the kernel) add no property.
- Mlfqs.Accounts.SetNice: nice values are taken to be within -20 to 20, which thread_set_nice does not check.
- ArgPass.ArgumentStack: what the words need must fit the one stack page, which the code does not check.
- ArgPass.PassArguments: what the words need must fit the one stack page, which the code does not check; more than 64 words is where the code would write past its array.
- PrintParse.FormatInteger: base 10 only; octal, hexadecimal, `#`, strings and the parsing of format strings are not modelled.
- List.List.ListSort: list_reverse, list_unique and the pass-through operations of list.c would add only easy members.
- HashTable.Table.constructor: hash_init with memory; hash_clear, hash_destroy, hash_apply and the FNV hash functions are not modelled, the hash function being a parameter that equal elements must agree on.
- Bitmap.BitmapCreate: bitmap_flip, bitmap_count and file input and output of bitmaps are not modelled.
- FAT and the page cache are empty stubs in the repository; accessed bits, `umod64` beyond 32 bits and `smod64` are not modelled.
