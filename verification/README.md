# BlueBridge: paging, replacement, striping and bulk transfer

BlueBridge lets programs use the memory of remote servers. This project models the parts of it
that decide where data lives and what the program gets back, and proves what they promise.

* **Paged memory** (`ip6/lib/vmem/page_table.c`). `Paging` is the page table with its backing
  store; `Recency`, `Ageing`, `Frequency` and `Probing` are the five page-fault handlers on values
  (LRU and FFIFO, FIFO, LFU, RAND); `VirtualMemory` runs programs on any of them and compares them
  with a flat memory. `DllLists`, `HashTables`, `FreqLists`, `PageTables` and the `*Pagers` modules
  are the same handlers over linked lists, hash chains and arrays, each proved to do what its value
  model does. `RandRuns` settles when a run under RAND is left unfinished. `Programs` executes
  programs on those handlers, from an empty page table on. `Victims` says, from the sequence of
  faults and flushes alone, which page each policy evicts.
* **Trace-driven simulator** (`legacy/OldPageTable`). `Simulation` is the machine, for any
  replacement policy; `Belady` and `Opt` prove OPT optimal; `LruStack` and `LruQueues` give the
  stack property of LRU; `Evictions` says what the counters count; `Clock` and `Bitmaps` are the CLOCK policy and the bitmap of swap slots;
  `Machines` is the simulator as it is programmed, with a two-level page table.
* **Remote memory**. `Raid` and `RaidMemories` are the striped remote memory with parity;
  `RaidPaging` puts the paged memory on it. `Words`, `Batches`, `BulkMemory`, `Bulk` and
  `BulkClient` are the bulk protocol between a client and several servers, `BulkPlaces` says where
  every byte goes, and `UniformClient` is the variant for a range of blocks on one server.
* **Two algorithms**. `ShortestPaths` is Dijkstra's algorithm, `Kmp` the substring search of the
  dynamic strings.

Verify everything with `dafny verify dfyconfig.toml`.

## Model

| member | source | states |
|---|---|---|
| VirtualMemory.RunIsFlat | ip6/lib/vmem/page_table.c:46-302 | Main theorem: under each of the five policies, for every program of loads, stores and flushes and all random numbers, every load returns the last value stored there, and every operation finishes unless RAND meets a flush. |
| VirtualMemory.AccessKeeps | ip6/lib/vmem/page_table.c:46-61 | A load settles after at most one fault and a store after at most two, and neither faults nor retries change the memory. |
| VirtualMemory.FaultKeeps | ip6/lib/vmem/page_table.c:87-302 | Every handler keeps the memory, its own invariant and the size of the machine, and gives the faulting page exactly one permission more. |
| VirtualMemory.FlushKeeps | ip6/lib/vmem/page_table.c:500-557 | From every state of every policy a flush leaves the store equal to the memory and no page mapped; the next fault returns if and only if RAND had not handed out all frames. |
| VirtualMemory.StepIsFlat | ip6/lib/vmem/page_table.c:46-302 | One operation changes the memory as it would change a flat array. |
| Programs.Execute | ip6/lib/vmem/page_table.c:46-302 | The same for the handlers as they are programmed: a method that starts one of the five on fresh lists, tables and arrays, faults until each access is allowed, loads and stores bytes in the frames and flushes, returns what a flat memory returns, whenever `RandRuns.RandStopsIff` lets the run finish. |
| Programs.Perform | ip6/lib/vmem/page_table.c:46-61 | One load, store or flush on any of the five heap structures is one step of `VirtualMemory`, and allocates only new nodes. |
| Programs.Start | ip6/lib/vmem/page_table.c:375-407 | Each policy gets its own handler, with fresh objects only, nothing resident, and the given contents as its memory. |
| RandRuns.RandStopsIff | ip6/lib/vmem/page_table.c:229-264 | A run under RAND is left unfinished if and only if some load or store follows a flush at which every frame had been handed out, a condition computed from the operations alone. |
| RandRuns.RandGetsStuck | ip6/lib/vmem/page_table.c:537-556 | With one page and one frame, load, flush, load: two operations finish and the third never does. |
| RandRuns.GoesOnStep | ip6/lib/vmem/page_table.c:229-264 | The condition under which a run finishes is kept by every operation, and the next one returns. |
| RandRuns.StepHands | ip6/lib/vmem/page_table.c:229-264 | What each operation does to RAND's counter of frames and, while frames are left, to the set of resident pages. |
| Victims.LeastRecentGoes | ip6/lib/vmem/page_table.c:87-227 | After every sequence of faults and flushes from an empty table, LRU and FIFO lose a page only to a fault that finds every frame taken, and then the resident page whose last fault is the earliest position in the sequence. |
| Victims.FirstLoadedGoes | ip6/lib/vmem/page_table.c:266-302 | The same for FFIFO, with the resident page whose load, the last fault that found it without a frame, is the earliest. |
| Victims.LeastUsedGoes | ip6/lib/vmem/page_table.c:126-155 | The same for LFU, with the resident page that faulted least often since its load, and among equals the one whose last fault is the earliest. |
| Victims.RandomGoes | ip6/lib/vmem/page_table.c:229-264 | RAND loses a page exactly when a load finds that as many loads as frames were made before: the page is in the first bucket, going round from the random number's, that has any resident page, and was loaded last of those there. |
| Victims.FrameGiven | ip6/lib/vmem/page_table.c:87-302 | Under every policy a loaded page gets the next unused frame or that of the page that goes, and no other page gets another frame. |
| Paging.LoadKeeps | ip6/lib/vmem/page_table.c:94-99 | Mapping an absent page to a free frame keeps the table coherent and the memory unchanged. |
| Paging.ReplaceKeeps | ip6/lib/vmem/page_table.c:100-112 | Evicting a page, written back only if it was written, and loading another into its frame keeps the memory unchanged. |
| Paging.ReleaseKeeps | ip6/lib/vmem/page_table.c:515-525 | Unmapping a page, written back only if it was written, keeps the memory unchanged. |
| Paging.UpgradeKeeps | ip6/lib/vmem/page_table.c:112-115 | Granting the write permission keeps the table coherent and the memory unchanged. |
| Paging.PokeWrites | ip6/lib/vmem/page_table.c:575-599 | A store to a writable page changes that byte of the memory and nothing else. |
| Recency.FaultKeeps | ip6/lib/vmem/page_table.c:87-115 | A fault under LRU or FFIFO keeps the list an exact, repetition-free list of the resident pages, within the first frames, and the memory unchanged. |
| Recency.FlushKeeps | ip6/lib/vmem/page_table.c:515-525 | Releasing pages from the end of the list writes everything back and leaves nothing resident. |
| Ageing.FaultMatches | ip6/lib/vmem/page_table.c:175-227 | On every fault the ageing array picks the same frame and the same victim as the recency list, because occupied frames have ages that grow along the list. |
| Ageing.FlushMatches | ip6/lib/vmem/page_table.c:504-514 | The slot-by-slot flush ends in the same page table and store as the list's flush, although unused slots name page 0. |
| Ageing.RunMatches | ip6/lib/vmem/page_table.c:87-227 | After every sequence of faults and flushes FIFO and LRU have the same page table, frames and backing store. |
| Ageing.FreshMatches | ip6/lib/vmem/page_table.c:375-384 | The cleared ageing arrays and the empty list match, so the equivalence starts from the initial state. |
| Frequency.FaultKeeps | ip6/lib/vmem/page_table.c:126-155 | A fault keeps the buckets non-empty, strictly ordered by use count, and exactly the resident pages in them, and the memory unchanged. |
| Frequency.FlushKeeps | ip6/lib/vmem/page_table.c:526-536 | The LFU flush writes everything back and leaves nothing resident. |
| Frequency.FaultRanks | ip6/lib/vmem/page_table.c:782-834 | The buckets rank pages exactly as a table of use counts and arrival times does, and the evicted page has the least count, the oldest arrival among equals. |
| Frequency.LeastIsUnique | ip6/lib/vmem/page_table.c:947-953 | Least count with oldest arrival names one page only. |
| Frequency.RunRanks | ip6/lib/vmem/page_table.c:126-155 | For every fault history the LFU handler keeps the pages that the reference table keeps. |
| Probing.FaultKeeps | ip6/lib/vmem/page_table.c:229-264 | A fault under RAND keeps every resident page in its own bucket, once, the memory unchanged and the next search for a victim alive. |
| Probing.FlushKeeps | ip6/lib/vmem/page_table.c:537-556 | After a flush the handler can return from the next fault if and only if a frame was still unused. |
| Probing.ProbeEnds | ip6/lib/vmem/page_table.c:243-252 | The search round the buckets ends if and only if some bucket is occupied, wherever it starts, and then at the first occupied one within one round. |
| Probing.FaultEvicts | ip6/lib/vmem/page_table.c:244-252 | A replacing fault starts its search at the random number modulo the number of frames, passes only empty buckets, and evicts the head of the first occupied one and nothing else. |
| Probing.ProbeStuck | ip6/lib/vmem/page_table.c:243-252 | The handler cannot return if and only if all frames were handed out and no page has one; then the search meets an empty bucket at every step, for ever. |
| DllLists.DllList.Create | ip6/lib/vmem/page_table.c:717-730 | A new node at the front: the linked list is the old one with the key before it. |
| DllLists.DllList.MoveToFront | ip6/lib/vmem/page_table.c:762-780 | The list keeps its nodes; the given one comes first, the others keep their order. |
| DllLists.DllList.Delete | ip6/lib/vmem/page_table.c:837-848 | The list without that node, head, tail and links included. |
| HashTables.HashTable.Insert | ip6/lib/vmem/page_table.c:881-897 | As a map from pages to nodes: one entry more. |
| HashTables.HashTable.Delete | ip6/lib/vmem/page_table.c:899-923 | As a map: the entry is gone, all others stay; a missing key changes nothing. |
| HashTables.HashTable.Get | ip6/lib/vmem/page_table.c:925-937 | The entry of a page that is in the table, a null pointer for an empty chain. |
| FreqLists.FreqList.MoveToNextFreq | ip6/lib/vmem/page_table.c:782-834 | On the doubly linked list of doubly linked buckets: the node goes to the bucket of the next count, made if missing, and an emptied bucket is removed. |
| FreqLists.FreqList.Create | ip6/lib/vmem/page_table.c:732-760 | The node joins the bucket of count 0, made if missing; this repairs the stale back link that a deletion leaves. |
| FreqLists.FreqList.DeleteLast | ip6/lib/vmem/page_table.c:850-867 | The oldest node of the first bucket is removed, and the bucket with it if it was the last one there. |
| PageTables.PageTable.ReplacePage | ip6/lib/vmem/page_table.c:100-112 | The array operations of an eviction amount to `Paging.Replace`. |
| PageTables.PageTable.ReleasePage | ip6/lib/vmem/page_table.c:515-525 | The array operations of a flushed page amount to `Paging.Release`. |
| ListPagers.ListPager.Fault | ip6/lib/vmem/page_table.c:87-115 | The handler over list, hash table and arrays does what `Recency.Fault` does and keeps index and list in agreement. |
| ListPagers.ListPager.Flush | ip6/lib/vmem/page_table.c:515-525 | The flush loop over the same structures does what `Recency.Flush` does. |
| AgePagers.AgePager.Fault | ip6/lib/vmem/page_table.c:175-227 | The three loops over the ageing arrays do what `Ageing.Fault` does. |
| AgePagers.AgePager.Flush | ip6/lib/vmem/page_table.c:504-514 | The flush loop over the ageing arrays does what `Ageing.FlushFrom` does. |
| LfuPagers.LfuPager.Fault | ip6/lib/vmem/page_table.c:126-155 | The handler over the frequency list, hash table and arrays does what `Frequency.Fault` does; every page's hash entry leads to its own node, and nodes are added only by allocation. |
| LfuPagers.LfuPager.Flush | ip6/lib/vmem/page_table.c:526-536 | The flush loop over the same structures does what `Frequency.Flush` does. |
| RandPagers.RandPager.Fault | ip6/lib/vmem/page_table.c:229-264 | The handler over hash chains and arrays does what `Probing.Fault` does. |
| RandPagers.RandPager.Flush | ip6/lib/vmem/page_table.c:537-556 | The flush loops over the buckets do what `Probing.Flush` does. |
| RandPagers.RandPager.ProbeFrom | ip6/lib/vmem/page_table.c:243-252 | The loop that looks for an occupied bucket terminates with the bucket that `Probing.Probe` names. |
| Simulation.RunCoherent | legacy/OldPageTable/vsystem.c:40-78 | For every trace, every policy and every moment: a page that was never touched holds nothing, any other the number of writes made to it and the address it was first touched with; hits and misses add up to references, and evictions to misses minus frames in use. |
| Simulation.ReferenceKeeps | legacy/OldPageTable/experiment/pagetable.c:171-255 | One reference keeps core map and valid entries inverse to each other and clean pages equal to their swap copies, adds one to the version of the page it writes, and changes no other page. |
| Simulation.ReferenceResidents | legacy/OldPageTable/experiment/pagetable.c:28-89 | Which pages are resident after a reference, and when the miss counter moves. |
| Simulation.EvictKeeps | legacy/OldPageTable/experiment/pagetable.c:38-82 | An eviction loses no page's contents, dirty or clean. |
| Evictions.RunCounts | legacy/OldPageTable/experiment/pagetable.c:51-80 | For every trace and policy the counters are the numbers of hits, misses, clean and dirty evictions, where a dirty eviction is one whose page was zero-filled when it last came in or was written since; the valid, dirty, referenced and swap flags are what the trace says. |
| Evictions.RunSlots | legacy/OldPageTable/experiment/swap.c:212-229 | The pages that were ever evicted have a swap slot each, no other page has one, and there are no other slots. |
| Evictions.StepSlots | legacy/OldPageTable/experiment/swap.c:212-229 | A page keeps the slot it was given at its first eviction. |
| Belady.OptIsOptimal | legacy/OldPageTable/experiment/opt.c:40-75 | Evicting the page needed last misses, after every prefix of every trace, no more than any schedule with as many frames. |
| Belady.OptIsLegal | legacy/OldPageTable/experiment/opt.c:40-75 | OPT's own schedule is one of those it is compared with. |
| Opt.Policy.Evict | legacy/OldPageTable/experiment/opt.c:40-75 | The two loops return the first frame whose page is referenced last, or never again. |
| Opt.Policy.Distance | legacy/OldPageTable/experiment/opt.c:47-61 | The look-ahead finds the next reference to an address, or that there is none. |
| Opt.OptFewestMisses | legacy/OldPageTable/experiment/opt.c:40-90 | On the simulator: at every moment of every trace the miss counter under any policy is at least that under OPT. |
| LruStack.RunKeepsRecent | legacy/OldPageTable/experiment/lru.c:38-126 | The frames of the queue hold, in its order, the most recently referenced pages of the trace. |
| LruStack.HitIffRecent | legacy/OldPageTable/experiment/lru.c:38-126 | A page is resident if and only if it was referenced before and fewer distinct pages than frames were referenced since. |
| LruStack.Inclusion | legacy/OldPageTable/experiment/lru.c:38-126 | On the same trace a larger memory holds every page that a smaller one holds. |
| LruStack.NoAnomaly | legacy/OldPageTable/experiment/lru.c:38-126 | More frames never give LRU more misses. |
| LruQueues.Queue.Evict | legacy/OldPageTable/experiment/lru.c:38-62 | The linked queue gives up its first frame, and the bitmap forgets it. |
| LruQueues.Queue.Ref | legacy/OldPageTable/experiment/lru.c:69-126 | The frame ends up last, every other frame keeps its place, and the bitmap marks exactly the frames in the queue. |
| Machines.Machine.SetEntry | legacy/OldPageTable/experiment/pagetable.c:111-134 | On the two-level table, whose second levels are made on demand: one entry of the flat table changes and no other. |
| Machines.Machine.Access | legacy/OldPageTable/experiment/pagetable.c:171-255 | The programmed lookup, allocation, eviction and swap amount to `Simulation.Reference`. |
| Machines.ReplayOpt | legacy/OldPageTable/vsystem.c:58-78 | Replaying any trace under OPT produces a run to which `Opt.OptFewestMisses` applies. |
| Machines.ReplayLru | legacy/OldPageTable/vsystem.c:58-78 | Replaying any trace under LRU produces a run to which `LruStack.HitIffRecent` and `LruStack.NoAnomaly` apply. |
| Clock.Policy.Evict | legacy/OldPageTable/experiment/clock.c:28-46 | Terminates d places after the hand, modulo the number of frames: the d frames before had their bits set, and the victim's is clear or d is a whole round; exactly those bits are cleared, the victim's is set, and the hand stays there. |
| Bitmaps.Bitmap.constructor | legacy/OldPageTable/experiment/swap.c:30-64 | A new bitmap has no index in use, although the bits past the end are marked. |
| Bitmaps.Bitmap.Alloc | legacy/OldPageTable/experiment/swap.c:66-89 | The least index not in use, or failure if and only if all are; an index past the end is never returned. |
| Bitmaps.Bitmap.Mark | legacy/OldPageTable/experiment/swap.c:102-113 | The set of indices in use gains exactly this one. |
| Bitmaps.Bitmap.Unmark | legacy/OldPageTable/experiment/swap.c:115-126 | The set of indices in use loses exactly this one. |
| Raid.LevelFourRecovers | ip6/lib/vmem/rrmem.c:119-145 | For every page, page size and number of hosts from two on, level 4 returns the page that was written whichever host is lost, or none. |
| Raid.RecoversIff | ip6/lib/vmem/rrmem.c:280-326 | For every page size, number of hosts, place of the parity and lost host: all pages are recovered if and only if nothing needs repair, the parity is on the last host, the lost stripe is empty, or no host after the parity has data. |
| Raid.Fails | ip6/lib/vmem/rrmem.c:343-369 | Wherever that condition fails, the page with a single one at the start of the lost stripe comes back wrong. |
| Raid.GatherLayout | ip6/lib/vmem/rrmem.c:157-176 | Uneven striping loses nothing: putting the stripes together gives the page. |
| Raid.LayoutAt | ip6/lib/vmem/rrmem.c:119-176 | Which byte of the page is at which position of which host's buffer, in numbers. |
| Raid.LayoutParity | ip6/lib/vmem/rrmem.c:372-418 | The parity host has the exclusive or of what the others have at each position. |
| RaidMemories.Parity45 | ip6/lib/vmem/rrmem.c:372-418 | The byte loops compute the exclusive or across the uneven stripes, position by position. |
| RaidMemories.RepairStripe | ip6/lib/vmem/rrmem.c:343-369 | The byte loops rebuild the missing buffer in place as `Raid.Repair` says, without reading what they overwrite. |
| RaidMemories.RaidMemory.Write | ip6/lib/vmem/rrmem.c:78-192 | Every host gets its stripe, or the parity if it is the last one at level 4 and host block modulo hosts at level 5, and no other block changes. |
| RaidMemories.RaidMemory.Read | ip6/lib/vmem/rrmem.c:196-338 | With at most one answer missing, receive, repair and collect amount to `Raid.Recovered`. |
| RaidMemories.RaidMemory.RoundTrip | ip6/lib/vmem/rrmem.c:78-338 | A read after a write returns the page at level 4 always, and at level 5 wherever the exact condition holds. |
| RaidPaging.RaidRunIsFlat | ip6/lib/vmem/page_table.c:63-85 | With the backing store on the level 4 memory and one host failing to answer at each read, a different one every time, the program still sees a flat memory under every policy. |
| Words.WithTotalHalves | ip6/lib/raw_backend/udp_raw_send.c:232-242 | A number and a total below 65536 both survive being combined into one 32-bit word. |
| Batches.ArgsHalves | ip6/lib/client_lib.c:212-219 | A packet carries its number among the packets to its server, from one on, and how many there are. |
| Batches.AcksIffLast | ip6/lib/server_lib.c:96-111 | In a batch of fewer than 65536 packets a server acknowledges a packet if and only if it is the last one sent to it. |
| Batches.AcksIffDone | ip6/lib/client_lib.c:206-230 | However the network interleaves the servers: never more acknowledgements than servers in the batch, and as many if and only if every packet has been delivered. |
| Batches.AwaitedServers | ip6/lib/client_lib.c:224-229 | The client waits for as many acknowledgements as there are distinct servers in the batch. |
| BulkMemory.AppliedAt | ip6/lib/server_lib.c:81-111 | Writes to ranges that do not overlap are all in memory, in whatever order they are delivered. |
| BulkMemory.AnyOrder | ip6/lib/server_lib.c:81-111 | Two complete orders of delivery of such writes leave the same memory, byte for byte. |
| Bulk.Await | ip6/lib/client_lib.c:224-229 | The client's waiting loop ends, and when it does every packet of the batch has been delivered. |
| Bulk.BatchWrite | ip6/lib/client_lib.c:206-230 | However the network interleaves the servers, the memory is exactly that after writing the blocks to their addresses one by one. |
| Bulk.BatchRead | ip6/lib/client_lib.c:127-154 | In whatever order the answers arrive, the buffer is the old one with the blocks, joined, copied over their own place, and the rest of it as it was. |
| Bulk.TotalKeepsLength | ip6/lib/server_lib.c:70-79 | The length of a read request survives the total that the sender adds to the word. |
| BulkClient.WriteBulk | ip6/lib/client_lib.c:234-252 | The memory is exactly that after storing every whole block at its address and a last part, if there is one, at the first address; or nothing is written and an error is returned, exactly when there are too few addresses. |
| BulkClient.ReadBulk | ip6/lib/client_lib.c:156-178 | The buffer receives every whole block at its place and a last part from the first address, the rest of it unchanged; or it stays as it was, exactly when there are too few addresses. |
| BulkClient.RoundTripIff | ip6/lib/client_lib.c:156-252 | For every size, block size and addresses that do not overlap: every payload comes back if and only if it fits in one block or is a whole number of blocks. |
| BulkClient.RoundTrip | ip6/lib/client_lib.c:156-252 | A bulk read after a bulk write, as the client performs them, returns the payload under that condition, for every network order. |
| BulkPlaces.WrittenFirst | ip6/lib/client_lib.c:235-236 | A payload of at most one block is at the first address, byte for byte, and every other location is as before. |
| BulkPlaces.WrittenAt | ip6/lib/client_lib.c:237-250 | Byte x of block i is at address i plus x, unless the last part, taken from one block behind the start of the last batch, overwrites the front of the first block. |
| BulkPlaces.WrittenElsewhere | ip6/lib/client_lib.c:237-250 | A location in none of the blocks written is as before. |
| BulkPlaces.ReadFirst | ip6/lib/client_lib.c:158-159 | A buffer of at most one block gets the bytes at the first address, and nothing else changes. |
| BulkPlaces.ReadAt | ip6/lib/client_lib.c:160-176 | Byte x of block i of the buffer comes from address i plus x, unless the last part is put over it. |
| BulkPlaces.ReadBehind | ip6/lib/client_lib.c:160-176 | Behind the whole blocks there is the last part or what was there before. |
| UniformClient.WriteUniform | ip6/lib/client_lib.c:255-265 | Reports success in any case. If a whole number of blocks, or less than one, has room, byte j of the payload is j bytes after the offset of the range on its server, and every other location is as before; without room nothing changes. |
| UniformClient.ReadUniform | ip6/lib/client_lib.c:181-191 | Reports success in any case. If there is room, byte j of the buffer comes from j bytes after the offset of the range, and the rest of the buffer is as before; without room it is untouched. |
| UniformClient.UniformRoundTrip | ip6/lib/client_lib.c:181-265 | A range of blocks on one server returns what was written to it when it has room, with no condition on addresses. |
| UniformClient.UniformLoses | ip6/lib/client_lib.c:255-265 | Two bytes written to one block of one byte and read back: both calls report success, nothing was stored and nothing arrives. |
| ShortestPaths.PopMin | legacy/TestApps/ShortestPath/sp.py:42-57 | The first node of least distance leaves the queue; the first node at all if every distance is out of range. |
| ShortestPaths.Search | legacy/TestApps/ShortestPath/sp.py:3-27 | The search ends with a tree of predecessors, each taken out before its successors, and with no edge that would shorten a distance. |
| ShortestPaths.NoneLighter | legacy/TestApps/ShortestPath/sp.py:15-24 | After the search every walk from the source weighs at least the distance found for its end. |
| ShortestPaths.ShortestPath | legacy/TestApps/ShortestPath/sp.py:3-39 | A path is returned if and only if source and destination are different nodes joined by a walk lighter than 9999; reversed, it is such a walk, and none is lighter; otherwise a look-up fails. |
| ShortestPaths.PathToItself | legacy/TestApps/ShortestPath/sp.py:29-36 | Asking for the path from a node to itself always fails, although there is one of weight zero. |
| ShortestPaths.PathTooHeavy | legacy/TestApps/ShortestPath/sp.py:29-36 | Two nodes and one edge of weight 9999: asking for the path fails, although there is one. |
| Kmp.BuildTable | ip6/lib/uthash/utstring.h:162-198 | Every entry is the longest border whose next character differs, the longest border at the end, or -1. |
| Kmp.Search | ip6/lib/uthash/utstring.h:242-271 | Despite the shortened links and the early exit: the first occurrence, or -1 if and only if there is none. |
| Kmp.Find | ip6/lib/uthash/utstring.h:309-351 | The first occurrence at or after a start that may be counted from the end, or -1 if and only if there is none. |

## Findings

* RAND can fail to return. `page_table_flush` empties the hash table but does not reset the counter
  of frames handed out (`ip6/lib/vmem/page_table.c:537-556`), so after a flush at which all frames
  had been handed out the search for a victim has nothing to find. `RandRuns.RandGetsStuck` is the
  smallest program, `RandRuns.RandStopsIff` the exact condition.
* RAID level 5 does not survive every single failure. `repairStripeFromParity45` numbers the buffers
  by host and takes the parity to be the last one (`ip6/lib/vmem/rrmem.c:304`, `343-369`).
  `Raid.Fails` gives a page for every failing case, `Raid.RecoversIff` the exact condition.
* `sp.py` fails to look up a predecessor when source and destination are the same node, and when the
  shortest walk weighs 9999 or more (`legacy/TestApps/ShortestPath/sp.py:29-36`).
  `ShortestPaths.PathToItself` and `ShortestPaths.PathTooHeavy` are the two cases,
  `ShortestPaths.ShortestPath` states the exact condition.
* A payload of more than one block that ends in a partial one does not survive a bulk transfer. The
  last part is written to and read from the first address, and in the buffer it is looked for one
  block after the last incomplete batch begins (`ip6/lib/client_lib.c:174-175`, `248-249`).
  `BulkClient.RoundTripIff` is the exact condition. With the configured block size of one byte there
  are no such payloads.
* `write_uniform_rmem` and `read_uniform_rmem` report success even when nothing was transferred
  (`ip6/lib/client_lib.c:181-191`, `255-265`). `UniformClient.UniformLoses` is an example,
  `UniformClient.WriteUniform` and `UniformClient.ReadUniform` state when.

## Assumptions

* One thread pages, and its frames start at frame 0, as `page_table_create` sets it.
* The memory management unit is a permission check before every access; the handler runs and the
  access is retried until it is allowed.
* Ages, use counts and event counters do not overflow. The flag bits of a page table word are
  separate fields.
* Simulated addresses have 36 bits, so that the page directory index is in range; the core map and
  the page directory start empty.
* The simulator's trace holds only reference lines; lines that start with `=` are skipped by the
  code that reads it.
* Allocation succeeds, and under FIFO there is at least one page. Random numbers and the hosts that fail to answer are parameters.
* RAID: the hosts receive every write, at most one answer of a read is missing, and an answer carries
  the whole block. The last point is not set by `read_raid_mem`, which leaves the length in the
  argument word to what was there before (`ip6/lib/client_lib.c:304-307`). `rrmem_allocate` always
  selects level 4; level 5 is reached only by changing the field.
* Bulk protocol: no packet is lost or repeated, and the packets from a client to one server arrive in
  the order sent. Answers to reads may arrive in any order. The caller's buffers are as long as the
  code reaches into them, which for a partial last block can be further than the size given.
* Bytes are eight bits, words of the bitmap are sequences of 32 bits, and the bit operations on the
  argument word are written out on natural numbers.
* `sp.py`: nodes are distinct, none is the empty string, edges lead to nodes, and weights are natural
  numbers.

## Left out

- Several paging threads, and the statistics of faults, reads and writes.
- RAID level 0, `checkParity45`, and the retransmission loops around a timeout.
- Opt.Policy.constructor: takes the parsed references of the trace, not its text.
- HashTables.HashTable.Insert: a page that is in the table already is excluded; the handlers insert a
  page only when it is not resident.
- HashTables.HashTable.Get: a page missing from a chain that is not empty is excluded; `getHashNode`
  dereferences a null pointer there.
- The right-to-left substring search, the mirror image of the one modelled.
- The simulator's own random and first-in-first-out policies: `Simulation` covers every policy.
- Sockets, packet rings, the other back ends, the network block device, the page-rank programs, the
  applications and the configuration files.
