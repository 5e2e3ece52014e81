# Paging simulator, modelled in Dafny

This project models the core of an instructional paging simulator. The simulator reads a trace of 32-bit virtual addresses and translates each one through a multi-level page table, and it writes one of several logs.

The page table is a sparse tree of `Level` nodes. Nodes are allocated lazily, on the first insert that needs them. Each virtual address is split into one index per level plus a page offset. The split comes from the configured level widths.

The repository has two versions of the program:
- **The later version** replaces pages with NFU (not frequently used) aging once every frame is in use. A missing page takes the next free frame while one is left. After that it evicts the page with the smallest 16-bit aging bitstring. Ties go to the older last access, then to the lower frame.
- **The earlier version** has no replacement. A miss with no free frame stops the run with status 1 ("Out of physical frames").

Both versions validate the command line the same way before they build the table.

What is modelled:
- **`Level` nodes** (`level.dfy`): a class with its child-pointer array and its mapping array.
- **The page table** (`page_table.dfy`): a class with its per-level geometry vectors. Ghost maps describe the tree: the index path of every node, and the frame of every valid leaf entry.
- **The address geometry** (`layout.dfy`, `radix.dfy`, `bits.dfy`): `And`, `Or`, `>>` and `<<` are defined on integers in `[0, 2^32)`. The index path of an address is the mixed-radix digit list of its page number.
- **The tree's structural size** (`count.dfy`).
- **The NFU state** (`nfu.dfy`): a class holding the page list, the page-to-index map, the set of pages accessed since the last tick, and the two clocks.
- **The per-access step with replacement** (`simulator.dfy`): the step keeps the table and the NFU state in agreement. Loaded page `i` occupies frame `i`, the table maps exactly the loaded pages, and each loaded page is mapped to its own frame.
- **The trace loops of every log mode** (`runs.dfy`, `early.dfy`, `first_use.dfy`).
- **Command-line validation** (`config.dfy`).
- **Both `main`s** (`program.dfy`).

The earlier run is proved against `FirstUse.FirstUses`, the list of pages in the order of their first use. Each address gets the frame of its page's position in that list. Two addresses share a frame exactly when they lie on the same page. The run stops with status 1 at the first new page once every frame is taken.

Points of the code that the model follows as written:
- **NFU tick test.** After both clocks advance, a tick happens when `timeSinceTick > interval` (`nfu.cpp:30-32`). Both sides are compared as `uint32_t`: the counter wraps, and the `int` interval is converted (`Nfu.TickDue`). With an interval below 2^31 a tick therefore comes once every `interval + 1` accesses (`Nfu.TickPeriod`). An interval of -1 converts to `0xFFFFFFFF` and never ticks (`Nfu.AllOnesIntervalNeverTicks`).
- **Accessed-page recording.** Hits, misses and slot reuse always add the page to the accessed set (`nfu.cpp:43`, `:52`, `:98`). No access is exempted by the time.
- **`onHitNFU` on an unknown page** changes nothing (`nfu.cpp:40`); it is not a precondition. `onMissNFU` does not check capacity (`nfu.cpp:48-53`).
- **`selectVictimNFU` on an empty page list** returns -1 (`nfu.cpp:62`).
- **A rejected command line** ends the program with `exit(0)` (`code_files/cpp_files/main.cpp:357-415`), so its exit status is 0.
- **The earlier `main`** has no `summary` mode, although `summary` is its default mode (`main.cpp:162`, `main.cpp:235-249`). That mode, like any unknown mode, reports nothing and returns 0.
- **Every run starts from `initNFUState`.** The run methods require the NFU state `initNFUState` leaves and a table with nothing mapped, as `main` builds them (`code_files/cpp_files/main.cpp:418-421`).

Inputs and outputs:
- **The trace file** becomes the parameter `trace: seq<Word>`. Whether it opens is the parameter `opens`.
- **The options** arrive as already-converted `Flag`s.
- **What a mode would print** is returned as a `Report` value.

## Model

| member | source | states |
|---|---|---|
| Levels.Level.constructor | level.h:14-15 | stores entry count, leaf flag and depth; both arrays null |
| Levels.Level.AllocateChildren | level.cpp:22-29 | on a non-leaf without children: a fresh array of `entryCount` null pointers; otherwise nothing changes (so a second call changes nothing) |
| Levels.Level.AllocateMappings | level.cpp:32-36 | on a leaf without mappings: a fresh array of `entryCount` invalid entries; otherwise nothing changes |
| Levels.Level.EnsureChild | level.cpp:39-46 | an existing child is returned unchanged; otherwise the child array is allocated if missing and a fresh child with the given entry count, leaf flag and `depth + 1` is stored at `index`; every other child pointer is unchanged |
| Levels.Level.GetChild | level.h:33 | null without a child array, else `children[index]` |
| Levels.Level.GetMapping | level.h:34 | a reference to entry `index` of the allocated mapping array |
| Levels.Level.GetMap | level.h:35 | the value of entry `index` of the allocated mapping array |
| Layout.OffsetBitsOf | code_files/cpp_files/pageTable.cpp:55-60 | with valid widths the offset keeps between 4 and 31 bits |
| Layout.ShiftRecurrence | code_files/cpp_files/pageTable.cpp:64-70 | the last level's shift is `offsetBits`; `shifts[i] == shifts[i+1] + levelBits[i+1]` |
| Layout.OffsetShifts | code_files/cpp_files/pageTable.cpp:60-61 | `1u << offsetBits` is the page size and one less is the offset mask |
| Layout.LevelShifts | code_files/cpp_files/pageTable.cpp:73-76 | `1u << levelBits[i]` is the entry count and `((1u << levelBits[i]) - 1u) << shifts[i]` is level `i`'s mask, with no 32-bit wrap |
| Layout.MasksDisjoint | code_files/cpp_files/pageTable.cpp:73-76 | no bit is in two level masks or in a level mask and the offset mask |
| Layout.MasksCover | code_files/cpp_files/pageTable.cpp:60-76 | bit `k` is in the offset mask or some level mask exactly when `k < 32` |
| Layout.MaskedPiece | pageTable.h:26-29 | `(va & bitmasks[i]) >> shifts[i]` is digit `i` of the address's page number |
| Layout.MaskedOffset | pageTable.h:32 | `va & offsetMask` is `va` modulo the page size |
| Layout.VpnBound | code_files/cpp_files/main.cpp:67 | `vaddr >> offsetBits` fits in the level bits |
| Layout.SamePathSamePage | pageTable.h:26-29 | two addresses have the same index path exactly when they are on the same page |
| Layout.PathVpnRoundTrip | pageTable.h:26-29 | page number to index path and back is the identity, both ways, for in-range values |
| Layout.AddressRoundTrip | pageTable.h:26-32 | the page number rebuilt from the indices, shifted up and OR-ed with the offset, is the address |
| Layout.PageAddress | code_files/cpp_files/main.cpp:89-92 | `oldVPN << offsetBits` lies on page `oldVPN` and has its index path |
| Layout.PhysicalAddress | code_files/cpp_files/main.cpp:103 | `(pfn << offsetBits) | getOffset(vaddr)` is the frame (mod the frames that fit in 32 bits) times the page size plus the address's offset, and fits in a `uint32_t` |
| Layout.PhysicalAddressFits | code_files/cpp_files/main.cpp:103 | `pfn << offsetBits` OR-ed with the offset is the frame (mod the frames that fit) times the page size plus the offset, below 2^32 |
| Layout.PhysicalAddressFields | code_files/cpp_files/main.cpp:103 | the physical address keeps the virtual offset and carries the frame above it |
| PageTables.PageTable.constructor | pageTable.h:9-15 | no levels, offset width and mask 0, empty vectors, null root, no mappings |
| PageTables.PageTable.PageSizeBytes | pageTable.h:22 | `1u << offsetBits` equals the page size of the widths |
| PageTables.PageTable.GetVPNPiece | pageTable.h:26-29 | the index of `va` at `level`, i.e. element `level` of its index path, below the entry count |
| PageTables.PageTable.GetOffset | pageTable.h:32 | `va` modulo the page size, below the page size |
| PageTables.PageTable.InitFromLevelBitsNoRoot | pageTable.cpp:3-35 | the vectors, offset width and mask agree with the widths' layout; the root is left as it was |
| PageTables.PageTable.InitFromLevelBits | code_files/cpp_files/pageTable.cpp:47-80 | the geometry as above, a fresh root of `entryCount[0]` entries that is a leaf exactly with one level; the root is the only node, with no arrays and no mapping |
| PageTables.PageTable.SearchMappedPfn | code_files/cpp_files/pageTable.cpp:83-107 | null exactly when `va`'s page has no valid entry (no root, missing node, no leaf array or invalid entry); otherwise the entry at `va`'s index path, valid, holding its frame |
| PageTables.PageTable.InsertMapForVpn2Pfn | code_files/cpp_files/pageTable.cpp:110-131 | without a root nothing changes; otherwise `va`'s index path maps to `frame` and every other valid entry is kept; every node and array is kept at its path, and the nodes and arrays added all lie on proper prefixes of `va`'s index path; the tree stays well formed and only new objects join it |
| PageTables.PageTable.DescendCreating | code_files/cpp_files/pageTable.cpp:114-121 | ends at the leaf node whose path is the prefix of `va`'s index path, keeping every node and creating only nodes on that path, without changing any mapping |
| PageTables.GrowChain | code_files/cpp_files/pageTable.cpp:115-120 | one `ensureChild` step of the descent toward `va` stays on `va`'s index path, and what it adds sits on that path |
| PageTables.PageTable.EnsureChildAt | code_files/cpp_files/pageTable.cpp:117-120 | after `ensureChild` the node at `p + [index]` is the returned child, every other node and child array is kept, nothing is added off that path, and the tree stays well formed |
| PageTables.PageTable.ChildGrows | code_files/cpp_files/pageTable.cpp:117-120 | `ensureChild` adds at most the child at `p + [index]` and the node's child array, and keeps every other node and array |
| PageTables.PageTable.ChildEnsured | code_files/cpp_files/pageTable.cpp:117-120 | after `ensureChild` the table is still well formed, only fresh objects joined it, and it grew only along `p + [index]` |
| PageTables.PageTable.StoreInLeaf | code_files/cpp_files/pageTable.cpp:123-130 | the leaf's entry `vpnPiece` becomes valid with `frame`; nothing else changes in the mapping; a new mapping array belongs to the leaf on the path |
| PageTables.PageTable.AllocateMappingsAt | code_files/cpp_files/pageTable.cpp:125-127 | a leaf without mappings gets a fresh array, recorded at the leaf's path, and the tree stays well formed |
| PageTables.PageTable.StoreAt | code_files/cpp_files/pageTable.cpp:128-130 | writing pfn then valid maps the entry's path to `frame` and keeps every other entry |
| PageTables.PageTable.InvalidateSlot | code_files/cpp_files/main.cpp:92-94 | clearing `valid` removes exactly that path from the valid entries |
| PageTables.InsertedTranslate | code_files/cpp_files/pageTable.cpp:110-131 | after an insert, addresses on `va`'s page translate to the frame and every other address as before |
| PageTables.InvalidatedTranslate | code_files/cpp_files/main.cpp:92-94 | after the invalidation, addresses on the evicted page translate to nothing and every other address as before |
| PageTables.ExtractIsPiece | code_files/cpp_files/pageTable.cpp:134-136 | `extractVPNFromVirtualAddress` with a level's mask and shift gives that level's index |
| Counting.CountLevelEntries | code_files/cpp_files/pageTable.cpp:17-40 | 0 for null; otherwise the number of slots in every allocated array at or under the node |
| Counting.CountEntries | code_files/cpp_files/pageTable.cpp:42-45 | 0 without a table; otherwise the number of allocated slots in the whole tree |
| Counting.CountedSlots | code_files/cpp_files/pageTable.cpp:17-40 | the recursive count equals the size of the set of allocated slot paths under the node |
| Nfu.NfuState.constructor | nfu.cpp:20-26 | no pages, empty index and accessed set, clocks at 0, the given capacity and interval |
| Nfu.NfuState.Tick | nfu.cpp:6-17 | every page's bitstring becomes `b >> 1`, OR-ed with `0x8000` if the page was accessed; accessed set empty, `timeSinceTick` 0; index kept |
| Nfu.NfuState.BeforeAccess | nfu.cpp:29-35 | both clocks advance, `timeSinceTick` wrapping at 2^32; a tick happens exactly when `Nfu.TickDue` holds, i.e. the new `timeSinceTick` exceeds the interval converted to `uint32_t`, and then every page is aged; otherwise pages and accessed set are unchanged |
| Nfu.NfuState.OnHit | nfu.cpp:38-45 | an indexed page gets `lastAccessTime = currentTime` and is recorded as accessed; an unknown page changes nothing |
| Nfu.NfuState.OnMiss | nfu.cpp:48-53 | appends `{pfn, vpn, 0x8000, currentTime}`, indexes it at the new last position, records it as accessed |
| Nfu.TickDue | nfu.cpp:30-32 | the tick test on the incremented `uint32_t` counter: for an interval in `[0, 2^32)` it ticks exactly when the counter before the increment had reached the interval; a negative interval is compared as `interval + 2^32`; the counter wrapping to 0 never ticks |
| Nfu.FullAt | nfu.cpp:56-58 | full exactly when the page count reaches `maxFrames` read as a `size_t`: the capacity itself when it is not negative, the capacity plus 2^64 when it is |
| Nfu.NfuState.IsFull | nfu.cpp:56-58 | `pages.size() >= (size_t)maxFrames`, including the size_t conversion of a negative capacity |
| Nfu.NfuState.SelectVictim | nfu.cpp:61-76 | -1 with no pages; otherwise the unique index no page precedes under (bitstring, lastAccessTime, pfn), earliest on ties, with the least bitstring |
| Nfu.NfuState.ReuseSlot | nfu.cpp:79-101 | returns the old vpn and bitstring; the slot keeps its frame and gets `newVPN`, `0x8000`, `currentTime`; index and accessed set swap the old vpn for the new |
| Nfu.AgedValue | nfu.cpp:8-13 | the aged bitstring is `b / 2` plus `0x8000` when accessed |
| Nfu.AgedBelow | nfu.cpp:8-13 | aging keeps a bitstring within 16 bits |
| Nfu.AgedTopBit | nfu.cpp:8-13 | an accessed page ages to at least `0x8000`; an idle one below `0x8000` and never upward |
| Nfu.AccessedPagesOutrankIdle | nfu.cpp:6-17 | after a tick an idle page comes before an accessed one, so an accessed page is not the victim |
| Nfu.VictimUnique | nfu.cpp:61-76 | at most one index is the victim |
| Nfu.TickPeriod | nfu.cpp:29-35 | for an interval below 2^31, after `k` accesses `timeSinceTick` is `k mod (interval + 1)`, and access `k` ticks exactly when `interval + 1` divides `k` |
| Nfu.NextSinceTickNarrow | nfu.cpp:30-32 | while neither side wraps, the tick test is the plain comparison `timeSinceTick + 1 > interval` and the counter restarts at 0 or moves up by one |
| Nfu.AllOnesIntervalNeverTicks | nfu.cpp:32 | an interval of -1 converts to `0xFFFFFFFF`, which the wrapping counter never exceeds: no access ever ticks |
| Nfu.VictimAmong | nfu.cpp:63-74 | the index the scan holds after `n` pages: no page among them comes before it in the (bitstring, lastAccessTime, pfn) order, and it comes before every page at a lower index |
| Nfu.TieBreakScenario | nfu.cpp:29-101 | two frames, interval 2, pages 0, 4, 8: the third access ticks both pages to `0xC000` and evicts page 0 from frame 0 |
| Simulator.TranslatesToIndex | code_files/cpp_files/main.cpp:69-73 | with table and NFU in agreement, an address hits exactly when its page is indexed, and then translates to that page's index |
| Simulator.FoundAtIndex | nfu.cpp:39-41 | the `vpnToIndex` lookup finds a page exactly where the policy's search of the page list does |
| Simulator.VpnPathInjective | code_files/cpp_files/main.cpp:89-92 | two in-range page numbers have the same index path exactly when they are equal |
| Simulator.AgreesAfterFill | code_files/cpp_files/main.cpp:76-81 | mapping a new page to the next frame and appending it keeps the agreement |
| Simulator.AgreesAfterReplace | code_files/cpp_files/main.cpp:83-99 | removing the victim's entry, mapping the new page to the victim's frame and overwriting the slot keeps the agreement |
| Simulator.AgreesKept | code_files/cpp_files/main.cpp:66 | aging and hit bookkeeping, which change only bitstrings and times, keep the agreement |
| Simulator.Access | code_files/cpp_files/main.cpp:64-100 | one access: the NFU state (pages, accessed set, both clocks), the next free frame and the outcome with its frame are exactly those of `Policy.Step`, whose NFU victim, aging and fill rules `Policy.StepFacts` states; the access hits exactly when the address translated before; the table maps the page to the reported frame, drops the evicted page's entry and keeps every other entry |
| Simulator.ClockTick | code_files/cpp_files/main.cpp:66 | `beforeAccessNFU` moves the clocks and ages the pages exactly as `Policy.Clocked` says, and the table and NFU state still agree |
| Simulator.Resolve | code_files/cpp_files/main.cpp:69-100 | after the clocks moved: NFU state, next free frame, outcome and frame are those of `Policy.Chosen` (hit, fill, or replacement of the NFU victim with its vpn and bitstring read before reuse); hit exactly when the address translated; the exact new table entries |
| Simulator.ResolveMiss | code_files/cpp_files/main.cpp:74-100 | the miss branch: not a hit; NFU state, next free frame, outcome and frame are those of `Policy.Chosen`; fill while frames are left, else replace the NFU victim; the exact new table entries |
| Simulator.RecordHit | code_files/cpp_files/main.cpp:71-73 | only the hit page's access time changes and the page joins the accessed set; clocks and table are kept; the result is `Policy.Chosen`'s hit in the page's frame |
| Simulator.FillFrame | code_files/cpp_files/main.cpp:76-81 | the page maps to `nextFreePFN`, is appended to the NFU pages with bitstring `0x8000` and joins the accessed set; clocks kept; the search finds it valid; the result is `Policy.Chosen`'s fill |
| Simulator.LoadPage | code_files/cpp_files/main.cpp:79-81 | `onMissNFU` after the insert: the page is appended with bitstring `0x8000` and joins the accessed set, clocks kept, table and NFU agree with one more frame in use; the result is `Policy.Chosen`'s fill |
| Simulator.ReplaceFrame | code_files/cpp_files/main.cpp:83-99 | the victim is the NFU victim; its frame is reused for the new page, its old entry removed and every other entry kept, the new one found valid; the result is `Policy.Chosen`'s replacement |
| Simulator.ReuseVictim | code_files/cpp_files/main.cpp:84-88 | the victim index is `VictimOf` the pages; its frame, vpn and bitstring as they were before `reuseSlotNFU`; the slot now holds the new page, the accessed set swaps the old page for the new, clocks kept; the result is `Policy.Chosen`'s replacement |
| Simulator.MapPage | code_files/cpp_files/main.cpp:78-80 | after insert and search, `vaddr`'s page maps to `frame` and the entry found holds it, valid |
| Simulator.InvalidatePage | code_files/cpp_files/main.cpp:89-94 | exactly the evicted page's entry is removed |
| Simulator.RemapPage | code_files/cpp_files/main.cpp:89-98 | the evicted page's entry is removed, `vaddr`'s page maps to the reused frame, every other entry is kept, and the entry found holds the frame, valid |
| Policy.FindPage | nfu.cpp:39-40 | the index of the loaded page `vpn`, and none exactly when no loaded page is `vpn` |
| Policy.Clocked | nfu.cpp:29-35 | `beforeAccessNFU` as a value: both clocks advance and `timeSinceTick` follows `Nfu.TickDue`; every page keeps its frame, vpn and access time; on a tick the accessed set is emptied (the bitstrings aged as `Nfu.AgedValue` states), otherwise pages and accessed set are unchanged |
| Policy.Chosen | code_files/cpp_files/main.cpp:69-99 | the hit / fill / NFU-victim branch after the clocks moved: it does not move the clocks and hands out at most one new frame; what each branch does is stated by `Policy.ChosenHit`, `Policy.ChosenFill` and `Policy.ChosenReplace` |
| Policy.Step | code_files/cpp_files/main.cpp:64-100 | one access, `beforeAccessNFU` then the branch: `currentTime` advances by one and at most one new frame is handed out; its full meaning is `Policy.StepFacts` |
| Policy.Run | code_files/cpp_files/main.cpp:63-107 | one event per page number |
| Policy.ClockedKeepsFrames | nfu.cpp:6-17 | the clocks and the aging keep every page in its frame and keep the state well formed |
| Policy.ChosenHit | nfu.cpp:38-45 | a hit reports the page's own frame and keeps the next free frame |
| Policy.ChosenFill | code_files/cpp_files/main.cpp:76-81 | a fill puts the page in the next free frame, which is below capacity, and moves that frame on |
| Policy.ChosenReplace | code_files/cpp_files/main.cpp:83-99 | a replacement puts the page in the NFU victim's slot and frame, reports the victim's vpn and bitstring, and the victim, another page, is no longer loaded |
| Policy.StepFacts | code_files/cpp_files/main.cpp:64-100 | one access from a well-formed state: hit exactly when the page is loaded; fill exactly when it is not and a frame is left, into the next free frame; else the evicted page is the NFU victim of the pages as this access's tick aged them, another page, reported with its aged bitstring and no longer loaded; the page ends in the frame reported, below capacity |
| Policy.RunWellFormed | code_files/cpp_files/main.cpp:59-107 | every state of a run is well formed: page `i` in frame `i`, no page twice, at most `maxFrames` frames, 16-bit bitstrings |
| Policy.RunSnoc | code_files/cpp_files/main.cpp:63-107 | one more address is one more `Step` from the state the run left |
| Policy.RunFramesInRange | code_files/cpp_files/main.cpp:103 | every access of a run gets a frame below `maxFrames` |
| Policy.RunPrefix | code_files/cpp_files/main.cpp:63-107 | the events of a prefix of a run are the run's events cut to that length |
| Policy.EventAt | code_files/cpp_files/main.cpp:63-107 | access `k` of a run is one `Step` from the state the first `k` accesses leave |
| Policy.RunTally | code_files/cpp_files/main.cpp:225-263 | hits, fills and replacements add up to the accesses; fills are the frames handed out, never more than `maxFrames`; no replacement before every frame is handed out |
| Runs.Processed | code_files/cpp_files/main.cpp:63 | the whole trace when `numAccesses <= 0`, else at most `numAccesses` and the whole trace when shorter |
| Runs.PageNumbers | code_files/cpp_files/main.cpp:67 | one page number per address |
| Runs.Advance | code_files/cpp_files/main.cpp:63-107 | one iteration of every run loop: the state and the events after `n + 1` addresses are those of the policy's run; the frame is below capacity |
| Runs.TranslateAccess | code_files/cpp_files/main.cpp:64-104 | the iteration of `run_va2pa`: the policy run extends by one event and the physical address is in that event's frame |
| Runs.TranslatedStep | code_files/cpp_files/main.cpp:103-104 | one more translated address extends the addresses reported over the frames of the events |
| Runs.ListAccess | code_files/cpp_files/main.cpp:130-170 | the iteration of `run_vpns_pfn`: the index path of the address, and the policy run extends by one event |
| Runs.PiecesListedStep | code_files/cpp_files/main.cpp:166-167 | one more record extends the records reported over the frames of the events |
| Runs.CountOutcomes | code_files/cpp_files/main.cpp:225-261 | the loop of `run_summary`: the counters are the counts of hits, fills and replacements among the policy run's events |
| Runs.MappingRecordOf | code_files/cpp_files/main.cpp:291-329 | the line of an access: its page and frame; `pthit` exactly on a hit; a replaced page other than -1 exactly on a replacement |
| Runs.MappingRecordMeaning | code_files/cpp_files/main.cpp:291-329 | from a well-formed state: the frame is below capacity; `pthit` exactly when the page was loaded; a replaced page exactly when the page was not loaded and every frame was in use, and then it is the NFU victim of the pages as this access's tick aged them, another page, reported with its aged 16-bit bitstring, and no longer loaded; bitstring 0 otherwise |
| Runs.LogOf | code_files/cpp_files/main.cpp:329 | one line per event |
| Runs.LogStep | code_files/cpp_files/main.cpp:329 | one more access adds its line to the log |
| Runs.LogLineMeaning | code_files/cpp_files/main.cpp:288-332 | line `k` of a run's log is the line of one policy step from the well-formed state the first `k` accesses leave, so `Runs.MappingRecordMeaning` holds for every line |
| Runs.LogAccess | code_files/cpp_files/main.cpp:289-329 | the iteration of `run_vpn2pfn_pr`: the policy run extends by one event, and the line is that event's line |
| Runs.LogLines | code_files/cpp_files/main.cpp:288-332 | the loop of `run_vpn2pfn_pr`: one line per processed access, and the lines are exactly the log `Runs.LogOf` of the policy run so far |
| Runs.RunVa2pa | code_files/cpp_files/main.cpp:52-111 | one physical address per processed access: the frame the policy's run (`Policy.Run` over the trace's page numbers) gives that access, shifted up, OR the offset |
| Runs.PhysicalAddressOf | code_files/cpp_files/main.cpp:103 | `pfn << offsetBits` OR-ed with `getOffset(vaddr)` from the table's fields equals the layout's physical address |
| Runs.VpnPieces | code_files/cpp_files/main.cpp:132-135 | the indices of all levels are the address's index path |
| Runs.RunOffset | code_files/cpp_files/main.cpp:180-199 | one offset per processed access, each the address modulo the page size |
| Runs.RunVpnsPfn | code_files/cpp_files/main.cpp:117-174 | one record per processed access: its index path and the frame the policy's run gives that access, never -1 |
| Runs.RunSummary | code_files/cpp_files/main.cpp:207-270 | hits, frames allocated and replacements are the counts of the policy run's outcomes, so they add up to the accesses processed; frames allocated never exceed capacity and equal it once a replacement happened; the page size; the entry count of the final tree |
| Runs.RunVpn2pfnPr | code_files/cpp_files/main.cpp:277-336 | one record per processed access, exactly the log line `Runs.MappingRecordOf` gives the page and the policy run's event for that access (see `Runs.LogLineMeaning`) |
| FirstUse.FirstUsesDistinct | main.cpp:43-51 | no page is handed a frame twice |
| FirstUse.FirstUsesCover | main.cpp:43-51 | the first-use list holds exactly the pages of the trace |
| FirstUse.FirstUsesStep | main.cpp:43-51 | one more address appends its page exactly when the page is new |
| FirstUse.TranslatesToPosition | main.cpp:40-43 | a lookup hits exactly for pages already handed a frame, and finds the page's position in the first-use list |
| FirstUse.HandedOutAfterMiss | main.cpp:50-51 | mapping a new page to `nextFreePFN` extends the first-use list by that page |
| FirstUse.ProgressStep | main.cpp:38-57 | one more access keeps the run on the first-use frames |
| FirstUse.RunEnds | main.cpp:38-60 | status 0 when the loop condition fails, status 1 at the first new page with every frame used; frames by first use, shared exactly by addresses on one page, below `numFrames` |
| EarlyMain.RootlessInsertLost | pageTable.cpp:34-35 | with the earlier `initFromLevelBits`, a search after an insert still finds nothing |
| EarlyMain.RootedInsertFound | code_files/cpp_files/pageTable.cpp:78-79 | with the root allocated, a search after an insert finds the valid entry holding the frame |
| EarlyMain.AccessWithoutReplacement | main.cpp:40-52 | a hit keeps the table and finds the page's first-use frame; a miss with a frame left maps the page to `nextFreePFN` and moves it on; a miss without one fails and changes nothing |
| EarlyMain.TranslateWithoutReplacement | main.cpp:40-55 | the access above, then the physical address in the frame it got |
| EarlyMain.RunVa2paWithoutReplacement | main.cpp:26-62 | the run ends as `RanWithoutReplacement` says, and every processed address gets its physical address |
| EarlyMain.Va2paLoop | main.cpp:33-58 | the loop keeps the first-use invariant and stops with status 1 only at a new page with every frame in use |
| EarlyMain.TranslatedExtended | main.cpp:55-56 | one more translated address extends the addresses reported by its frame |
| EarlyMain.RunVpnsPfnWithoutReplacement | main.cpp:65-109 | the same ending, and every processed address gets its index path and frame |
| EarlyMain.VpnsPfnLoop | main.cpp:72-105 | the loop of the above with the same stopping rule |
| EarlyMain.PiecesListedExtended | main.cpp:101-103 | one more record extends the records reported by its frame |
| Config.FirstRejectedOption | code_files/cpp_files/main.cpp:351-382 | the first option the loop rejects, with every earlier one accepted |
| Config.Applied | code_files/cpp_files/main.cpp:343-382 | every setting is either its default or the value of some option on the command line |
| Config.FirstSmallLevel | code_files/cpp_files/main.cpp:402-410 | the first level below 1 bit, with every earlier one at least 1 |
| Config.Problem | code_files/cpp_files/main.cpp:351-416 | the checks in program order: a command line without a trace file or with one that does not open is always rejected; `Usage` only without a trace file or after an unrecognised option; a `LevelTooSmall` reason names a level below 1 bit |
| Config.Validate | code_files/cpp_files/main.cpp:351-416 | rejected exactly when a check fails, with the first failing check's reason, in the program's order; accepted settings are the options stored in order over the defaults |
| Config.ProblemFree | code_files/cpp_files/main.cpp:351-416 | accepted exactly when every option is accepted, a trace file is named and opens, every level has at least 1 bit and they total at most 28 |
| Config.AcceptedWidths | code_files/cpp_files/main.cpp:402-416 | accepted widths are widths the table can be built from |
| Config.AppliedInRange | code_files/cpp_files/main.cpp:343-373 | accepted options leave at least 1 frame, an interval of at least 1, and -1 or a positive access count |
| Config.AppliedTakesLast | code_files/cpp_files/main.cpp:351-382 | each setting holds the value of the last option that names it |
| Config.AppliedDefault | code_files/cpp_files/main.cpp:343-347 | a setting no option names keeps its default (-1, 999999, 10, `summary`) |
| Program.Simulate | code_files/cpp_files/main.cpp:418-440 | for each log mode, what it reports about the trace, in terms of the policy's run from `initNFUState` with the options' capacity and interval: the frames, the outcome counts and the log lines; an unknown mode reports nothing |
| Program.Launch | code_files/cpp_files/main.cpp:342-441 | exit status 0 on every path; a rejected command line reports nothing; an accepted one reports what its mode reports under the stored options |
| Program.SimulateWithoutReplacement | main.cpp:235-249 | for each mode of the earlier program what it reports and its status; any other mode reports nothing with status 0 |
| Program.LaunchWithoutReplacement | main.cpp:157-250 | a rejected command line reports nothing with status 0; an accepted one runs its mode, with status 1 exactly when `va2pa` or `vpns_pfn` ran out of frames |

## Left out

- Trace input (`NextAddress`, `fopen`/`fclose`, `ifstream`): the trace is a `seq<Word>`, and whether the file opens is a boolean. The second `fopen` inside each `run_*` function is taken to succeed, so its "Unable to open" return of 1 is not modelled.
- Output (`log_*`, `print_num_inHex`): each mode returns what it would print as a `Report`, and hex formatting is not modelled.
- `getopt` and `atoi`: options arrive as `Flag`s whose numbers are already converted. An unknown option, or one missing its argument, is `Unrecognised`.
- Destructors and `delete`: Dafny's heap needs neither. The disabled copy constructor makes the nodes a strict tree; the tree invariant states this through `levelPath`, which maps every node back to its one path.
- The `pthread.h` include: it is unused, and the model has no concurrency.
- The `nfu.h` headers and `map.h` only declare types. They appear as `Nfu.LoadedPage`, the fields of `Nfu.NfuState` and `Levels.Mapping(pfn, valid)`.
- Zero levels: a command line that passes every check but names no level widths reaches `initFromLevelBits` with no levels, where `entryCount[0]` and `1u << 32` are undefined behaviour (pageTable.cpp:61, :79). `Program.Launch` and `Program.LaunchWithoutReplacement` require at least one width only of such an accepted command line; a rejected one, with or without widths, is covered.
- Config.Validate: the C++ `int` sum of the level widths can overflow for huge arguments, which is undefined behaviour. The model adds the widths without bound.
- Program.Reports: the `summary` report's entry count is stated by `Runs.RunSummary` as the size of the final tree, which lives only inside `Program.Simulate`; `Program.Reports` states the other five fields.
- Nfu.NfuState.BeforeAccess: `currentTime` and `lastAccessTime` are `uint32_t`; the model keeps them unbounded and does not model their wrap-around after 2^32 accesses. The wrap of `timeSinceTick` and the conversion of the interval are modelled. Page numbers are `nat` rather than `uint32_t`; they never exceed 2^28.
- Runs.RunVpnsPfn: records the frame of the mapping. The fallback to -1 (`code_files/cpp_files/main.cpp:166`, `main.cpp:101`) cannot be taken, because `Simulator.Access` and `EarlyMain.AccessWithoutReplacement` ensure that every recorded access has a valid mapping.
- Levels.Level.AllocateMappings: `new Map[entryCount]` (`level.cpp:33`) default-initialises the entries. `map.h`, which declares `Map`, is not part of this model; the model assumes its members default to `pfn == 0` and `valid == false` and writes that value out as `Levels.UNUSED`. Without such defaults the entries would be indeterminate, and a search could see a stale `valid` flag.
- Policy.Chosen: its own contract states only that the clocks stay and at most one frame is handed out. What each branch does is stated by `Policy.ChosenHit`, `Policy.ChosenFill` and `Policy.ChosenReplace` for well-formed states, so that every proof that unfolds a run does not carry those facts.
- Policy.Step: its own contract states only that `currentTime` advances by one and that at most one frame is handed out. The full meaning of an access is `Policy.StepFacts`.
- Policy.Clocked: its own contract does not give the aged bitstrings. `Nfu.AgedValue` gives the value of each aged bitstring, and `Policy.ClockedKeepsFrames` proves that they stay 16 bits wide.
- Layout.OffsetBitsOf: its own contract states only the range 4 to 31. The value itself is used through `Layout.OffsetShifts` and the geometry invariant `PageTables.PageTable.Geometry`.
- `run_va2pa` and `run_vpns_pfn` of the later program ignore their `numFrames` parameter. The capacity comes from the NFU state, and the model does the same.
- `pageTable.h` in the repository root declares neither `searchMappedPfn` nor `insertMapForVpn2Pfn`, so the earlier `main.cpp` calls functions only the later `pageTable.cpp` defines. The earlier program is modelled with those definitions and with the root allocated, as the finding below explains.
- `extractVPNFromVirtualAddress` is never called by the program. It is modelled with `PageTables.ExtractIsPiece` only.

## Findings

| source | as written | input that shows it | evidently intended | confidence | as-written member | corrected member |
|---|---|---|---|---|---|---|
| pageTable.cpp:34-35 | the earlier `initFromLevelBits` ends with the comment that announces the root allocation, but no statement follows, so `rootLevel` stays null | level widths `8 8` and any address: `insertMapForVpn2Pfn` returns at once, the search after the miss still yields null, and the earlier `run_va2pa` then reads `mapping->pfn` through null (`main.cpp:55`) | `rootLevel = new Level(entryCount[0], numLevels == 1);`, as in `code_files/cpp_files/pageTable.cpp:79` | not executed; high | EarlyMain.RootlessInsertLost | EarlyMain.RootedInsertFound |
