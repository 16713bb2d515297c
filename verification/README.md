# Memory virtualisation and interrupt virtualisation of Hypocaust-2

Hypocaust-2 is a hypervisor for the RISC-V H extension. This project models the part of it that is hard to get
right: Sv39 page tables that grow in place in raw physical memory over a recycling frame allocator, the areas and
memory sets built on them, the software page walk with the two-stage translation, and the virtual timer and virtual
PLIC that the trap handlers drive. Its main results hold for all inputs, all runs or all reachable states.

How the model is laid out:

- `Words.dfy`: 64-bit words, page-table entries, address masks, page indexes, the bytes of a word.
- `Frames.dfy`: the frame allocator (`Frames`), physical memory and frame trackers (`Memory`).
- `TableModel.dfy`, `PageTable.dfy`, `TableRuns.dfy`: a table in memory as a tree, the calls on it, runs of calls.
- `PageWalk.dfy`, `WalkTheory.dfy`, `Translation.dfy`, `TwoStage.dfy`: the software walk, the algorithm of section
  4.3.2 of the RISC-V Privileged Architecture (version 20211203), the walk over tables built by `map`, and the
  two-stage translation of section 8.5 of the same manual.
- `GuestRoot.dfy`: the 16 KiB root of a guest table.
- `AreaSpec.dfy`, `MapArea.dfy`, `MemorySet.dfy`: ranges of pages, their frames, and sets of ranges.
- `SetRuns.dfy`, `SetLives.dfy`: runs of calls on a set against an abstract machine, two sets over one pool, a set's life.
- `GuestSpace.dfy`, `GuestTheory.dfy`: the guest's second-stage address space, built push by push, and what it maps.
- `HostStack.dfy`: the hypervisor's stacks, one per guest, with guard pages.
- `VirtualTimer.dfy`, `VirtualPlic.dfy`, `TrapHandler.dfy`: the two interrupt machines and the handlers that step them.

How the source is read:

- Objects that the source updates in place are classes: `FrameAllocator`, `PhysMem`, `PageTable`, `MapArea`,
  `MemorySet`, `HostVmm`, `TrapContext`. Physical memory is a map from (frame, index) to 64-bit words that all tables
  share; a table carries ghost fields for its tree and for the page map that it stands for.
- A panic is a returned value: `Panicked(reason)`, `None` or `null`. The contracts of the operations say exactly when
  they panic; the few requirements they make of their callers are listed under "Left out". Arithmetic is that of a
  debug build: overflow and underflow panic, left shifts drop bits.
- Page numbers are looked up by their low 27 bits, as `indexes` does, so `map` and `unmap` take any page number and any
  frame number. `translate` does not test the V bit; "mapped" means that the entry it returns is valid.
- Where a wanted property is false of the code, the code is modelled as it is, with the exact condition under which the
  property holds and, where it helps, a concrete run that violates it: `Frames.DeallocReturns` and
  `Frames.EveryRunExactIff`, `Frames.ReturnBelowBase`, `GuestRoots.GuestRootFull`, `GuestRoots.ScatteredRootLeaks` and
  `GuestRoots.RecycledFramesScatterRoot`,
  `GuestTheory.EmptyPlicRangeNeverFits`, `Translation.WalkMeetsTranslateVa`, `Translation.TranslateVaAliases`,
  `TwoStage.MaskKeepsRoot`, `TwoStage.FastAgainstFull`, `TwoStage.FullAnswersUnmapped` and
  `TwoStage.SoftwareMeetsHardware`, `GuestTheory.GuestTranslationsAgree` and `GuestTheory.RootInPoolDisagrees`,
  `VirtualPlic.CoherentIffDisciplined`, `VirtualPlic.EveryPlicRun` and `VirtualPlic.SecondTrapLosesFirst`.
- Device registers, firmware answers, CSRs, decoded instructions, the clock and the link-time address of the trampoline
  are parameters.

`dafny verify dfyconfig.toml` checks the whole project.

## Model

| member | source | states |
|---|---|---|
| `Words.PteRoundTrip` | src/page_table/pte.rs:26-42 | Decoding an entry gives back its flags always and its page number exactly when that is below 2^44; every entry that `map` makes is valid. |
| `Words.Indexes` | src/page_table/address.rs:153-161 | The loop yields three 9-bit indexes, most significant first, which together are the low 27 bits of the page number: bits 18 to 26, 9 to 17 and 0 to 8. |
| `Words.Ceil` | src/page_table/address.rs:102-107 | Rounding up panics exactly on address zero and above 2^64 - 4096; otherwise it gives the first page boundary at or after the address. |
| `Frames.FrameAllocator.constructor` | src/hyp_alloc/frame_allocator.rs:52-65 | A fresh pool over [l, r) has no live frame and r - l free ones; it is a pool exactly when l <= r <= 2^44, which `init` does not check. |
| `Frames.FrameAllocator.Alloc` | src/hyp_alloc/frame_allocator.rs:66-75 | Fails exactly when no frame is free; otherwise hands out a free frame, never a live one, and that frame alone becomes live. |
| `Frames.FrameAllocator.Dealloc` | src/hyp_alloc/frame_allocator.rs:76-84 | At or above the base it accepts exactly the live frames, of which that one becomes free; below, an accepted frame breaks the pool, and only that does; a refusal changes nothing. |
| `Frames.Partition` | src/hyp_alloc/frame_allocator.rs:46-84 | Live frames, recycled frames and the untouched tail are disjoint and together are the pool. |
| `Frames.PoolSize` | src/hyp_alloc/frame_allocator.rs:46-84 | Live and free frames add up to the size of the pool. |
| `Frames.TakeFollowsOrder` | src/hyp_alloc/frame_allocator.rs:66-75 | Allocation takes the recycled frames last-in first-out and then the tail upwards. |
| `Frames.DeallocReturns` | src/hyp_alloc/frame_allocator.rs:76-84 | The pool stays intact after an accepted return exactly when the frame was not below the pool's base. |
| `Frames.EveryRunExactIff` | src/hyp_alloc/frame_allocator.rs:52-84 | Over every run after `init(l, r)`, with no condition on its calls, the clients' account of held frames is exactly the pool's all the way (partition, no double hand-out, failure only when all frames are held, acceptance exactly of held frames) if and only if no frame below l is returned before the run stops. |
| `Frames.ReturnBelowBase` | src/hyp_alloc/frame_allocator.rs:76-84 | A frame just below the base is accepted by a fresh pool and handed out next. |
| `Memory.PhysMem.ClearFrame` | src/hyp_alloc/frame_allocator.rs:17-24 | The byte loop clears all 512 words of the frame and touches no other frame. |
| `Memory.FrameAlloc` | src/hyp_alloc/frame_allocator.rs:111-121 | A frame is taken and cleared; failure changes neither pool nor memory. |
| `Memory.ReturnAll` | src/hyp_alloc/frame_allocator.rs:33-37 | Dropping distinct live trackers is never rejected and returns exactly those frames. |
| `Memory.CopyInto` | src/mm/memory_set.rs:602-608 | The copied bytes land at the start of the frame; every other byte of memory is as before. |
| `TableModel.LookupIsMap` | src/page_table/sv39.rs:16-32 | A lookup in memory yields a valid entry exactly for the mapped pages, and then the mapped entry; on unmapped pages with a leaf table it yields the empty entry. |
| `TableModel.GrowMid` | src/page_table/sv39.rs:34-52 | Linking a cleared frame that the tree does not own as a middle table keeps the tree shape and the meaning. |
| `TableModel.GrowLeaf` | src/page_table/sv39.rs:34-52 | The same for a leaf table. |
| `TableModel.WriteEntry` | src/page_table/sv39.rs:102-113 | Writing one leaf entry changes the meaning at its own page alone. |
| `TableModel.RepresentsFrame` | src/page_table/sv39.rs:16-32 | The meaning depends on the words of the tree's own frames alone. |
| `TableModel.OneParent` | src/page_table/sv39.rs:34-52 | Every table but the root hangs from exactly one entry and the root from none: the reachable frames are a tree. |
| `PageTables.PageTable.FindPte` | src/page_table/sv39.rs:16-32 | The loop ends in the slot that the recursive descent names. |
| `PageTables.PageTable.FindPteCreate` | src/page_table/sv39.rs:34-52 | Panics exactly when the pool holds fewer frames than the path lacks; otherwise adds exactly the missing tables, keeps every mapping and returns the page's slot. |
| `PageTables.PageTable.Map` | src/page_table/sv39.rs:102-106 | Panics exactly when the page is mapped or the pool is too small, and says which, with an empty pool and a missing table in the second case; otherwise the page map gains this page alone, and its entry is, as a number, the page number shifted by ten, the flags as given, and bit 0. |
| `PageTables.PageTable.Unmap` | src/page_table/sv39.rs:109-113 | Panics exactly on an unmapped page; otherwise the page map loses this page alone and every table stays. |
| `PageTables.PageTable.Drop` | src/hyp_alloc/frame_allocator.rs:33-37 | All of the table's frames, and no others, go back to the pool, and no return is rejected. |
| `PageTables.PageTable.New` | src/page_table/sv39.rs:82-88 | A fresh table is an empty map over one cleared frame; it fails exactly on an empty pool. |
| `PageTables.PageTable.NewGuest` | src/page_table/sv39.rs:60-78 | The table takes the pool's next frames up to the first on a 16 KiB boundary, which is the root, and three more; it fails exactly when these do not exist. |
| `GuestRoots.GuestRootConsecutive` | src/page_table/sv39.rs:60-78 | Without a recycled frame on a 16 KiB boundary, the root is the first such frame of the tail, at most three frames in, and it and its three extension frames are consecutive; exactly enough tail makes it succeed. |
| `GuestRoots.GuestRootRecycled` | src/page_table/sv39.rs:60-78 | With one, the root is the last of these; the frames recycled after it are skipped and the next three of the pool that is left follow it. |
| `GuestRoots.GuestRootFull` | src/page_table/sv39.rs:60-78 | The exact condition on the pool for a root whose four frames are the table's own: no recycled frame is on a 16 KiB boundary, or the three frames after the last such one are among those recycled after it and the next three handed out. |
| `GuestRoots.ScatteredRootLeaks` | docs/guest_page_table.md:6 | A fresh table whose root is not full leaks: one word in a frame that the table does not hold makes the hardware translate a guest physical address from 2^39 up, with the table's invariant intact. |
| `GuestRoots.RecycledFramesScatterRoot` | src/page_table/sv39.rs:60-78 | Two allocations and a return on a fresh pool reach a state from which the next guest root is not full. |
| `TableRuns.LastCallDecides` | src/page_table/sv39.rs:102-113 | After any run from the empty map a page is mapped iff the last call on it was `map`, and its entry is, as a number, that call's page number shifted by ten, its flags, and bit 0. |
| `TableRuns.Run` | src/page_table/sv39.rs:102-117 | Over any run of calls the tree in memory answers exactly like the abstract map, the root and the spare frames stay, and the run stops early only where the abstract run does or where the pool is empty and the next page still lacks a table. |
| `TableRuns.RunBeside` | src/page_table/sv39.rs:102-117 | With two tables over one allocator, any run on one leaves every translation of the other unchanged, up to a stop for one of these two reasons. |
| `PageWalks.WalkPageTable` | src/page_table/sv39.rs:129-158 | For every reader, root and address the loop returns a walk exactly when that is the chain of `PageWalks.WalkIsChain`, and nothing when there is no such chain. |
| `PageWalks.WalkIsChain` | src/page_table/sv39.rs:129-158 | A walk succeeds with a result exactly when that is a chain of one to three entries, each in the page named by the one before, at the index that the address has for its level, all with V and none with W but not R, with the last as the only one with R or X; the address is in the page that this one names, at the offset of the virtual address. All of it is stated in the bits of the words. |
| `WalkTheory.WalkIsLocal` | src/page_table/sv39.rs:129-158 | Memories that agree on the words a walk reads give it the same result and the same reads. |
| `WalkTheory.WalkMeetsSpec` | src/page_table/sv39.rs:129-158 | Against the algorithm of section 4.3.2: that algorithm, written on the bits of the entries and of the address, succeeds exactly when the walk does through well-formed entries only, and the addresses are then the same. |
| `WalkTheory.MaskedWalk` | src/page_table/sv39.rs:129-158 | Over memory of which some addresses read as invalid entries, that algorithm gives what it gave before if all addresses that the walk reads can be read, and faults otherwise. |
| `WalkTheory.SplitKeepsWalk` | src/page_table/sv39.rs:143-155 | Replacing an aligned 1 GiB or 2 MiB leaf by a pointer to 512 consecutive smaller leaves in unread memory leaves the address of every walk unchanged. |
| `Translation.WalkOfTable` | src/page_table/sv39.rs:115-158 | Over a table built by `map`, the walk succeeds exactly on the mapped pages whose entry is a usable leaf, with that entry's address. |
| `Translation.WalkMeetsTranslateVa` | src/page_table/sv39.rs:119-158 | Where the walk succeeds, it gives the address of `translate_va` exactly when the entry's page number fits in 44 bits. |
| `Translation.GStageOfTable` | docs/guest_page_table.md:6 | Hardware that reads a guest table built by any calls as an Sv39x4 root (section 8.5.1: reserved bits, alignment, the U bit) translates exactly the addresses below 2^39 in mapped pages with an acceptable leaf, to that leaf's page; root slots 512 to 2047 never become valid. |
| `Translation.TranslateVaAliases` | src/page_table/sv39.rs:119-127 | The software lookup drops the bits above 39 instead of faulting. |
| `TwoStage.TranslateGuestVa` | src/page_table/mod.rs:64-78 | Fails exactly when the walk does; otherwise the path is not empty, the entry is read 128 MiB times the guest number above the reported address, has V and R or X, and level and guest address are that leaf's. |
| `TwoStage.FastAgainstFull` | src/guest/mod.rs:86-122 | Both forms fail when the first stage faults; otherwise they agree exactly when the second stage has a leaf table for the page and the entry there, valid or not, names the page itself. |
| `TwoStage.FastIsFullOnIdentity` | src/guest/mod.rs:86-122 | When the first stage ends in an identity-mapped page, or faults, the fast form and the full form return the same. |
| `TwoStage.FullAnswersUnmapped` | src/guest/mod.rs:86-105 | On an unmapped page with a leaf table the full form answers from the empty entry; the two forms agree there only within page zero. |
| `TwoStage.MaskKeepsRoot` | src/guest/mod.rs:87-110 | The vsatp mask keeps the root's page number exactly when it is below 2^42; 2^42 is taken for a guest without paging. |
| `TwoStage.HardwareTranslates` | src/guest/mod.rs:86-122 | For a guest with paging over a second stage that maps onto itself what it accepts, whatever the root, the page tables and the address: the nested translation of section 8.5, built from the algorithm of section 4.3.2, succeeds exactly when the mode is Sv39, the address is canonical, the walk from the 44-bit root goes through well-formed entries only, and the G-stage passes everything it reads and its answer. |
| `TwoStage.SoftwareMeetsHardware` | src/guest/mod.rs:86-122 | The exact agreement of the fast form with that, for every vsatp: with a root that the mask keeps, exactly when the fast form fails or hardware accepts the walk and passes its answer; from 2^42 on hardware always faults; root zero, which the code takes for no paging, agrees only if the walk from there ends where it started. Where the target is passed, the full form is the fast one. |
| `TwoStage.BareMeetsHardware` | src/guest/mod.rs:95-120 | For a guest without paging hardware answers exactly in pages that the G-stage accepts, and with the address itself exactly where it passes it; with a zero root the fast form always answers with the address, and the full form does where it is passed. |
| `AreaSpecs.NewArea` | src/mm/memory_set.rs:510-540 | Panics exactly when an end cannot be rounded up or lies more than a page before its start; otherwise both ranges are the page hulls of the addresses given, exactly, with the type and permissions given. |
| `AreaSpecs.NeedStep` | src/page_table/sv39.rs:34-52 | One more page costs exactly the tables that its path still lacks. |
| `AreaSpecs.NeedBound` | src/page_table/sv39.rs:34-52 | Mapping [s, e) needs at most one table for each 2 MiB and each 1 GiB prefix that it touches, in closed form, and exactly that many in an empty tree. |
| `AreaSpecs.BlockedRange` | src/mm/memory_set.rs:564-587 | The page at which mapping a range panics explains the panic in terms of the state at its start: a page of the range was mapped, or the whole range needs more frames than there were, or it has no physical range. |
| `MapAreas.MapArea.MapOne` | src/mm/memory_set.rs:541-556 | Panics exactly on a mapped page, on a linear page without a number, or when table and data frames are short, and the reason given is true; otherwise maps this page alone, a framed one to a cleared frame that was free. |
| `MapAreas.MapArea.Map` | src/mm/memory_set.rs:564-587 | Returns exactly when the range fits: lengths agree, no page is mapped, and the frames for the missing tables and the data are free; an empty range with a physical range never does, and any other panic gives a true reason. Then it added exactly the range's pages, page i to frame i of the physical range or to its own cleared frame, with the area's permissions and V, as numbers, and exactly the missing tables. |
| `MapAreas.MapArea.UnmapOne` | src/mm/memory_set.rs:558-563 | Panics exactly on an unmapped page; otherwise the page and its data frame are released and nothing else. |
| `MapAreas.MapArea.Unmap` | src/mm/memory_set.rs:589-593 | Returns exactly when every page of the range is mapped; then all of them and their data frames are released and the tables stay. |
| `MapAreas.MapArea.MapThenUnmap` | src/mm/memory_set.rs:564-593 | Restores page map, area and everyone else's frames; what stays held is exactly the number of tables that mapping needed. |
| `MapAreas.UnmapUndoesMap` | src/mm/memory_set.rs:558-593 | The same between any three states related by mapping and releasing one range. |
| `MapAreas.MapArea.CopyData` | src/mm/memory_set.rs:596-615 | Panics exactly on an area that is not framed; otherwise byte i is at offset i of the area's frames in page order, every other byte of the area and every other frame is as before. |
| `MemorySets.MemorySet.Push` | src/mm/mod.rs:106-112 | Returns exactly when the area fits and data comes with a framed area only, and gives a true reason otherwise; then exactly the area's pages, frames and missing tables were added, all earlier areas keep their frames and pages, only table frames and the new area's frames changed, and data reads back through the table, with zeros to the end of the area. |
| `MemorySets.OtherAreaKept` | src/mm/mod.rs:106-112 | Mapping one area leaves another's frames its own and its pages mapped to them. |
| `MemorySets.MemorySet.InsertFramedArea` | src/mm/mod.rs:93-103 | Returns exactly when the range is well formed and fits, and gives a true reason otherwise; then exactly its pages were added, each with its own frame. |
| `MemorySets.MemorySet.MapTrampoline` | src/mm/mod.rs:115-124 | Returns exactly when the trampoline is page-aligned and its page fits; then the last page of the 39-bit space is mapped to it and nothing else: its entry has V, R and X, and a lookup of any of its 4096 addresses gives the address at the same offset from the trampoline. |
| `MemorySets.MemorySet.Drop` | src/hyp_alloc/frame_allocator.rs:33-37 | Dropping table and areas is never rejected and returns exactly the frames that the set held. |
| `SetRuns.Perform` | src/mm/mod.rs:93-124 | One call on a memory set (push with or without data, trampoline, unmap of an area, copy into an area) panics exactly when an abstract machine does, follows it otherwise, and leaves everybody else's frames in their hands and unchanged. The machine knows the entry of every linear page, the owner of every framed one, the table prefixes, the free frames and the bytes of every area. |
| `SetRuns.Run` | src/mm/mod.rs:93-124 | The same over any run of such calls. |
| `SetRuns.PageLeads` | src/mm/memory_set.rs:541-587 | In every state that shows an abstract one, exactly the recorded pages are mapped: linear ones to the recorded frame and permissions, framed ones to their area's own frame. |
| `SetRuns.ReadsBack` | src/mm/memory_set.rs:596-615 | There every byte of every standing framed area, read through the table, is the one last pushed or copied there, or zero. |
| `SetLives.Neighbour` | src/mm/memory_set.rs:596-615 | Whatever a set does with its own frames and the pool's, another set over the pool keeps its invariant, every translation and every byte of its areas, and the two still share no frame. |
| `SetLives.RunBeside` | src/mm/memory_set.rs:541-615 | Two memory sets over one allocator: any run of pushes with or without data, unmaps, copies and the trampoline on one leaves every translation and every area byte of the other unchanged, and their frames disjoint. |
| `SetLives.Lifecycle` | src/hyp_alloc/frame_allocator.rs:33-37 | Any host or guest memory set from creation through any run of calls to its drop: it returns exactly when the pool supplies the root and the abstract run goes through, and then the pool's free frames are exactly those from before. |
| `MemorySets.NewGuestBare` | src/mm/memory_set.rs:236-241 | Returns exactly when the pool yields an aligned root and three more frames; the set is empty and took exactly the frames up to these. |
| `MemorySets.NewBare` | src/mm/memory_set.rs:49-54 | Returns exactly when the pool is not empty; the set is empty and took one frame. |
| `GuestSpaces.NewGuestWithoutLoad` | src/mm/memory_set.rs:389-495 | Returns exactly when the pool yields a root and the areas of the machine description are well formed, pairwise disjoint and affordable; then the table maps exactly their pages, each to its target with its permissions, and a lookup of the last page gives the trampoline with V, R and X. |
| `GuestSpaces.NextFits` | src/mm/memory_set.rs:389-495 | In a plan that can be carried out, each push in turn fits the state that the earlier ones left. |
| `GuestSpaces.NeedOfOneMore` | src/mm/memory_set.rs:389-495 | Each push costs exactly what the number of distinct 2 MiB and 1 GiB prefixes of the whole list grows by. |
| `GuestTheory.GuestPagesExactly` | src/mm/memory_set.rs:389-495 | A page is valid exactly when it is in the page hull of a region of the machine or is the trampoline page. |
| `GuestTheory.GuestExecutableExactly` | src/mm/memory_set.rs:393-428 | Apart from the trampoline a valid page is executable exactly when it meets guest memory or the test device. |
| `GuestTheory.GuestEntriesExactly` | src/mm/memory_set.rs:389-495 | Every entry of the guest's table as a number: a page of guest memory or the test device has its own page number with V, R, W, X and U, a page of any other device the same without X, and the last page the trampoline's frame with V, R and X. |
| `GuestTheory.GuestIsIdentity` | src/mm/memory_set.rs:389-495 | Every valid page but the trampoline maps onto itself through a usable leaf. |
| `GuestTheory.PlicContextsTrap` | src/mm/memory_set.rs:389-495 | From 2 MiB above a page-aligned PLIC base on, a page is valid only where another region or the trampoline covers it. |
| `GuestTheory.EmptyPlicRangeNeverFits` | src/mm/memory_set.rs:372-384 | The empty PLIC range that `new_guest` pushes never fits at a page-aligned base; at any other it fits exactly when the one page around the base is unmapped and the pool can supply its tables. |
| `GuestTheory.GuestTranslationsAgree` | src/guest/mod.rs:86-122 | For every guest so built that uses paging, whatever its root, its page tables and the address: with a root that the mask keeps, fast form and hardware agree exactly when the fast form fails, or the mode is Sv39, the address canonical, and the walk goes through well-formed entries only, all of them in the guest's own pages, and ends in one; from 2^42 on hardware always faults; root zero is taken for no paging. Where the target is the guest's, the full form is the fast one. |
| `GuestTheory.RootInPoolDisagrees` | src/page_table/mod.rs:64-78 | With the first-stage root in a pool frame that the guest's table does not hold, and a leaf there, the fast form answers and hardware faults, for every guest and every canonical address. |
| `GuestTheory.BareGuestTranslates` | src/hypervisor.rs:226-229 | For every guest so built that does not use paging: hardware translates exactly the addresses in the guest's pages, to themselves; with a zero root, as each guest starts, both software forms do so there. |
| `GuestTheory.GuestStaysOutside` | src/mm/memory_set.rs:389-495 | When no region of the machine meets the frame pool, hardware leads the guest to no frame of the pool, where its own tables, all other tables and all areas' frames are. |
| `GuestTheory.GuestStoresHarmless` | src/mm/memory_set.rs:389-495 | So whatever the guest stores, its second-stage table keeps its invariant and its meaning, no live frame changes, and hardware translates every address as before. |
| `HostStacks.StackAreaIs` | src/hypervisor.rs:10-26 | A guest's stack is the 16 KiB below the trap context, 20 KiB further down per guest; masked to 39 bits it is a framed area of four pages, readable and writable. |
| `HostStacks.StackIsCanonical` | src/page_table/address.rs:86-94 | A stack is used at the address it is mapped at exactly when it lies in the upper half of the space. |
| `HostStacks.StacksApart` | src/hypervisor.rs:10-14 | Stacks of different guests share no page, stay below the trap-context and trampoline pages, and neighbours leave exactly one page between them. |
| `HostStacks.OnlyFramesLack` | src/hypervisor.rs:16-26 | After the stacks of other guests, the next stack fits exactly when the pool can supply its four frames and the missing tables, and nothing else can explain a panic. |
| `HostStacks.AllocStacks` | src/hypervisor.rs:16-26 | For any distinct guests over a space that maps none of their stack pages, exactly the longest prefix of stacks is allocated whose four frames each and missing tables the pool can supply; the only panic is an empty pool; exactly the stacks' pages are added, with V, R and W, the other entries stay as they were, and guard pages stay unmapped. |
| `VirtualTimer.EveryTimerRun` | src/guest/vmexit.rs:198-207 | In every run from `init_vmm` the guest's tick is pending exactly while the host's timer is masked, never early, ticks exceed set-timer calls by at most one, and a due tick that is not pending can be delivered. |
| `VirtualTimer.TickStaysPending` | src/guest/sbi.rs:85-121 | An injected tick stays pending, and no second one is taken, until the next set-timer call. |
| `VirtualTimer.OneTickPerDeadline` | src/guest/vmexit.rs:198-207 | Between two set-timer calls the guest is interrupted at most once, and exactly once iff a tick is pending at the end. |
| `VirtualPlic.ClaimAddressDecodes` | src/guest/vmexit.rs:114-119 | The register that `handle_irq` claims from decodes, in `handle_plic_access`, to the same context's slot. |
| `VirtualPlic.DecodesToClaim` | src/device_emu/plic.rs:33-52 | Exactly the four bytes of that register decode to it. |
| `VirtualPlic.CoherentIffDisciplined` | src/device_emu/plic.rs:53-73 | One event keeps guest and hardware coherent (pending bit iff slot taken, outstanding claims exactly the slot, claims minus completions 0 or 1) exactly when a claim goes into a free slot and is not spurious and the guest completes what it was given on its own context. |
| `VirtualPlic.EveryPlicRun` | src/guest/vmexit.rs:109-126 | Every state of a run is coherent exactly when every event of it is disciplined. |
| `VirtualPlic.OwedIsSlot` | src/guest/vmexit.rs:109-126 | Whether a run is disciplined can be read off its events alone, by the one completion that the guest owes, which is always the slot. |
| `VirtualPlic.LostClaimStaysLost` | src/guest/vmexit.rs:119 | A claim that is no longer in the slot is never completed, and its source never raised again, by a guest that completes what it reads. |
| `VirtualPlic.SecondTrapLosesFirst` | src/guest/vmexit.rs:109-126 | Two devices and a well-behaved guest lose an interrupt: the second trap overwrites the slot. |
| `TrapHandlers.HostVmm.constructor` | src/hypervisor.rs:188-260 | After `init_vmm` no interrupt is pending for the guest, all 32 slots are empty, the counters are zero and the host's timer is enabled. |
| `TrapHandlers.HostVmm.SbiVsHandler` | src/guest/sbi.rs:34-52 | Which calls are served, by the numbers in a7 and a6; exactly the legacy call and function 0 of TIME set the deadline to a0, clear the guest's pending tick and enable the host's timer, and every other call leaves these three as they were; what each call answers in a0 and a1, with no other register changed. |
| `TrapHandlers.HostVmm.HandleIrq` | src/guest/vmexit.rs:109-126 | One step of the virtual PLIC: the hardware's claim goes into slot 2 * guest + 1, the other slots stay, and the guest's interrupt becomes pending. |
| `TrapHandlers.HostVmm.HandlePlicAccess` | src/device_emu/plic.rs:33-81 | Every access is one event of the virtual PLIC, decided by address and instruction: which register is loaded from which slot, which slot is emptied, which value completes, and which accesses are refused and how. |
| `TrapHandlers.CompletesAt` | src/device_emu/plic.rs:53-73 | Only a store into the four bytes of the guest's own claim register, given by its address, completes on its context, with the low word of the stored register, and only a load from there reads its slot. |
| `TrapHandlers.ClaimThenComplete` | src/device_emu/plic.rs:53-73 | Loading the claim register of any context, given by its address, and storing back what was read, in any register that is saved, completes exactly the source in that context's slot and empties it. |
| `TrapHandlers.FaultServed` | src/guest/vmexit.rs:61-104 | In terms of addresses: a fault is served exactly in the PLIC's window on a context's registers, from an instruction that could be fetched and decoded, where the threshold is only written and the claim register only loaded or stored. |
| `TrapHandlers.HostVmm.GuestPageFaultHandler` | src/guest/vmexit.rs:61-104 | The result, in the order of the handler's tests; only a served access moves the guest on, by the instruction's length, and a refused one changes no register and no slot. |
| `TrapHandlers.HostVmm.HandleTrap` | src/guest/vmexit.rs:148-216 | Each trap is one step of the virtual timer and one of the virtual PLIC, decided by the cause, with the counters, the result and the address at which the guest resumes. A timer trap makes the guest's tick pending and masks the host's timer, the two set-timer calls undo both and set the deadline to a0, and no other trap touches them. |
| `TrapHandlers.Serve` | src/guest/vmexit.rs:148-216 | Over any happenings that hardware can bring about (waits, device interrupts, traps) from `init_vmm`, they are handled in order up to the first that panics, with that result, and the code's state is exactly where the two machines are after them; so their invariants hold in every reachable state, and guest and hardware agree on the claims throughout exactly when the happenings are orderly. |

## Left out

- Assembly and context switching (src/guest/trap.S, src/guest/guest.S, `hart_entry_2`, `switch_to_guest`): straight-line saves and loads.
- Device-tree parsing, the ELF loading of `new_guest`, and instruction decoding: foreign libraries; machine descriptions and decoded instructions are inputs.
- `new_host_vmm`, `map_guest` and `map_gpm`: further pushes of linear areas, which would only add easy members.
- `token`, `from_token`, `hpa2gpa`, console, SBI wrappers, heap, `detect`, IOMMU and CSR constants: thin wrappers or register layouts.
- TLB, fences, locking and concurrency between harts: the hypervisor is sequential.
- Cloned trackers, areas and tables: trackers are linear here, as a clone would return its frame twice.
- The R, W and X checks and the A and D bits of the architecture's walk: they depend on the access; `WalkTheory.SpecWalk` leaves them out.
- First-stage modes other than bare and Sv39, and guests other than guest 0, the only one that is ever created: the hardware model is a hart with Sv39.
- The contents of the PLIC's threshold register, and whether a source is enabled for another context, which is a parameter.
- Physical memory has no bounds and unwritten words read as zero; the frame allocator's ghost lower bound is not in the source.
- The overflow of `gpa2hpa` and of `sepc` near 2^64.
- Trap-context slots x0 and x4: an emulated load can write slot x0, and x4 is never saved; both are plain slots here.
- MapAreas.MapArea.Map: requires vpnEnd <= 2^27, which the address mask gives for all areas but those whose `VirtAddr` is built without the mask; beyond it page numbers alias.
- MapAreas.MapArea.UnmapOne: requires page numbers below 2^27, for the same reason.
- MapAreas.MapArea.Unmap: requires page numbers below 2^27, for the same reason.
- MapAreas.MapArea.CopyData: requires the data to fit into a non-empty mapped area, as all callers see to; the loop has no bound of its own.
- MemorySets.MemorySet.Push: requires a fresh area with vpnEnd <= 2^27 and data that fits into it.
- MemorySets.MemorySet.InsertFramedArea: requires an end below 2^39, as every masked `VirtAddr` is.
- TwoStage.SoftwareMeetsHardware: requires a second stage that maps onto itself every page it accepts, as each guest's does.
- TwoStage.BareMeetsHardware: says nothing of the software forms in bare mode with a root that is not zero, which the architecture reserves.
- SetRuns.Perform: covers areas below 2^27, data that fits into its area, no copy into an area that was unmapped, and no second unmap of an area over pages that others have mapped since; says nothing of a set after a panic, which ends the hypervisor.
- SetRuns.Run: as SetRuns.Perform.
- SetLives.RunBeside: as SetRuns.Perform.
- SetLives.Lifecycle: as SetRuns.Perform.
- GuestSpaces.NewGuestWithoutLoad: requires guest memory to end at or below 2^39, where its unmasked page numbers do not alias.
- GuestTheory.GuestPagesExactly: requires every region to end below 2^39, as do the other theorems about the guest's pages; above, the masks move the regions.
- HostStacks.AllocStacks: requires stacks, with a guard page below, inside the 39-bit space.
- TrapHandlers.HostVmm.constructor: requires the guest's PLIC context to exist and its claim register to have an address, as the handler's indexing and addition do.
- TrapHandlers.HostVmm.HandleTrap: a timer trap requires an enabled timer whose deadline has passed, and an external one a claim that the hardware offers, which is when hardware takes one.
- TrapHandlers.Serve: requires happenings that hardware can bring about, in the sense of `TrapHandlers.Possible`.
