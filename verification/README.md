# Memory manager and process table of ucore, in Dafny

ucore is a small teaching kernel. This project models its memory manager and its process table and proves what they are
for. The kernel runs these functions with interrupts disabled, so each is one sequential step. The model follows the C
code in its own form: objects that are updated in place are classes, loops are loops with invariants, and each method is
proved against a specification on values whose properties are then proved for all inputs.

| file | what it models |
|---|---|
| RbTree.dfy | the intrusive red-black tree with its `nil` and `root` sentinels: rotations, insertion, deletion, search |
| AreaLists.dfy | lists of virtual memory areas as partial maps from addresses to flags and to bytes of shared memory objects |
| MemoryMaps.dfy | `mm_struct`: sorted list, optional tree and one-entry cache of areas; map, unmap, resize, lookup |
| PageState.dfy | page table entries, reference counts, shared memory entries and a TLB; the invariant of every step |
| AreaPages.dfy | what a list of areas says of each page of an address space, and that map, unmap and fork keep it so |
| PageTables.dfy | the page table operations, page faults, copy-on-write and fork on that state |
| AddressSpaces.dfy | runs of loads, stores, maps, unmaps, forks and exits in any number of address spaces |
| Dyadic.dfy, BuddyBlocks.dfy | aligned blocks of 2^o pages and the canonical form of the free blocks |
| BuddyAllocator.dfy | the buddy allocator on its free lists |
| SlabLayout.dfy, SlabState.dfy, SlabAllocator.dfy | the slab allocator on top of the buddy allocator |
| SharedMemory.dfy | the chunk list of a shared memory object |
| ProcessTable.dfy, Scheduler.dfy | pids, the pid hash, and the round-robin scheduler |
| Numerals.dfy | printing numbers and reading them back |
| Units.dfy, Options.dfy, Lists.dfy, Arithmetic.dfy | page size and word size, options, lists without repetitions, products and quotients |

How the main results are stated:

- **Copy-on-write refines eager copy.** `View` is memory in which every private page has contents of its own.
  `AddressSpaces.Next` is one step of the machine whose fork copies every page at once, as the ARM port's `copy_range`
  does. `System.Execute` shows that every run of the copy-on-write kernel is a run of that machine. It rests on the
  invariant `PageState.Inv`: a count is the number of entries that name the page, and a private page with a writable entry
  has one user. A load or store fails exactly if it is forbidden or `Starved`: a page is absent and the pages it wants (a
  page table, the page, the entry array of a chunk) are not free, or it must be copied and no page is free. A map or unmap
  fails exactly if its range is refused or there is no room, and a fork that stops names what it ran out of.
- **Shared memory.** The kernel reads areas with start, end, object and offset. `AreaPages.Denotes` ties each list of areas
  to the map from pages to rights in which page v of a mapping shows page v - lo of its object for good; map, unmap and fork
  keep it (`MapDenotes`, `UnmapDenotes`, `SuffixDenotes`), so a fault that computes `addr - vm_start + shmem_off` after any
  number of trims and forks finds that page. `Execute` states this, and `shmem_ref` as a sum over all address spaces, at
  every moment of every run.
- **Red-black trees.** The tree is an arena of cells addressed by `Ref`; a ghost zipper says where in the tree a loop
  stands. Results are about the in-order sequence of node identities.
- **Areas.** List, tree and cache denote one sequence of areas, `Mm.View()`; every operation is stated on it.
- **Buddy blocks.** The listed blocks are exactly the maximal aligned blocks of free pages, hence a function of the set of
  free pages.
- **Slabs.** `SlabState.Inv` ties every chain, list, page mark and control block together and records what each allocated
  object is for. `Slabs.Session` runs any sequence of requests; `Safe` holds at each of its moments, over the ranges that
  callers asked for.

Where the code does not have a property that one would expect, the exact condition is proved:

- Splitting a `VM_SHARE` area loses the object behind the lower part; every address keeps its object if and only if no
  shared area is split (`MemoryMaps.UnmapKeepsBacking`, `LostBelow`). The lower part then has no object, and `vma_destroy`
  and `do_pgfault` would dereference a null pointer (`SplitThenDestroy`, `NullObjectRun`); `MmUnmap` and `MmDestroy` require
  objects where they dereference them, and `Execute` stops before such a split.
- `exit_mmap` frees only the page tables under areas that still exist. All pages, those of shared memory included, are
  free again after the last exit if and only if each page table still lies under an area
  (`AddressSpaces.System.ExitLast`, `LeakExample`).
- `buddy_free_pages` asserts on its order counter; the assertion holds exactly for `BuddyAllocator.Freeable` ranges
  (`AssertionHolds`, `AssertionFails`).
- The chunk of a shared memory object for the last 4 MB of the 32-bit range has an end that wraps to 0, so it covers
  nothing, and the next insertion fails its overlap check (`SharedMemory.FreshCovers`, `WrappedChunk`, `Shmem.GetEntry`).
- A number printed with padding between its sign or prefix and its digits, or padded with dashes, does not parse back
  (`Numerals.SignedRoundTrip`, `PointerRoundTrip`).
- `strtol` is described as accepting the prefix "0X"; the code accepts only "0x" (`Numerals.CapitalPrefix`).

Demand-allocated pages are not cleared by the kernel, so their first contents are arbitrary in the model. Addresses and
`addr + len` are 32-bit sums; results about ranges are stated over the pages that `[addr, addr + len)` touches
(`AreaLists.Touches`), which `RoundedRange` ties to the computed `start` and `end`. Whether `kmalloc` finds room for a small
structure is a parameter of each operation, so that every failure is exact; only whether `rb_tree_create` succeeds inside
an operation that inserts several areas is left open, and `InsertVma` is exact about it.

## Model

| member | source | states |
|---|---|---|
| RbTree.RotatedInOrder | lib/rb_tree.c:79-101 | A rotation, in either direction, leaves the in-order sequence of nodes as it was |
| RbTree.RbTree.Rotate | lib/rb_tree.c:79-101 | On linked cells: parent links, child links and sentinels stay well formed and the tree below the hole is exactly the rotated one |
| RbTree.RbTree.InsertBinary | lib/rb_tree.c:113-130 | The node becomes a red leaf at the one place where every node before it is not greater and every node after it is greater |
| RbTree.RecolourKeeps | lib/rb_tree.c:143-148 | Red uncle: after recolouring, the only possible violation has moved up two levels and the order is unchanged |
| RbTree.StraightenKeeps | lib/rb_tree.c:150-153 | Inner grandchild: the first rotation keeps order and invariant and makes it an outer one |
| RbTree.InsertRotateKeeps | lib/rb_tree.c:154-156 | Black uncle: one rotation removes the violation and gives a red-black tree of the same order |
| RbTree.RbTree.Insert | lib/rb_tree.c:133-172 | For every valid tree: all red-black and link invariants hold again, the loop ends, and the node stands after every node not greater than it, the others keeping their order (stable for duplicates) |
| RbTree.Case1Keeps | lib/rb_tree.c:253-258 | Red sibling: same order, one black node still missing at the same place, and the new sibling is black |
| RbTree.Case2Keeps | lib/rb_tree.c:259-262 | Black sibling with black children: the missing black node moves up one level, order unchanged |
| RbTree.Case3Keeps | lib/rb_tree.c:264-269 | Only the near child of the sibling is red: after the rotation the far child is red, order and debt unchanged |
| RbTree.Case4Keeps | lib/rb_tree.c:270-274 | Far child red: one rotation pays the missing black node and gives a red-black tree of the same order |
| RbTree.FixedTop | lib/rb_tree.c:248-277 | The locally captured root may have gone stale after the last rotation, but it is then a black node, so leaving the loop through it and painting it black is harmless |
| RbTree.RbTree.DeleteFixup | lib/rb_tree.c:246-289 | From any tree that is one black node short at x, the loop ends in a valid tree with the same in-order sequence, nil still black |
| RbTree.ReplaceOrder | lib/rb_tree.c:296-328 | Moving the successor into the place of a node with two children removes exactly that node from the in-order sequence |
| RbTree.RbTree.Delete | lib/rb_tree.c:291-328 | For every valid tree and every node of it: a valid tree again, whose in-order sequence is the old one without exactly that node |
| RbTree.RbTree.Successor | lib/rb_tree.c:174-199 | The next node of the in-order sequence, nil at its end |
| RbTree.RbTree.Predecessor | lib/rb_tree.c:201-225 | The previous node of the in-order sequence, nil at its start |
| RbTree.RbTree.Prev | lib/rb_tree.c:338-346 | The in-order predecessor of any node of the tree, nil for none |
| RbTree.RbTree.Next | lib/rb_tree.c:348-356 | The in-order successor of any node of the tree, nil for none |
| RbTree.HeightBound | lib/rb_tree.c:379-405 | The invariant that check_tree tests bounds the height h of n nodes by 2^h <= (n + 1)^2 |
| RbTree.RbTree.Search | lib/rb_tree.c:227-240 | Finds a node with the key if and only if there is one, and of several the highest: all of them lie in the subtree of the one returned; the number of steps is the depth reached and is bounded by 2 * log2(n + 1) |
| AreaLists.CutErases | kern/mm/vmm.c:346-380 | Cutting a range out of any list of areas erases exactly the addresses of the range from the map of addresses to flags |
| AreaLists.CutKeepsBacking | kern/mm/vmm.c:310-318 | Trimmed areas keep, for every address left, the same byte of the same shared memory object |
| AreaLists.CutMiddle | kern/mm/vmm.c:345-380 | Of the areas that touch the range, only the first can keep a part below it and only the last a part above |
| AreaLists.NamingCut | kern/mm/vmm.c:345-381 | Unless a shared area is split, the areas that remain and the areas destroyed together name every object as often as the areas before |
| AreaPages.FoundPage | kern/mm/vmm.c:1062-1067 | What find_vma answers for any address of a page decides whether the page lies in an area, and in which |
| AreaPages.MapDenotes | kern/mm/vmm.c:257-308 | mm_map and mm_map_shmem on the list of areas add exactly the pages of the range; page v of a shared area shows page v - lo of the object |
| AreaPages.NewAreaMaps | kern/mm/vmm.c:257-308 | Page by page: mapped pages are readable if the flags say read or execute, writable if they say write, and private or page v - lo of the object; no other page notices |
| AreaPages.UnmapDenotes | kern/mm/vmm.c:310-381 | Trimming, splitting and removing areas erases exactly the pages of the range; every other page keeps its rights, its object and its page of that object although start and shmem_off of its area have moved |
| AreaPages.EntryInObject | kern/mm/shmem.c:139-141 | Every page of an area that was mapped, trimmed or copied lies below shmem->len, so the assertion of shmem_get_entry holds |
| AreaPages.ShmemRange | kern/mm/vmm.c:288-298 | The 32-bit range of mm_map_shmem is that of the object's pages whenever it is accepted, and it is accepted exactly if those pages are user pages |
| AreaLists.CutBounded | kern/mm/vmm.c:310-318 | Since the offset moves with the start, no trim or split makes an area reach beyond its object |
| AreaLists.RoundedRange | kern/mm/vmm.c:257-263 | The 32-bit rounding of mm_map and mm_unmap accepts a range exactly if it starts in user space, its 32-bit end lies above the start of its first page and not above user space; [start, end) then is exactly the pages that the range touches |
| AreaLists.Rounded | kern/mm/vmm.c:260-260 | ROUNDDOWN gives the page at or below; ROUNDUP the page at or above, and 0 for addresses in the last page |
| AreaLists.WithNewlyMapped | kern/mm/vmm.c:273-304 | A new area gives exactly its pages its flags and, if it has an object, the object from its start on; every other address keeps flags, object and offset |
| MemoryMaps.Mm.FindVmaRb | kern/mm/vmm.c:85-105 | The tree walk returns the first area whose end exceeds the address |
| MemoryMaps.Mm.FindVmaList | kern/mm/vmm.c:117-129 | The list scan returns the first area whose end exceeds the address |
| MemoryMaps.Mm.FindVma | kern/mm/vmm.c:107-137 | The first area whose end exceeds the address, whether the cache, the tree or the list answers; nothing but the cache changes |
| MemoryMaps.Mm.InsertVmaRb | kern/mm/vmm.c:156-165 | The tree holds the new area at its place and the area returned is the one just before it |
| MemoryMaps.Mm.BuildTree | kern/mm/vmm.c:199-214 | With memory for its sentinels, the tree built from the list holds exactly the areas of the list, in its order |
| MemoryMaps.Mm.InsertVma | kern/mm/vmm.c:167-217 | The list stays sorted and disjoint with the area at its place, the count and the tree agree with it, and no overlap check fires; a tree comes into being exactly if there was none, 32 areas are reached and kmalloc has room for it |
| MemoryMaps.Mm.RemoveVma | kern/mm/vmm.c:219-232 | List, tree and count lose exactly that area, and the cache forgets it |
| MemoryMaps.Mm.MmMap | kern/mm/vmm.c:257-286 | Refused exactly if the 32-bit range leaves user space or one of the pages it touches is taken; without room for the area nothing changes; otherwise exactly the pages touched get the flags, without VM_SHARE and without object, by one new area at its place |
| MemoryMaps.Mm.MmMapShmem | kern/mm/vmm.c:288-308 | Refused exactly if the address is not aligned, there is no object, or mm_map would refuse the range; without room nothing changes; otherwise exactly the pages touched get the flags with VM_SHARE, address a shows byte a - addr of the object, and the object has one reference more |
| MemoryMaps.Mm.SplitVma | kern/mm/vmm.c:334-342 | The area keeps the part above the range and a new area, without object, takes the part below; the key of the area is changed inside the tree and the tree stays ordered; exactly without room it fails and nothing changes |
| MemoryMaps.Mm.MmUnmap | kern/mm/vmm.c:320-381 | On any well formed mm whose destroyed areas have their objects: refused exactly if the 32-bit range leaves user space, out of memory exactly if an area must be split and there is no room, and then nothing changes; otherwise exactly the pages touched lose their flags and their page table entries, every other address keeps its flags and its entry; list, tree, cache, count and reference counts stay consistent; all VM_SHARE areas still have objects if and only if no shared area was split |
| MemoryMaps.UnmapErases | kern/mm/vmm.c:320-381 | What mm_unmap leaves maps every address outside [start, end) to its old flags and no address inside to any |
| MemoryMaps.UnmapKeepsBacking | kern/mm/vmm.c:334-343 | Every address left keeps its object and offset if and only if the range does not lie strictly inside one shared area |
| MemoryMaps.LostBelow | kern/mm/vmm.c:334-343 | If it does, no address of the part below is backed by an object any more |
| MemoryMaps.SplitThenDestroy | kern/mm/vmm.c:75-83 | After such a split the area below is VM_SHARE without object, so unmapping it, or destroying the mm, would dereference a null object |
| MemoryMaps.NullObjectRun | kern/mm/vmm.c:334-343 | Such a run: an object of three pages is mapped and its middle page unmapped |
| MemoryMaps.MapDenoted | kern/mm/vmm.c:257-308 | The areas of the mm, list, tree or cache, give every page its rights and its page of the object after mm_map and mm_map_shmem |
| MemoryMaps.UnmapDenoted | kern/mm/vmm.c:320-381 | After mm_unmap they denote the old pages without the range if and only if no shared area was split |
| MemoryMaps.Mm.DupAreas | kern/mm/vmm.c:383-408 | The new list is the old one, or exactly as many of its last areas as there was room for, and every object has one reference per area naming it |
| MemoryMaps.Mm.MmDestroy | kern/mm/vmm.c:234-246 | On an mm whose VM_SHARE areas have objects: afterwards the references of every object are those held by other address spaces |
| MemoryMaps.Mm.GetUnmappedArea | kern/mm/vmm.c:425-445 | The greatest start at which len bytes fit in user space without touching an area, and 0 exactly if there is none |
| MemoryMaps.UserMemCheck | kern/mm/vmm.c:447-472 | True exactly if the range is in user space and every byte lies in an area with the permission and, for stack writes, a page above its start; without an mm, exactly if the range is the kernel's |
| PageState.RemoveKeeps | arch/x86/pmm.c:379-392 | Dropping an entry keeps the invariant: every count is the number of entries naming the page, and the page is freed exactly when that reaches zero |
| PageState.StepsCommute | kern/mm/vmm.c:357-379 | Any two steps of taking away a user entry, an entry of an object or its array may be exchanged, also when they meet in one page |
| PageState.AnyOrder | kern/mm/vmm.c:357-379 | Whatever the order in which a set of such steps is taken, the state reached is the same: areas may be destroyed before or after their pages are unmapped |
| PageState.PathTakes | kern/mm/vmm.c:357-379 | The steps that lead from one state to another are exactly the entries and arrays that are gone |
| PageState.LinkKeeps | arch/x86/pmm.c:411-430 | Adding an entry for a fresh page, or a read-only one for a private page that is already read-only everywhere, keeps the invariant |
| PageState.WriteView | arch/x86/pmm.c:489-527 | A store through a writable entry changes one private address, or one page of one shared object, in the eager view and nothing else: a writable private page has one user |
| PageState.CountIsUse | arch/x86/pmm.c:379-430 | In every state: a page's count is the number of user entries plus shared memory entries naming it, and a mapped page is never free |
| PageTables.FreeIsRest | arch/x86/pmm.c:379-392 | Between operations a page is free exactly if no entry, no shared object and no page table names it |
| PageTables.Kernel.GetPte | arch/x86/pmm.c:343-364 | Makes sure a page table covers the address, allocating one page exactly if there is none and changing nothing else; fails exactly if it needs a page and none is free |
| PageTables.Kernel.PageRemovePte | arch/x86/pmm.c:379-392 | Keeps the invariant; the address, and no other, loses its contents in the eager view |
| PageTables.Kernel.PageInsert | arch/x86/pmm.c:403-430 | Keeps the invariant; the address reads the page's contents, no other address changes; fails exactly if the page table is missing and no page is free |
| PageTables.Kernel.PgdirAllocPage | arch/x86/pmm.c:441-453 | A fresh page at the address; it fails exactly if fewer pages are free than the page and its page table need |
| PageTables.Kernel.UnmapRange | arch/x86/pmm.c:455-471 | Exactly the present entries of the range are dropped, missing page tables being skipped |
| PageTables.Kernel.ExitRange | arch/x86/pmm.c:473-487 | Exactly the page tables that overlap the range are freed |
| PageTables.Kernel.CopyRange | arch/x86/pmm.c:489-527 | Sharing read-only, or copying at once as the ARM port does, the child reads what the parent reads over the range, and nobody else's view changes; it stops early only at a page whose table or copy finds no page free; sharing writes to no page |
| PageTables.Kernel.CopyPage | arch/x86/pmm.c:489-527 | The copy-on-write copy of one page: both entries name the same page, read-only if it is private; fails exactly if the page table is missing and no page is free |
| PageTables.Kernel.CopyPageEagerly | arch/arm/pmm.c:402-444 | The eager copy of one page, the specification of fork: a shared page is entered again, a private one copied to a fresh page; fails exactly if the pages it needs are not free |
| PageTables.Kernel.DupMmap | kern/mm/vmm.c:383-408 | On success the child's areas, offsets and contents are those of the parent; after a failure it has the last of them and nobody else differs, and there was no room for the next area or no page for the next page table or copy; every object gains one reference per area copied |
| PageTables.SuffixDenotes | kern/mm/vmm.c:383-408 | The copied list says of the child's pages what the parent's list says of the parent's, from the first copied area on |
| PageTables.Kernel.ShmemGetEntry | kern/mm/shmem.c:139-164 | An entry gets a page of its own at most once and keeps it; the assertion at its head is discharged on every path; it fails exactly if the entry is missing and its page, its chunk or the room for the chunk is |
| PageTables.Kernel.ShmnDestroy | kern/mm/shmem.c:41-75 | The pages of a chunk that no area maps, and its entry array, are freed and nothing else |
| PageTables.Kernel.ShmemDestroy | kern/mm/shmem.c:129-137 | All chunks and pages of an object that no area maps are freed; page tables, user entries, contents and every other object stay |
| PageTables.Kernel.FaultShared | kern/mm/vmm.c:1101-1117 | The entry names the object's page for addr - vm_start + shmem_off, computed from the area, with the area's permission; it fails exactly if the entry is missing and there are too few free pages or no room for a chunk |
| PageTables.Kernel.FaultCow | kern/mm/vmm.c:1119-1161 | Copy-on-write: the address becomes writable and no address reads anything new; a page that only this entry names is upgraded in place, any other is copied to a fresh page; it fails exactly if no page is free and another entry names the page |
| PageTables.Kernel.DoPgfault | kern/mm/vmm.c:1059-1166 | Succeeds exactly if the area allows the access and memory is not short for it, after which the entry allows it; what was present reads as before; a write to a present private page with one user never fails; the assertion in it never fires |
| PageTables.Kernel.Translate | arch/x86/pmm.c:432-439 | A cached translation always equals the page table entry: tlb_invalidate is called wherever it is needed |
| PageTables.Kernel.Load | arch/x86/generic/intr.c:211-215 | A load returns the byte of the eager view, an absent page having been brought in first; it fails exactly if the page is absent and the access is forbidden or memory is short for it |
| PageTables.Kernel.Store | arch/x86/generic/intr.c:211-215 | A store changes that byte of the eager view, of one address or of one page of a shared object, and nothing else; it fails exactly if it is forbidden, or the page is absent or has other users and memory is short for it |
| AddressSpaces.System.MmMap | kern/mm/vmm.c:257-286 | Succeeds exactly if there is room and the pages are free user pages; then exactly those pages have the rights that the flags say, by one new area at its place |
| AddressSpaces.System.MmMapShmem | kern/mm/vmm.c:288-308 | Refused if there is no such object; otherwise mm_map of as many pages as the object has, page v of the area showing page v - lo of the object, and one reference more |
| AddressSpaces.System.MmUnmap | kern/mm/vmm.c:320-381 | Succeeds exactly for a user range whose split, if any, finds room; the areas and contents of the range are gone, all others remain, and exactly the objects that no area names any more are gone with their pages; the outcome is the same in whatever order the pages are unmapped and the objects destroyed |
| AddressSpaces.System.VmaDestroy | kern/mm/vmm.c:75-83 | One reference less; the object, its chunks, its pages and its length go exactly with the last area that names it |
| AddressSpaces.NamedIsAttached | kern/mm/vmm.c:75-83 | In any number of address spaces: some area names an object exactly if some page shows it |
| AddressSpaces.System.Fork | kern/mm/vmm.c:383-408 | A successful fork is the eager fork; one that stops found no room for the next area or no page for the next page table or copy |
| AddressSpaces.System.Exit | kern/mm/vmm.c:410-423 | Nothing of the address space is left, nobody else notices, exactly the page tables under a remaining area are freed, and exactly the objects that no other area names are gone |
| AddressSpaces.System.ExitLast | kern/mm/vmm.c:410-423 | When the only address space with areas exits, shared memory included, every page is free if and only if each page table was its own and still lay under an area |
| AddressSpaces.System.UnmapThenExit | kern/mm/vmm.c:410-423 | A page table whose last areas were unmapped before the exit is never freed |
| AddressSpaces.LeakExample | kern/mm/vmm.c:410-423 | The leak on a concrete run, for any memory of at least two pages: map, store, unmap, exit leaves a page that nothing can free |
| AddressSpaces.System.Execute | kern/mm/vmm.c:1059-1166 | Every run of creations, loads, stores, maps, unmaps, forks, exits and switches, in any number of address spaces, up to the first split of a shared area, is a run of the machine whose fork copies every page at once; loads, stores, maps and unmaps fail exactly if that machine says so, and a fork that stops has its reason; at each of its moments shared pages, object lengths, shmem_ref, page counts and free pages are exact |
| AddressSpaces.SharedPages | kern/mm/vmm.c:1101-1117 | In every address space a present entry of a VM_SHARE area names the object's page for addr - vm_start + shmem_off |
| AddressSpaces.BoundedPages | kern/mm/shmem.c:139-141 | In every address space no page of a VM_SHARE area lies beyond the end of its object |
| AddressSpaces.CountedPages | arch/x86/pmm.c:379-487 | Between operations a page is free exactly if nothing names it, and its count is the number of user entries and shared memory entries that do |
| Dyadic.BuddyByXor | kern/mm/buddy_pmm.c:176-178 | page_idx ^ (1 << order) is the index of the other half of the parent block |
| Dyadic.ParentByAnd | kern/mm/buddy_pmm.c:185-186 | page_idx & buddy_idx is the index of the parent block |
| BuddyBlocks.AddCanonical | kern/mm/buddy_pmm.c:188-193 | Adding a block that cannot be merged keeps the canonical form: the listed blocks are exactly the maximal aligned free blocks |
| BuddyBlocks.RemoveCanonical | kern/mm/buddy_pmm.c:103-108 | Taking a whole listed block keeps the canonical form |
| BuddyBlocks.CanonicalIsUnique | kern/mm/buddy_pmm.c:166-194 | The free blocks are a function of the set of free pages |
| BuddyBlocks.NoFreeBuddies | kern/mm/buddy_pmm.c:166-194 | No two buddies of one order below MAX_ORDER are both free |
| BuddyAllocator.Allocator.InitMemmap | kern/mm/buddy_pmm.c:58-83 | All pages of the new zone are free, in canonical form |
| BuddyAllocator.GetOrder | kern/mm/buddy_pmm.c:85-95 | The least order whose blocks hold n pages |
| BuddyAllocator.Allocator.AllocSub | kern/mm/buddy_pmm.c:97-124 | One aligned block of the order leaves the free pages: the lowest part of the first listed block of the least order that is large enough; NULL exactly when no aligned block of that order is wholly free |
| BuddyAllocator.Allocator.AllocPages | kern/mm/buddy_pmm.c:126-136 | Exactly n contiguous free pages are taken, from a multiple of the least power of two that holds n and out of a smallest free block that is large enough; NULL exactly if no such aligned block is wholly free |
| BuddyAllocator.Allocator.FreeSub | kern/mm/buddy_pmm.c:164-194 | Exactly the pages of the block become free, the result is in canonical form, and the block they have merged into comes first on its list |
| BuddyAllocator.Allocator.FreePages | kern/mm/buddy_pmm.c:196-225 | Exactly the n pages become free, in canonical form, and no assertion fires |
| BuddyAllocator.AssertionHolds | kern/mm/buddy_pmm.c:203-213 | The assertion on the order in buddy_free_pages holds exactly for ranges that end less than 2048 pages after the next multiple of 2048, which includes every range below 2048 pages |
| BuddyAllocator.AssertionFails | kern/mm/buddy_pmm.c:203-213 | It fails for 2048 pages from an aligned index |
| BuddyAllocator.Allocator.AllocThenFree | kern/mm/buddy_pmm.c:126-225 | Allocating and freeing again restores the same blocks at every order |
| BuddyAllocator.Allocator.NrFreePages | kern/mm/buddy_pmm.c:227-235 | The number reported is the number of free pages |
| SlabLayout.CacheEstimate | kern/mm/slab.c:160-185 | The largest number of objects that fits with its control block, and the bytes left over |
| SlabLayout.CalculateSlabOrder | kern/mm/slab.c:187-219 | For each of the 13 sizes neither panic is reached; on-slab caches use one page, off-slab ones whole objects and nothing left over |
| SlabLayout.GetOrder | kern/mm/slab.c:221-231 | The least order from 32 bytes up that holds n bytes |
| SlabLayout.InitKmemCache | kern/mm/slab.c:233-261 | For all 13 caches objects and control block fit the slab without overlap, and the control cache of an off-slab cache is on-slab and large enough |
| SlabState.PoppedInv | kern/mm/slab.c:347-359 | Taking an object keeps every chain exact: each unallocated index once, ending in BUFCTL_END; a slab moves to the full list exactly when its last object goes |
| SlabState.AddedInv | kern/mm/slab.c:304-345 | A new slab's chain visits every index, its pages are marked with it alone, and its control block is an object of the control cache or its own first bytes |
| SlabState.PushedInv | kern/mm/slab.c:422-440 | Giving back an object keeps every chain exact, and a full slab returns to the other list |
| SlabState.GoneInv | kern/mm/slab.c:402-440 | With its last object a slab leaves its list and its pages, and its control block is the only thing left to free |
| SlabState.Served | kern/mm/slab.c:422-440 | Between calls every slab holds an object of a caller, or controls a slab that does |
| SlabState.AllFreed | kern/mm/slab.c:422-440 | When no object is allocated no slab is left on any list or page |
| SlabState.ObjectsApart | kern/mm/slab.c:347-359 | Allocated objects, callers' and control blocks, never overlap |
| SlabState.ControlApart | kern/mm/slab.c:268-286 | No object overlaps a slab's own control block |
| SlabAllocator.FillBufctl | kern/mm/slab.c:327-331 | The chain of a new slab |
| SlabAllocator.MarkPages | kern/mm/slab.c:317-325 | Every page of the slab, and no other, is marked with it |
| SlabAllocator.ClearPages | kern/mm/slab.c:406-412 | Every page of the slab was marked, and none is afterwards |
| SlabAllocator.FindObject | kern/mm/slab.c:422-427 | From an object's address the page marks and the division find its slab and its index again |
| SlabAllocator.HeldApart | kern/mm/slab.c:387-397 | The bytes a caller asked for overlap no other allocated object, whether a caller's or the control block of an off-slab slab |
| SlabAllocator.HeldClear | kern/mm/slab.c:268-286 | Nor the control block that any slab keeps in its own pages |
| SlabAllocator.LedgerSafe | kern/mm/slab.c:304-468 | In every state between calls the ranges that callers asked for are pairwise disjoint and clear of every control block |
| SlabAllocator.Slabs.AllocOne | kern/mm/slab.c:347-359 | The object was not allocated, is the first of the slab's free chain, and the address returned is its own |
| SlabAllocator.Slabs.KmemCacheAlloc | kern/mm/slab.c:361-385 | The first free object of the first slab that has one, and then no page is taken and no slab is new; otherwise the first object of a new slab; the slab leaves its list exactly if it is now full; all other objects stay; NULL exactly if every slab of the cache is full and it cannot grow, and then nothing has changed; a slab is new only in a cache whose slabs were all full, and at most one in each |
| SlabAllocator.Slabs.Grow | kern/mm/slab.c:302-345 | A new empty slab at the front of the list, or nothing changed and the pages given back; of a cache whose slabs are all full it fails exactly if no aligned block is free, or the control block needs a page and none would be left |
| SlabAllocator.Slabs.KmemCacheFree | kern/mm/slab.c:422-462 | The object is free and the first of its slab's chain, a slab that was full comes first on its list, every other caller's object stays where it is, and an emptied slab and its control block are returned |
| SlabAllocator.Slabs.SlabDestroy | kern/mm/slab.c:401-419 | The slab's pages go back to the buddy allocator and its control block to its cache |
| SlabAllocator.Slabs.Kmalloc | kern/mm/slab.c:387-397 | A pointer to a new object of the smallest suitable cache, at least as large as asked, from a slab with free objects if the cache has one; everything held keeps its address and its size; NULL exactly if every slab of that cache is full and it cannot grow |
| SlabAllocator.Slabs.Kfree | kern/mm/slab.c:464-468 | Exactly that object is given up and is the next to be taken from its slab, or its slab is gone; everything else held keeps its address and its size |
| SlabAllocator.Slabs.FreeAll | kern/mm/slab.c:464-468 | Freeing every object empties every list and returns every slab page |
| SlabAllocator.Slabs.Session | kern/mm/slab.c:387-468 | At every moment of every run of kmalloc and kfree each caller has the bytes it asked for, disjoint from all others and from every control block, and chains and lists are exact; each request takes the first free object of the first slab of its cache that has one, and fails exactly if all are full and the cache cannot grow; freeing what is left gives the buddy allocator the same free pages and the same blocks as before |
| ProcessTable.Table.GetPid | kern/process/proc.c:121-154 | The least unused pid above the last one, or the least of all if there is none; it ends, stays in [1, MAX_PID), and keeps all pids between last_pid and next_safe unused |
| ProcessTable.FirstIsLeast | kern/process/proc.c:121-154 | Whatever the scan, its restarts and next_safe passed over, the pid it ends with is the least unused one above the last, or the least of all |
| ProcessTable.Table.DoFork | kern/process/proc.c:263-308 | Refused exactly when the table is full, out of memory exactly if there is no room for the process; otherwise the new process has the first free pid and list, hash chains and count agree |
| ProcessTable.Table.FindProc | kern/process/proc.c:188-201 | The hash lookup finds a process exactly if a scan of the list would |
| Scheduler.Cpu.Schedule | kern/schedule/sched.c:13-40 | The first runnable process cyclically after the current one, the idle process only if none is runnable; its run count grows by one |
| Scheduler.BoundedWaiting | kern/schedule/sched.c:13-40 | On a fixed list of n processes one that stays runnable is chosen within n calls, whatever the others do |
| SharedMemory.FreshCovers | kern/mm/shmem.c:21-39 | A new chunk covers the address it was made for if and only if the address is below the last 4 MB of the 32-bit range |
| SharedMemory.WrappedChunk | kern/mm/shmem.c:21-39 | Above that the chunk's end wraps to 0 and it covers no address |
| SharedMemory.Shmem.FindShmn | kern/mm/shmem.c:77-95 | The one chunk that covers the address, whether the cache or the scan finds it, and none exactly if none covers it |
| SharedMemory.Shmem.InsertShmn | kern/mm/shmem.c:97-127 | The overlap checks pass exactly if the list is empty or neither the new chunk nor the list is that of the last 4 MB; then the list stays sorted and disjoint with the chunk at its place |
| SharedMemory.Shmem.GetEntry | kern/mm/shmem.c:139-164 | For every 32-bit address of the object: the slot of exactly that page, in the chunk that spans it; at most it has been given a page, and no other entry changes; NULL exactly without chunk and without room or create; an overlap check fires exactly if a chunk is needed beside that of the last 4 MB |
| Numerals.SprintBuf.PrintNum | lib/printfmt.c:34-52 | Appends the digits of the number, padded on the left to the width |
| Numerals.SprintBuf.Putch | lib/printfmt.c:285-296 | Appends one character to the output, and stores it while there is room |
| Numerals.SprintBuf.PrintPiece | lib/printfmt.c:226-261 | Appends the text of a literal, %d, %u, %o, %x or %p; PrintedAs says what that text is |
| Numerals.PrintedAs | lib/printfmt.c:226-261 | Every number piece is printed as its minus sign or "0x" if it has one, then padding up to the width, then the one way to write the number in its base in lower case without leading zeros |
| Numerals.WrittenOnce | lib/printfmt.c:34-52 | That way to write a number is unique, and it is what the recursion of printnum produces |
| Numerals.DigitsWrite | lib/printfmt.c:34-52 | The digits printed are such a way: their value is the number, none is a capital, and a leading zero stands only for 0 |
| Numerals.DigitNames | lib/printfmt.c:51-51 | The digits used are "0123456789abcdef" |
| Numerals.TextConcat | lib/printfmt.c:117-136 | The text of a list of pieces is the texts of its pieces in order |
| Numerals.Vsnprintf | lib/printfmt.c:314-339 | Stores the longest prefix of the output that fits, NUL-terminated, leaves the rest of the buffer alone and returns the full length |
| Numerals.DigitsValue | lib/printfmt.c:34-52 | The digits printed have the number as their value |
| Numerals.Strtol | lib/string.c:172-258 | Computes `Parsed`, with the value wrapping to 32 bits at every step; ReadAsLaidOut says what that is |
| Numerals.ReadAsLaidOut | lib/string.c:202-258 | For every text: of blanks, an optional sign, the prefix that the base allows and the digits after it, each as long as possible, strtol returns the value of the digits, negated after a minus sign and modulo 2^32, and stops after them |
| Numerals.EveryText | lib/string.c:202-258 | Every text is laid out so, in exactly one way |
| Numerals.DigitTable | lib/string.c:232-246 | A character is read as the digit d exactly if it is that digit or letter, small or capital; every other character ends the number |
| Numerals.CaseValue | lib/string.c:232-250 | Letters count the same in either case |
| Numerals.HexRoundTrip | lib/string.c:219-250 | Every number written in base 16 with letters of either case, also mixed, is read back modulo 2^32 to its end; with the prefix "0x" also, in base 16 and in base 0 |
| Numerals.BaseZeroRoundTrip | lib/string.c:219-228 | In base 0 every number written in octal after a 0, and every number written in decimal, is read back modulo 2^32 to its end |
| Numerals.CapitalPrefix | lib/string.c:195-228 | "0X" is not skipped although the description says so: only the 0 before it is read |
| Numerals.PrintThenRead | lib/string.c:202-258 | Printing with %u, %o or %x with any width and blank or zero padding, and parsing in that base, gives the number back modulo 2^32 and consumes everything |
| Numerals.UnsignedRoundTrip | lib/string.c:202-258 | A number printed with %u, %o or %x comes back in that base if and only if it is representable as long and it is not padded with dashes or is no narrower than the width, or is 0 |
| Numerals.SignedRoundTrip | lib/printfmt.c:226-234 | For every integer printed with %d, the parse gives it back if and only if it is representable as long, no padding stands between its sign and its digits but zeros, and dashes do not pad a positive one |
| Numerals.PointerRoundTrip | lib/printfmt.c:249-261 | %p prints "0x" first; read in base 16 or 0 the address comes back modulo 2^32 and everything is consumed if zeros or nothing pad it, and otherwise nothing but the prefix is read |

## Left out

- AddressSpaces.System.MmUnmap: requires that no shared area is split; what the code does there is stated by MemoryMaps.SplitVma, UnmapKeepsBacking and SplitThenDestroy. It takes page numbers and keeps the areas as a list; rounding, tree and cache are in MemoryMaps.
- AddressSpaces.System.Execute: ends before the first split of a shared area, after which a fault in the lower part, its removal, a fork and the exit all dereference a null object.
- MemoryMaps.Mm.MmUnmap: requires that the areas it destroys have objects, because vma_destroy dereferences them without a test.
- MemoryMaps.Mm.MmDestroy: requires that the VM_SHARE areas have objects, for the same reason.
- MemoryMaps.Mm.DupAreas: requires that the VM_SHARE areas have objects, because dup_mmap raises their reference counts without a test.
- PageTables.Kernel.PgdirAllocPage: takes any free page; which page the buddy allocator picks is not tracked, since no result depends on it.
- PageTables.Kernel.ShmemGetEntry: finds the chunk by its number; the chunk list and its cache are in module SharedMemory.
- SlabAllocator.Slabs.Kmalloc: requires a size from 1 byte to 128 KB, because the code asserts and panics outside.
- BuddyAllocator.Allocator.FreePages: requires a `Freeable` range, because the code's own assertion fails otherwise; AssertionHolds proves that condition exact.
- RbTree.RbTree.Insert: the comparison function is a map from nodes to integers, so it is a total order as the tree needs.
- Numerals.Vsnprintf: takes the format as the list of pieces that vprintfmt makes of it; the parsing of the format string is not part of the contract.
- Numerals.SprintBuf.PrintPiece: the format is already taken apart into pieces; `%s`, `%c`, `%e` and the parsing of flags would only add easy members.
- Linked lists: the pointer surgery of `include/list.h`; lists are sequences.
- Red-black nodes are cells of an arena indexed by node, not heap objects; aliasing is that of the arena.
- Slab addresses are bytes from the start of a zone; 32-bit wrap-around of kernel addresses cannot occur inside a zone and is not modelled.
- Boot-time set-up, kernel mappings, devices, traps, assembly, context switch and `do_exit`: no hard property, or stubs.
- Swap: not present in this tree, so every nonzero entry is present.
- `shmem_insert_entry` and `shmem_remove_entry`: used by no fault, map or unmap path.
- Interrupts and locks: each operation is one atomic step.
