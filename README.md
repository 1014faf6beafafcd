# xv6 shared memory, virtual memory, file system, console and user-library core in Dafny

This project models the core of an xv6 (x86, 32-bit) kernel extended with named
shared-memory objects, together with the kernel and user-library code that core
rests on:

- `kernel/shmem.c` and the shared-memory parts of `kernel/proc.c`: the global
  table of shared-memory objects, each process's table of slots, and the system
  calls `shm_open`, `shm_trunc`, `shm_map` and `shm_close`. Also `fork`'s copying
  of a parent's mappings into the child and `wait`'s teardown of a dead child's
  slots. The process table operations around them (`allocproc`, `wakeup1`,
  `kill`, `exit`, `wait`) are included.
- `kernel/vm.c`: the two-level x86 page tables (`walkpgdir`, `mappages`,
  `allocuvm`, `deallocuvm`, `freevm`, `clearpteu`, `copyuvm`, `uva2ka`,
  `copyout`), over a free list of physical pages.
- `kernel/fs.c`: path elements (`skipelem`), the free-block bitmap (`balloc`,
  `bfree`), the inode cache (`iget`, `idup`, `iput`), block mapping (`bmap`) and
  the offset and size arithmetic of `readi` and `writei`.
- `kernel/console.c`: `printint`, the input ring edited by `consoleintr`, the
  loop of `consoleread`, and the command history kept by `history_buff`.
- `user/ulib.c`: `strcpy`, `strncpy`, `safestrcpy`, `strcmp`, `strlen`,
  `strchr`, `atoi` and `memmove`. From `user/ls.c`: `fmtname`.

Modules follow the source files. `Vm` holds the page tables and physical pages.
`KernelState` holds the records of `kernel/shmem_structs.h`, the process table,
the configuration constants and the `Kernel` class. The other modules are
`Shmem`, `Proc`, `Fs`, `Console`, `ULib` and `Ls`, plus a small `Wrappers`
module for `Option`.

The imperative code is modelled as imperative Dafny:

- Each method is proved against a specification function: `ensures r ==
  MapFrom(...)`, `ensures State() == HistBuff(old(State()), ...)`.
- The specification function's meaning is proved in separate lemmas:
  - what gets mapped, and that nothing else changes;
  - which pages return to the free list;
  - which bytes get copied;
  - when the source panics;
  - and so on.
- Objects whose fields the kernel updates in place are classes with arrays or
  fields: the kernel's tables, the console ring and history, the disk bitmap and
  the inode cache.
- Page tables, free lists and process records are values.

Panics become explicit outcomes, not preconditions: `Remap`, `CopyPanic`,
`None`, `WaitPanic`. So the lemmas can say exactly when the source panics.

## Model

| member | source | states |
|---|---|---|
| ULib.Len | user/ulib.c:55-63 | the length of a NUL-terminated string is the index of its first NUL, and no byte before it is NUL |
| ULib.Strlen | user/ulib.c:55-63 | strlen's counting loop returns exactly the index of the first NUL |
| ULib.FirstDiff | user/ulib.c:50-51 | strcmp's scan stops at the first index where p ends or the bytes differ, and the strings agree before it |
| ULib.Strcmp | user/ulib.c:47-53 | strcmp returns the unsigned difference of the bytes at the first mismatch or end of p |
| ULib.CmpZero | user/ulib.c:47-53 | strcmp returns 0 exactly when the two strings, up to and including their NULs, are equal |
| ULib.CmpSwap | user/ulib.c:47-53 | swapping the arguments of strcmp negates the result |
| ULib.Strchr | user/ulib.c:72-79 | strchr returns the first position before the NUL holding c, or nothing when no byte before the NUL is c |
| ULib.DigitRun | user/ulib.c:119-120 | atoi consumes a maximal run of decimal digits that stops before the NUL |
| ULib.Atoi | user/ulib.c:113-122 | atoi's loop computes the decimal value of the leading digit run |
| ULib.AtoiNoSign | user/ulib.c:113-122 | atoi does not accept a sign: a string starting with '-' or '+' gives 0 |
| ULib.Decimal | user/ulib.c:119-120 | every natural number has a non-empty decimal representation made only of digits |
| ULib.AtoiDecimal | user/ulib.c:113-122 | round trip: atoi of the decimal digits of n, followed by any non-digit, gives back n |
| ULib.DecimalValueOf | user/ulib.c:119-120 | the digit value of the decimal representation of n is n |
| ULib.Strcpy | user/ulib.c:8-17 | strcpy writes t up to and including its NUL into dst and leaves the rest of dst unchanged |
| ULib.Strncpy | user/ulib.c:19-30 | strncpy writes the first n bytes of t, padded with NULs after t's end, and leaves the rest unchanged; a source of n or more bytes leaves dst unterminated |
| ULib.Safestrcpy | user/ulib.c:32-45 | safestrcpy does nothing for n <= 0; otherwise it copies at most n-1 bytes of t and writes a NUL after them, leaving the rest unchanged |
| ULib.SafestrcpyTerminates | user/ulib.c:32-45 | after safestrcpy with n > 0 the destination is a string of length min(strlen(t), n-1) equal to t's prefix, so it is always NUL-terminated |
| ULib.Memmove | user/ulib.c:124-135 | memmove's forward byte copy changes only dst..dst+n; with an overlapping source below dst it repeats the source's first dst-src bytes periodically |
| ULib.Period | user/ulib.c:132-133 | the source index of the forward copy: the same index without overlap, and wrapped within the first dst-src bytes when src < dst |
| Ls.StartFrom | user/ls.c:13-15 | fmtname's backward scan stops just after the last '/' (or at the start), and no '/' follows it |
| Ls.Component | user/ls.c:13-15 | the last path component holds neither '/' nor NUL and is no longer than the path |
| Ls.Padded | user/ls.c:18-22 | a name of DIRSIZ or more bytes is returned as is; a shorter one is padded with spaces to exactly DIRSIZ bytes |
| Ls.LastComponent | user/ls.c:13-15 | the scan loop of fmtname computes StartFrom from the string's end |
| Ls.LenSuffix | user/ls.c:18 | strlen of the suffix starting at p is strlen of the path minus p |
| Ls.FmtName | user/ls.c:6-23 | fmtname returns the last path component, space-padded to DIRSIZ when shorter, and the result holds no '/' |
| Vm.Pages | kernel/vm.c:257 | PGROUNDUP(sz)/PGSIZE, the number of pages below sz |
| Vm.PagesBound | kernel/vm.c:257-258 | a page-aligned address lies below sz exactly when its page is one of the first Pages(sz) |
| Vm.PagesMono | kernel/vm.c:257 | rounding up to pages is monotone |
| Vm.SetPte | kernel/vm.c:92 | writing a PTE keeps the set of page tables and makes the lookup return the written entry |
| Vm.SameEntrySamePage | kernel/vm.c:47-67 | the directory and table indices determine the page |
| Vm.SetPteOther | kernel/vm.c:92 | writing the PTE of page n changes no other page's entry or mapping |
| Vm.ReturnedKfree | kernel/vm.c:299 | a page given back by kfree stays accounted as returned |
| Vm.ReturnedTrans | kernel/vm.c:299 | pages returned in two phases are returned overall |
| Vm.WalkPgDir | kernel/vm.c:37-68 | walkpgdir returns the PTE slot (PDX, PTX) of the page, with its table present; it returns null exactly when the table is absent and allocation is off or kalloc fails, and then changes nothing |
| Vm.WalkKeepsMappings | kernel/vm.c:57-64 | allocating a fresh, zeroed table adds no mapping |
| Vm.MapStepFrame | kernel/vm.c:88-92 | mapping one page changes no other page's mapping |
| Vm.MapStepTables | kernel/vm.c:88 | mapping a page never removes a page table |
| Vm.MapStepMaps | kernel/vm.c:92 | a successful step maps the page to pa \| perm \| PTE_P |
| Vm.MapStepSummary | kernel/vm.c:88-92 | a step panics with remap exactly when the page is already mapped, and fails exactly when its table is absent and no page is free; a failed step changes nothing; a step takes at most one free page |
| Vm.MapFromFrame | kernel/vm.c:87-99 | mappages changes no mapping outside first..last |
| Vm.MapFromMapsFirst | kernel/vm.c:92 | after a successful mappages the first page is mapped to pa \| perm \| PTE_P |
| Vm.MapFromMaps | kernel/vm.c:87-99 | after a successful mappages page m of first..last is mapped to the frame pa + (m-first)*PGSIZE with perm \| PTE_P |
| Vm.MapFromRemap | kernel/vm.c:90-91 | mappages panics with remap only if some page of the range was already mapped |
| Vm.MapFromNoMemory | kernel/vm.c:88-89 | mappages returns -1 only when the free list has run out |
| Vm.MapPages | kernel/vm.c:73-101 | the mappages loop from PGROUNDDOWN(va) to PGROUNDDOWN(va+size-1) computes MapFrom |
| Vm.MapPagesOnePage | kernel/vm.c:83-85 | mappages of one aligned page is a single step |
| Vm.NextTableFacts | kernel/vm.c:293 | PGADDR(PDX(a)+1, 0, 0) is past a, and the pages between share a's table |
| Vm.DeallocFrom | kernel/vm.c:289-302 | deallocuvm's loop only gives pages back to the free list |
| Vm.ClearedUnmapped | kernel/vm.c:300 | after *pte = 0 the page is unmapped |
| Vm.DeallocNeverMaps | kernel/vm.c:289-302 | deallocuvm never creates a mapping |
| Vm.DeallocClears | kernel/vm.c:289-302 | after deallocuvm every page of newsz..oldsz is unmapped |
| Vm.DeallocFrame | kernel/vm.c:289-302 | deallocuvm changes no mapping outside newsz..oldsz |
| Vm.SetPteNullFree | kernel/vm.c:92 | writing an entry that does not present frame 0 keeps the table free of frame-0 entries |
| Vm.DeallocNoPanic | kernel/vm.c:296-297 | with no present entry pointing at frame 0, deallocuvm never panics |
| Vm.DeallocUvm | kernel/vm.c:280-304 | deallocuvm returns oldsz when newsz >= oldsz and newsz otherwise, and its table and free list are those of DeallocFrom |
| Vm.DeallocStep | kernel/vm.c:291-301 | one turn of deallocuvm's loop moves forward and preserves the outcome of the rest of the loop, or is the kfree panic |
| Vm.DeallocSkips | kernel/vm.c:292-293 | a page whose table is absent skips to the next table |
| Vm.DeallocEntry | kernel/vm.c:294-301 | on a present entry deallocuvm panics for frame 0, else kfrees the frame and clears the entry; an absent entry is skipped |
| Vm.FreeTablesBelow | kernel/vm.c:316-321 | freevm's loop returns exactly one page per present directory entry to the free list |
| Vm.FreeTables | kernel/vm.c:316-321 | the loop over the directory computes FreeTablesBelow |
| Vm.FreeVm | kernel/vm.c:308-323 | freevm deallocates every user page and then frees every page table |
| Vm.FreeVmReturnsPages | kernel/vm.c:308-323 | freevm does not panic on a table free of frame-0 entries, and it only returns pages to the free list |
| Vm.ClearUserBit | kernel/vm.c:335 | *pte &= ~PTE_U clears only the user bit: the entry stays present or absent and keeps its frame |
| Vm.ClearPteU | kernel/vm.c:327-336 | clearpteu panics exactly when the page's table is absent; otherwise the page is no longer user-accessible, keeps its frame and stays mapped or unmapped |
| Vm.ClearPteUOther | kernel/vm.c:327-336 | clearpteu changes no other page |
| Vm.Uva2ka | kernel/vm.c:373-384 | uva2ka returns a frame exactly when the page is mapped user-accessible, and the frame is the PTE's address |
| Vm.PoolOkTail | kernel/vm.c:259 | the rest of a free list of aligned, non-null pages is such a list too |
| Vm.MapStepPoolOk | kernel/vm.c:57 | mappages keeps the free list aligned and non-null |
| Vm.UserEntry | kernel/vm.c:266 | the entry mem \| PTE_W \| PTE_U \| PTE_P maps frame mem, present, user-accessible and writable |
| Vm.MapStepNullFree | kernel/vm.c:92 | mapping a non-null frame keeps the table free of frame-0 entries |
| Vm.TakeZeroed | kernel/vm.c:259-265 | kalloc followed by memset takes the head of the free list and leaves it zeroed |
| Vm.AllocFromNext | kernel/vm.c:258-272 | one successful turn of allocuvm's loop passes the rest of the loop the mapped table and the shorter free list |
| Vm.AllocPages | kernel/vm.c:256-272 | the allocuvm loop computes AllocFrom |
| Vm.AllocPage | kernel/vm.c:259-271 | one turn of allocuvm's loop either ends with AllocFrom's outcome or preserves it for the next page |
| Vm.AllocUvm | kernel/vm.c:246-274 | allocuvm computes AllocUvmSpec: 0 when newsz >= VIRT_SHM_MEM, oldsz when shrinking, newsz on success, 0 after rolling back |
| Vm.AllocFrame | kernel/vm.c:256-272 | allocuvm's loop changes no mapping outside its range |
| Vm.AllocKeepsZero | kernel/vm.c:256-272 | a zeroed page stays zeroed while allocuvm runs |
| Vm.AllocMapsFirst | kernel/vm.c:259-266 | on success the first new page is mapped, writable and user-accessible, to a zeroed frame |
| Vm.AllocMapsZeroed | kernel/vm.c:256-272 | on success every new page is mapped user-writable to a zeroed frame |
| Vm.AllocMapsLater | kernel/vm.c:256-272 | the same for pages after the first |
| Vm.AllocUvmMaps | kernel/vm.c:246-274 | growing below VIRT_SHM_MEM succeeds with size newsz, and every page of oldsz..newsz is mapped user-writable to a zeroed frame |
| Vm.AllocStopsShort | kernel/vm.c:258 | allocuvm's loop can stop early only inside its range |
| Vm.AllocUvmRollback | kernel/vm.c:260-270 | when kalloc or mappages fails, allocuvm returns 0, unmaps every page of oldsz..newsz and leaves the others as they were |
| Vm.AllocFromSafe | kernel/vm.c:266 | on a range with nothing mapped, allocuvm never panics with remap |
| Vm.AllocUvmNoPanic | kernel/vm.c:246-274 | allocuvm over an unmapped range never panics |
| Vm.TakeCopy | kernel/vm.c:357-359 | kalloc plus memmove makes the new frame a copy of the parent's page and changes no other page |
| Vm.CopyFromNext | kernel/vm.c:350-364 | one successful turn of copyuvm's loop passes on the child with the page mapped and the shorter free list |
| Vm.CopyPages | kernel/vm.c:350-364 | copyuvm's loop computes CopyFrom |
| Vm.CopyPage | kernel/vm.c:351-363 | one turn of copyuvm's loop either ends with CopyFrom's outcome or preserves it |
| Vm.CopyUvm | kernel/vm.c:340-370 | copyuvm computes CopyUvmSpec: 0 when setupkvm fails, the copy on success, and freevm of the copy after a failed kalloc or mappages |
| Vm.CopyFrame | kernel/vm.c:350-364 | the loop changes no mapping of the child outside its range |
| Vm.CopyKeeps | kernel/vm.c:350-364 | a page not on the free list keeps its contents |
| Vm.CopyEntry | kernel/vm.c:355-360 | the child's entry keeps the parent's flags and points at the new frame |
| Vm.CopyFromCopiesFirst | kernel/vm.c:351-363 | on success the child's first page is mapped with the parent's flags to a fresh frame holding the parent page's bytes |
| Vm.PoolTail | kernel/vm.c:357 | taking pages from a distinct free list disjoint from the parent's frames leaves such a list |
| Vm.CopyFromCopies | kernel/vm.c:350-364 | on success every page below sz is copied into a fresh frame mapped with the parent's flags |
| Vm.CopyFromCopiesLater | kernel/vm.c:350-364 | the same for pages after the first |
| Vm.CopiedFromMore | kernel/vm.c:359 | a copied page stays copied from a larger pool with the same source contents |
| Vm.CopyPanics | kernel/vm.c:351-354 | copyuvm panics only if some parent page below sz is unmapped or some child page is already mapped |
| Vm.CopyFromNullFree | kernel/vm.c:360 | the copy never presents frame 0 |
| Vm.CopyUvmCopies | kernel/vm.c:340-370 | a successful copyuvm copies every page below sz and keeps setupkvm's kernel mappings above it |
| Vm.CopyUvmFrees | kernel/vm.c:367-369 | after a failed kalloc or mappages, copyuvm returns 0 and gives every page it took back to the free list |
| Vm.WriteBytes | kernel/vm.c:404 | memmove into a physical page does not touch the free list |
| Vm.WriteBytesAt | kernel/vm.c:404 | memmove places byte i at offset off+i |
| Vm.WriteBytesOther | kernel/vm.c:404 | memmove into one page leaves every other page alone |
| Vm.TouchedPages | kernel/vm.c:396-408 | copyout visits Pages(off+len) pages |
| Vm.FramesOf | kernel/vm.c:397-398 | the frames copyout looks up are uva2ka's answers for the consecutive pages |
| Vm.CopyInto | kernel/vm.c:396-408 | copyout's writes into physical pages do not touch the free list |
| Vm.FramesRest | kernel/vm.c:405-407 | after the first chunk, copyout continues at offset 0 of the next page with the rest of the buffer |
| Vm.CopyOut | kernel/vm.c:389-410 | copyout returns 0 or -1, and the result and memory are those of CopyOutFrom |
| Vm.CopyIntoFails | kernel/vm.c:398-400 | the copy fails exactly when one of the pages it touches has no frame |
| Vm.CopyOutFails | kernel/vm.c:389-410 | copyout returns -1 exactly when one of the pages it touches is not mapped user-accessible |
| Vm.CopyIntoKeeps | kernel/vm.c:404 | a frame the copy does not target keeps its contents |
| Vm.CopyOutKeeps | kernel/vm.c:389-410 | copyout changes no physical page outside the frames of the user pages it touches |
| Vm.SpotDivMod | kernel/vm.c:401-407 | byte i of the buffer goes to page (off+i)/PGSIZE at offset (off+i)%PGSIZE |
| Vm.CopyIntoWritesFirst | kernel/vm.c:401-404 | on success the first chunk's bytes are in the first frame at off+i |
| Vm.CopyIntoWrites | kernel/vm.c:396-408 | on success byte i of the buffer is in its page's frame at its offset |
| Vm.CopyOutWrites | kernel/vm.c:389-410 | after a successful copyout, byte i of the buffer is in the frame of user page (va+i)/PGSIZE at offset (va+i)%PGSIZE |
| KernelState.ShmBasePage | kernel/shmem.c:213 | the window of slot d starts at page BasePage(d), PGROUNDUP(VIRT_SHM_MEM) + d*SHM_OBJ_MAX_SIZE, and ends below KERNBASE |
| KernelState.SlotRefsUpdate | kernel/shmem.c:155-156 | rebinding one slot changes the count of slots naming object g by exactly what left and what came |
| KernelState.SlotRefsNone | kernel/shmem.c:137-142 | slots bound to no object name no object |
| KernelState.SlotRefsBound | kernel/shmem.c:176-177 | a slot bound to g counts toward g's references |
| KernelState.RefsUpdate | kernel/shmem.c:155-156 | replacing one process changes the table-wide count of g's holders by that process's own difference |
| KernelState.RefsBound | kernel/shmem.c:176-177 | an object some slot names has at least one holder |
| KernelState.RefsRebind | kernel/shmem.c:155-156 | rebinding slot d of one process changes g's holder count by what left and what came |
| KernelState.RefsSameSlots | kernel/proc.c:559-567 | operations that leave every slot alone leave every holder count alone |
| KernelState.BoundNamed | kernel/shmem.c:176-178 | in a consistent kernel a bound slot names an existing, named object with a positive reference count, so the dereferences at shmem.c:176-177 are safe |
| KernelState.Kernel.constructor | kernel/proc.c:12-19 | the process table starts all UNUSED with unbound slots, nextpid 1, and GLOBAL_NUMBER_OF_SHM_OBJ registry entries |
| Shmem.RoundUpDivisionCeil | kernel/shmem.c:205 | round_up_division(x, y) is the least multiple count covering x: x <= r*y < x + y |
| Shmem.RoundUpDivisionPages | kernel/shmem.c:205 | round_up_division(x, PGSIZE) is the page count of x bytes |
| Shmem.NamedSlotFrom | kernel/shmem.c:78-91 | check_if_exists answers -1 or a slot index below 16 |
| Shmem.NamedSlotFirst | kernel/shmem.c:78-91 | the answer is -1 exactly when no slot from i on holds an object called name, and otherwise the lowest slot that does |
| Shmem.FreeSlotFrom | kernel/shmem.c:93-100 | find_free_slot_local answers -1 or a slot index below 16 |
| Shmem.FreeSlotFirst | kernel/shmem.c:93-100 | the answer is -1 exactly when every slot is bound, and otherwise the lowest unbound slot |
| Shmem.FetchFrom | kernel/shmem.c:55-76 | fetch_shared_memory_object answers an index in range or -1, and an existing match always has an index |
| Shmem.FetchFirst | kernel/shmem.c:55-76 | exist holds exactly when some entry has the name, and then the index is the first such entry; otherwise it is the first nameless entry, or -1 when none is nameless |
| Shmem.OpenExisting | kernel/shmem.c:143-145 | opening a name one of the caller's slots already holds changes nothing and answers the first slot holding it |
| Shmem.OpenFull | kernel/shmem.c:146-152 | with no free local slot, or no matching and no nameless entry, shm_open answers -1 and changes nothing |
| Shmem.OpenFresh | kernel/shmem.c:143-161 | a fresh open binds the lowest unbound slot to the first entry called name, or else the first nameless one, which takes the name and gains one reference; nothing else changes |
| Shmem.FreeFrames | kernel/shmem.c:127-132 | the kfree loop pushes the pages 0..allocated_pages onto the free list, the last freed on top |
| Shmem.ConsistentCallable | kernel/shmem.c:143-254 | every live process of a consistent kernel may make the shm calls, and every entry is well shaped |
| Shmem.TruncFromFills | kernel/shmem.c:215-225 | with enough free pages the loop appends the first left free pages, in order, to the object's pages, zeroes each, and takes them off the free list |
| Shmem.TruncFromFillsLater | kernel/shmem.c:215-225 | the same for a loop that has already run at least once |
| Shmem.FilledPrefix | kernel/shmem.c:222-224 | storing one page at allocated_pages+1 and then the rest gives the old pages followed by the new ones |
| Shmem.FilledZeroed | kernel/shmem.c:223 | a first zeroed page and zeroed later pages make all of them zeroed |
| Shmem.TruncFromZero | kernel/shmem.c:215-225 | the loop never dirties a page that was already zero |
| Shmem.TruncFromRollsBack | kernel/shmem.c:216-221 | when kalloc runs out, every page the object held or the loop took goes back to the free list, and allocated_pages is -1 |
| Shmem.TruncSucceeds | kernel/shmem.c:196-229 | shm_trunc succeeds exactly when the descriptor is in range and bound, 0 < size <= MAX_PAGES pages, the object is still empty, and enough pages are free |
| Shmem.TruncRejects | kernel/shmem.c:201-209 | a failed check returns -1 before anything is touched |
| Shmem.TruncFills | kernel/shmem.c:212-228 | on success the answer is the window start plus size, the object has size and pages 0..p-1 taken, zeroed, from the free list, and nothing else changes |
| Shmem.TruncRollsBack | kernel/shmem.c:215-221 | an out-of-memory failure answers -1, leaves the size 0 and allocated_pages -1, and returns every taken page to the free list |
| Shmem.UnmapFrom | kernel/shmem.c:111-125 | unmap never adds or removes a page table |
| Shmem.UnmapEntry | kernel/shmem.c:115-123 | a present entry in [n, hi) becomes 0; every other entry is unchanged |
| Shmem.UnmapMapping | kernel/shmem.c:111-125 | after unmap nothing in [n, hi) is mapped and every page outside is mapped as before |
| Shmem.UnmapAsWrittenAgrees | kernel/shmem.c:117-118 | the code as written dereferences walkpgdir's NULL result exactly when some page of the range has no page table (answered as None; the read, and possible zeroing, of user address 0 is not modelled), and otherwise agrees with UnmapFrom |
| Shmem.UnmapAsWrittenNullEntry | kernel/shmem.c:117-118 | with an empty directory the code as written dereferences NULL where UnmapFrom leaves the directory as it is |
| Shmem.ShmPermAsWrittenMovesFrame | kernel/shmem.c:242 | flags 0x1000 passed unmasked move the frame at 0x4000 to 0x5000 |
| Shmem.ShmPermAsWrittenFrame | kernel/shmem.c:242 | as written the entry's frame is pa OR the flags' high bits, so it is pa exactly when those bits lie within pa |
| Shmem.ShmPermKeepsFrame | kernel/shmem.c:242 | with the flags masked to the low 12 bits the entry keeps frame pa and carries exactly the flags, PTE_U and PTE_P |
| Shmem.ShmMapFrom | kernel/shmem.c:241-249 | the loop stops at a page inside the range, and reaches its end exactly when all pages are mapped; running out of memory is never reported at the first page |
| Shmem.ShmMapRemap | kernel/vm.c:90-91 | the loop panics with remap only at a page that was already mapped |
| Shmem.ShmMapOutside | kernel/shmem.c:241-249 | pages before the window or from the stopping page on are mapped as before |
| Shmem.ShmMapMapsAt | kernel/shmem.c:242-243 | every page the loop passed maps its frame with the permission and PTE_P, except that a failure at the first page is ignored |
| Shmem.ShmMapMapsFirst | kernel/shmem.c:242-243 | the first page of the window maps frame 0, unless mapping it failed |
| Shmem.MapNoPanic | kernel/shmem.c:241-249 | with the window free, shm_map does not panic |
| Shmem.MapSucceeds | kernel/shmem.c:236-253 | answer 0 means the descriptor was in range, bound and unmapped, and the slot now records the window start and the flags |
| Shmem.MapTook | kernel/shmem.c:241-250 | on success the new directory is the one the loop built, and the loop mapped every page |
| Shmem.MapMaps | kernel/shmem.c:241-253 | on success page i of the window maps page i of the object, except that a failure at the first page is ignored |
| Shmem.MapProcMaps | kernel/shmem.c:240-252 | the same, for the per-process step |
| Shmem.ShmMapFills | kernel/shmem.c:241-249 | a loop that maps every page leaves page i of the window mapping frame i, except that a failure at the first page is ignored |
| Shmem.MapRollsBack | kernel/shmem.c:243-245 | a failure after the first page answers -1, leaves the slots alone and frees the whole window again |
| Shmem.MapFrame | kernel/shmem.c:231-254 | shm_map changes only the caller's directory inside the object's window and the caller's slot |
| Shmem.MapProcFrame | kernel/shmem.c:240-252 | the per-process step keeps the state and every page outside the window |
| Shmem.CloseEffect | kernel/shmem.c:163-188 | closing a bound slot answers 1, unbinds it, unmaps the object's window if the slot was mapped, and drops a reference; the last reference frees the pages and empties the entry |
| Shmem.OpenKeeps | kernel/shmem.c:143-161 | shm_open of a non-empty name keeps the kernel consistent |
| Shmem.OpenBindKeeps | kernel/shmem.c:153-156 | binding a fresh slot keeps the kernel consistent |
| Shmem.OpenBinds | kernel/shmem.c:147-156 | the fresh path's state is exactly the slot bound and the entry claimed |
| Shmem.FetchedName | kernel/shmem.c:55-76 | the entry fetch answers is called name when exist holds and is nameless otherwise |
| Shmem.BindKeeps | kernel/shmem.c:153-156 | binding a free slot to g while g gains one reference keeps the kernel consistent |
| Shmem.RebindProcOk | kernel/shmem.c:155-156 | a well-formed slot stored in a live process keeps the process well formed |
| Shmem.TruncKeeps | kernel/shmem.c:196-229 | shm_trunc keeps the kernel consistent, on every path |
| Shmem.TruncObject | kernel/shmem.c:212-228 | shm_trunc changes only the descriptor's entry, which stays well formed and keeps its reference count |
| Shmem.MapKeeps | kernel/shmem.c:231-254 | shm_map keeps the kernel consistent when it does not panic |
| Shmem.CloseKeeps | kernel/shmem.c:163-188 | shm_close keeps the kernel consistent |
| Shmem.InitSharedMemObjects | kernel/shmem.c:42-52 | every registry entry g gets id g, no name, no references, no pages and size 0 |
| Shmem.InitConsistent | kernel/shmem.c:42-52 | a freshly initialised registry with unbound slots is consistent |
| Shmem.CheckIfExists | kernel/shmem.c:78-91 | the loop answers NamedSlotFrom, the lowest slot holding name |
| Shmem.FindFreeSlotLocal | kernel/shmem.c:93-100 | the loop answers FreeSlotFrom, the lowest unbound slot |
| Shmem.FetchSharedMemoryObject | kernel/shmem.c:55-76 | the loop answers FetchFrom from the start |
| Shmem.EditShmObj | kernel/shmem.c:102-109 | only entry g changes: it takes the name unless it existed, and gains a reference |
| Shmem.ShmOpen | kernel/shmem.c:143-161 | the call's answer and new state are those of Open |
| Shmem.CleanShmMem1 | kernel/shmem.c:127-132 | every page 0..allocated_pages goes to the free list and allocated_pages is -1 |
| Shmem.TruncPages | kernel/shmem.c:215-225 | the allocation loop computes TruncFrom for the window's page count |
| Shmem.ShmTrunc | kernel/shmem.c:196-229 | the call's answer and new state are those of Trunc |
| Shmem.Unmap | kernel/shmem.c:111-125 | the loop from PGROUNDDOWN(from) computes UnmapFrom over the range's pages |
| Shmem.ShmMapPages | kernel/shmem.c:241-249 | the mapping loop computes ShmMapFrom |
| Shmem.ShmMapPage | kernel/shmem.c:242-248 | one iteration either stops with ShmMapFrom's result or hands the rest of the loop the same result |
| Shmem.MapInProc | kernel/shmem.c:240-252 | the per-process steps compute MapProc |
| Shmem.ShmMap | kernel/shmem.c:231-254 | the call's answer and new state are those of Map, or a remap panic where Map panics |
| Shmem.ShmClose | kernel/shmem.c:163-191 | the call's answer and new state are those of Close |
| Shmem.DropReference | kernel/shmem.c:176-185 | the entry loses a reference; at none left its pages go to the free list and the entry is emptied |
| Shmem.CloseBound | kernel/shmem.c:167-187 | Close of a bound slot is exactly the unmap, the dropped reference and the unbound slot |
| Proc.FirstUnused | kernel/proc.c:84-86 | the scan answers -1 or an index in the table from i on |
| Proc.FirstUnusedFirst | kernel/proc.c:84-89 | -1 exactly when no entry from i on is UNUSED, and otherwise the first UNUSED one |
| Proc.AllocateClaims | kernel/proc.c:76-119 | with no UNUSED entry allocproc fails and changes nothing; otherwise the first UNUSED entry takes pid nextpid and nextpid grows by one; with a free page it becomes EMBRYO holding that page as its kernel stack, and without one it is UNUSED again and allocproc fails |
| Proc.SameSlotsKeep | kernel/proc.c:76-119 | a change that keeps every slot and revives no UNUSED entry keeps the kernel consistent |
| Proc.AllocateKeeps | kernel/proc.c:76-119 | allocproc keeps the kernel consistent |
| Proc.AllocProc | kernel/proc.c:76-119 | the method's answer and new state are those of Allocate |
| Proc.WakeAll | kernel/proc.c:559-567 | exactly the entries SLEEPING on chan change, and they become RUNNABLE; nothing else about any entry changes |
| Proc.WakeKeeps | kernel/proc.c:559-567 | wakeup1 keeps the kernel consistent |
| Proc.Wakeup1 | kernel/proc.c:559-567 | the loop computes WakeAll |
| Proc.FirstWithPid | kernel/proc.c:587-588 | the scan answers -1 or an index in the table from i on |
| Proc.FirstWithPidFirst | kernel/proc.c:587-596 | -1 exactly when no entry from i on has the pid, and otherwise the first that has it |
| Proc.KillEffect | kernel/proc.c:581-599 | kill answers -1 and changes nothing exactly when no entry has the pid; otherwise only the first such entry changes: it is killed, and woken if it was SLEEPING |
| Proc.KillKeeps | kernel/proc.c:581-599 | kill keeps the kernel consistent |
| Proc.Kill | kernel/proc.c:581-599 | the loop's answer and new table are those of KillPid |
| Proc.ReparentFrom | kernel/proc.c:309-315 | the reparenting loop keeps the table's length |
| Proc.ZombieChildSame | kernel/proc.c:309-315 | whether cur has a zombie child from i on depends only on parents and zombie states |
| Proc.ReparentEffect | kernel/proc.c:309-315 | entry q ends adopted by init if it was cur's child, and woken on init's channel if any of cur's children from i on was a zombie |
| Proc.ExitEffect | kernel/proc.c:280-321 | exit makes cur a ZOMBIE, hands cur's children to init, wakes cur's parent's waiters and, when a child was a zombie, init's; nothing else changes |
| Proc.ExitKeeps | kernel/proc.c:280-321 | exit of a process other than init keeps the kernel consistent |
| Proc.Exit | kernel/proc.c:280-321 | exit panics exactly for init, and otherwise leaves the table ExitProcs computes |
| Proc.CopyShmPanics | kernel/proc.c:205-214 | copy_shm_vm_1 panics with remap exactly when a page of the child's window is already mapped |
| Proc.CopyShmOutside | kernel/proc.c:205-214 | pages outside the window keep their mapping |
| Proc.CopyShmMaps | kernel/proc.c:205-214 | with the window free, page m of the window maps frame m-n with the permission and PTE_P, unless its page table could not be allocated |
| Proc.CopyShmStep | kernel/proc.c:205-214 | one iteration on a free page hands the rest of the loop the new directory and free list |
| Proc.CopyShmStepFirst | kernel/proc.c:206 | one iteration maps its page, unless its page table could not be allocated |
| Proc.CopyShmStepWindow | kernel/proc.c:205-214 | one iteration leaves the rest of the window free and removes no page table |
| Proc.CopyShmVm1 | kernel/proc.c:200-216 | the loop computes CopyShmFrom over pages 0..allocated_pages from the slot's window start |
| Proc.ForkedSlot | kernel/proc.c:243-255 | the child's slot d becomes the parent's, a shared slot's object gains exactly one reference, and nothing else changes but the child's directory and the free list; it panics exactly when the copy did |
| Proc.ForkSlot | kernel/proc.c:243-255 | copying one slot keeps parent and child ready for the next |
| Proc.ForkSlotsFrom | kernel/proc.c:243-255 | the rest of the loop keeps parent and child ready |
| Proc.ForkSlotKeeps | kernel/proc.c:243-255 | copying one slot into an unbound child slot keeps the kernel consistent |
| Proc.ForkSlotsKeep | kernel/proc.c:243-255 | the loop from slot d on keeps the kernel consistent, copies slots d..15 of the parent into the child and changes no other process |
| Proc.ForkEffect | kernel/proc.c:243-255 | after the whole loop the child's slots are the parent's, every object gains one reference per parent slot bound to it, and the kernel stays consistent |
| Proc.MapMappedWindow | kernel/shmem.c:241-249 | shm_map of an unmapped slot whose window already has its first page mapped panics |
| Proc.CopyShmMapsFirst | kernel/proc.c:206 | with a free page, the copy maps the window's first page |
| Proc.ForkAsWrittenRemaps | kernel/proc.c:251-253 | as written, fork maps the window of a slot the parent never mapped, and the child's later shm_map of that slot panics |
| Proc.ForkSlotThenMap | kernel/proc.c:243-255 | corrected, fork leaves such a slot's window free, and the child's shm_map of it does not panic |
| Proc.ForkSlotIn | kernel/proc.c:244-254 | one iteration panics exactly when ForkSlot does, and otherwise leaves ForkSlot's state |
| Proc.ForkShmSlots | kernel/proc.c:243-255 | the loop panics exactly when ForkSlots does, and otherwise leaves ForkSlots' state |
| Proc.ReapSlot | kernel/proc.c:362-381 | releasing slot d of zombie z changes only z's directory and slot d, and slot d is then unbound or nothing changed |
| Proc.ReapAsWrittenBreaks | kernel/proc.c:378 | as written, reaping one holder of a shared object leaves the object referenced but nameless, and the kernel inconsistent |
| Proc.ReapSlotKeeps | kernel/proc.c:362-381 | corrected, releasing a slot keeps the kernel consistent and leaves the slot unbound |
| Proc.ReapSlotUnmaps | kernel/proc.c:369-371 | the object's window in z's directory is unmapped and every other page keeps its mapping |
| Proc.ReapSlotsFrom | kernel/proc.c:362-382 | the loop from slot d on changes only z's directory and slots |
| Proc.ReapSlotsKeep | kernel/proc.c:362-382 | the loop from slot d on keeps the kernel consistent and unbinds slots d..15 |
| Proc.ReapEffect | kernel/proc.c:362-391 | reaping answers z's pid, leaves z UNUSED with every slot unbound, keeps the kernel consistent, and every object loses one reference per slot of z bound to it |
| Proc.ReleaseEffect | kernel/proc.c:383-391 | freeing the entry after its slots are released gives the same effect |
| Proc.ReapSlotsRefs | kernel/proc.c:362-382 | once z's slots are all unbound, each object has lost one reference per slot of z bound to it |
| Proc.ClearEntryKeeps | kernel/proc.c:383-391 | clearing an entry whose slots are all unbound keeps the kernel consistent |
| Proc.FirstZombieChild | kernel/proc.c:356-361 | the scan answers -1 or a zombie child of cur from i on |
| Proc.FirstZombieChildFirst | kernel/proc.c:356-361 | no zombie child of cur lies before the answer |
| Proc.ConsistentWaitReady | kernel/proc.c:345-406 | every consistent kernel may call wait |
| Proc.WaitOutcome | kernel/proc.c:345-406 | wait reaps the first zombie child and answers its pid (or panics); with no zombie child it sleeps exactly when cur has children and is not killed, and otherwise answers -1 and changes nothing |
| Proc.WaitKeeps | kernel/proc.c:345-406 | wait keeps the kernel consistent and, when it reaps, answers the child's pid and leaves the child UNUSED with unbound slots |
| Proc.Unmap1 | kernel/proc.c:329-341 | the loop from PGROUNDUP(from) computes UnmapFrom over the range's pages |
| Proc.ReapSlotIn | kernel/proc.c:362-381 | one iteration leaves ReapSlot's state |
| Proc.ReleaseSlot | kernel/proc.c:366-376 | the window is unmapped, the object loses a reference and, at none left, its pages are freed and it is emptied |
| Proc.ReapSlotBound | kernel/proc.c:362-381 | for a named bound slot ReapSlot is exactly the unmap, the dropped reference and the unbound slot |
| Proc.ReapIn | kernel/proc.c:362-393 | the reap panics exactly when Reap does, and otherwise answers and leaves Reap's result |
| Proc.Wait | kernel/proc.c:345-406 | the call sleeps, panics or returns exactly as WaitFor says; sleeping changes nothing |
| Fs.SkipSlashes | kernel/fs.c:657-658 | the scan stops at the first byte from i on that is not a slash, passing only slashes |
| Fs.ElemEnd | kernel/fs.c:661-663 | the scan stops at the first slash or at the terminator, passing only ordinary bytes |
| Fs.SkipElem | kernel/fs.c:651-674 | skipelem answers 0 exactly when the path is all slashes; otherwise the rest starts at no slash and the name has 1 to DIRSIZ bytes, terminated by a zero when shorter than DIRSIZ |
| Fs.SkipElemSplits | kernel/fs.c:657-673 | the path splits into leading slashes, the element, trailing slashes and the rest; the name is the element cut to DIRSIZ bytes, or the element and a zero |
| Fs.SkipElemFirstExample | kernel/fs.c:646 | skipelem("a/bb/c") gives name "a" and rest "bb/c" |
| Fs.SkipElemSecondExample | kernel/fs.c:647 | skipelem("///a//bb") gives name "a" and rest "bb" |
| Fs.SkipElemLastExamples | kernel/fs.c:648-649 | skipelem("a") gives name "a" and rest ""; skipelem("") and skipelem("////") give 0 |
| Fs.SetBitInUse | kernel/fs.c:68 | setting bit b marks b in use and leaves every other block's bit as it was |
| Fs.ClearBitInUse | kernel/fs.c:92 | clearing bit b marks b free and leaves every other block's bit as it was |
| Fs.ClearSetBit | kernel/fs.c:68 | clearing a bit just set on a free block restores the bitmap |
| Fs.FirstFree | kernel/fs.c:63-76 | the scan answers a free block from b on, below the disk size |
| Fs.FirstFreeLowest | kernel/fs.c:63-76 | every block from b below the answer (or below the size, when there is none) is in use |
| Fs.Balloc | kernel/fs.c:55-77 | balloc answers a block below the disk size and leaves a bitmap that still covers the disk |
| Fs.BallocLowest | kernel/fs.c:55-77 | balloc fails only when every block is in use, and otherwise takes the lowest free block and marks exactly it in use |
| Fs.Bfree | kernel/fs.c:80-95 | bfree panics exactly when the block is already free |
| Fs.BfreeUndoesBalloc | kernel/fs.c:55-95 | freeing the block balloc just took gives back the bitmap balloc started from |
| Fs.DiskStore.constructor | kernel/fs.c:55-95 | the store holds the size, the bitmap and the indirect tables given |
| Fs.BitAt | kernel/fs.c:64-66 | block b+bi's bit lives in byte BitByte(b+bi) under mask 1 << (bi % 8) |
| Fs.Mark | kernel/fs.c:68 | the bitmap becomes SetBit of the old one |
| Fs.BitFree | kernel/fs.c:67 | the test answers whether block b+bi is free |
| Fs.ScanBitmapBlock | kernel/fs.c:65-74 | the inner loop answers the first free block of the bitmap block, or reports all of it in use |
| Fs.FindFree | kernel/fs.c:63-76 | the two loops answer FirstFree from block 0 |
| Fs.Claim | kernel/fs.c:68-71 | the bitmap gains bit c and block c is zeroed |
| Fs.BallocIn | kernel/fs.c:55-77 | the method fails exactly when Balloc does, changing nothing, and otherwise answers and leaves Balloc's result |
| Fs.BfreeIn | kernel/fs.c:80-95 | the method panics exactly when Bfree does, changing nothing, and otherwise leaves Bfree's bitmap |
| Fs.FirstCached | kernel/fs.c:249-254 | the answer is the first entry with references holding (dev, inum), or -1 when there is none |
| Fs.FirstEmpty | kernel/fs.c:255-256 | the answer is the first entry with no references, or -1 when there is none |
| Fs.Iget | kernel/fs.c:240-271 | iget answers an index into the cache and keeps its size |
| Fs.IgetEffect | kernel/fs.c:240-271 | iget panics exactly when every entry is referenced and none holds the inode; a cached inode gains a reference; otherwise the first empty entry takes (dev, inum) with one reference, not valid; no other entry changes |
| Fs.Idup | kernel/fs.c:275-282 | idup adds one reference to entry i and changes nothing else |
| Fs.Iput | kernel/fs.c:334-355 | iput drops one reference from entry i and changes no other entry |
| Fs.IputIdup | kernel/fs.c:275-355 | iput after idup gives back the cache |
| Fs.IputLast | kernel/fs.c:338-348 | iput keeps the cache well formed, and the last reference to a valid inode with no links truncates it: type 0, size 0, no blocks, not valid |
| Fs.ICache.constructor | kernel/fs.c:240-355 | the cache wraps the inode array given |
| Fs.ICache.Get | kernel/fs.c:240-271 | the loop panics exactly when Iget does, changing nothing, and otherwise answers and leaves Iget's result |
| Fs.ICache.Dup | kernel/fs.c:275-282 | the cache becomes Idup of the old one |
| Fs.ICache.Put | kernel/fs.c:334-355 | the cache becomes Iput of the old one |
| Fs.Bmap | kernel/fs.c:374-402 | bmap keeps the bitmap covering the disk and the inode's tables in place, and panics for every bn >= MAXFILE |
| Fs.BmapRecorded | kernel/fs.c:380-398 | a block already recorded is answered without any change |
| Fs.BallocFresh | kernel/fs.c:55-77 | with block 0 in use, balloc answers a block other than 0 that was free and is now in use |
| Fs.BmapAllocates | kernel/fs.c:380-398 | an unrecorded block gets a fresh nonzero block, recorded in the inode or its indirect block, so the next bmap of bn answers the same block without change |
| Fs.BmapIn | kernel/fs.c:374-402 | the method panics exactly when Bmap does, and otherwise answers and leaves Bmap's result |
| Fs.ReadiPlan | kernel/fs.c:481-491 | a device inode goes to its driver exactly when the major is in range and has a reader; otherwise readi fails exactly when off is past the end or off+n wraps, and reads n bytes cut at the end of the file |
| Fs.WriteiPlan | kernel/fs.c:511-530 | a device inode goes to its driver exactly when the major is in range and has a writer; otherwise writei fails exactly when off is past the end or the write would pass MAXFILE blocks (a wrapping off+n always would), and writes all n bytes |
| Fs.WrittenSize | kernel/fs.c:542-545 | the size never shrinks, covers the written bytes, and is the old size or off+n |
| Fs.WriteiKeepsLimit | kernel/fs.c:529-545 | a permitted write leaves the file within MAXFILE blocks |
| Fs.Chunk | kernel/fs.c:494 | each step moves at least one and at most the remaining bytes |
| Fs.ChunkInBlock | kernel/fs.c:494 | each step stays inside one block |
| Fs.ReadSpan | kernel/fs.c:492-497 | the read loop copies exactly bytes off..off+n of the file |
| Fs.Overwritten | kernel/fs.c:533-545 | the written file has the size WrittenSize gives |
| Fs.OverwrittenParts | kernel/fs.c:533-545 | the bytes before off are unchanged, then come the written bytes, then the rest of the old file |
| Fs.OverwrittenStep | kernel/fs.c:533-540 | writing a and then b right after it is writing a + b |
| Fs.OverwrittenPrefix | kernel/fs.c:533-540 | each step of the loop extends the written prefix of src |
| Fs.StoreChunk | kernel/fs.c:537 | one step leaves Overwritten of the piece |
| Fs.WriteSpan | kernel/fs.c:533-545 | the write loop leaves the file Overwritten with src at off |
| Console.DigitRoundTrip | kernel/console.c:36 | digits[d] read back as a digit is d, for every d below 16 |
| Console.NumeralValue | kernel/console.c:46-49 | the digits printint produces for x, read back in base, are x |
| Console.NumeralLeading | kernel/console.c:46-49 | there is at least one digit, and the leading digit is '0' exactly for 0 |
| Console.NumeralLength | kernel/console.c:46-49 | a number below base^k has at most k digits |
| Console.UintDigits | kernel/console.c:37-49 | a uint has at most 10 digits in base 10 or 16, so buf[16] has room for them and the sign |
| Console.NumeralSplit | kernel/console.c:47-49 | one turn of the do-while produces the last digit and leaves the digits of x / base |
| Console.DigitStep | kernel/console.c:47-49 | the last digit is digits[x % base], the rest are those of x / base, and x / base is smaller unless x is 0 |
| Console.StoreDigits | kernel/console.c:46-49 | the loop stores the digits of x into buf least significant first and counts them, at most 10 |
| Console.Backwards | kernel/console.c:54-55 | element k of the result is element n-1-k of the input |
| Console.Emit | kernel/console.c:54-55 | the while(--i >= 0) loop emits buf[0..n) backwards |
| Console.PrintInt | kernel/console.c:33-56 | printint emits '-' when sign is asked for and xx is negative, then the digits of the magnitude (xx taken as uint otherwise) most significant first |
| Console.Span | kernel/console.c:189-194 | n bytes of the stream from position from, each read at its ring index |
| Console.KillLine | kernel/console.c:213-219 | ^U backs e up to the start of the edit region or to just after the last newline, passing no newline |
| Console.Key | kernel/console.c:208-241 | any key keeps the ring's invariant, keeps r, never moves w back, and leaves the committed bytes alone |
| Console.Keys | kernel/console.c:206-242 | a run of keys keeps the invariant and r, and only extends what is committed |
| Console.KeyStores | kernel/console.c:226-240 | an ordinary key is stored exactly when it is nonzero, the ring has room and it is not an arrow code, CR stored as NL; a stored key either extends the edited line or commits the whole line with it; otherwise nothing changes |
| Console.CommitJoins | kernel/console.c:231-236 | committing after a store makes the committed bytes the old committed bytes, the edited line and the key |
| Console.KeyCommits | kernel/console.c:235-238 | w moves to e exactly when a key was accepted and is a newline, ^D, or fills the ring |
| Console.KeyErases | kernel/console.c:220-225 | backspace and DEL drop the last edited byte when there is one, and change nothing else |
| Console.KeyKills | kernel/console.c:213-219 | ^U cuts the edited line back to a prefix ending in a newline, or to nothing, dropping no newline |
| Console.EditingPrefix | kernel/console.c:214-216 | moving e back leaves a prefix of the edited line |
| Console.FreshHist | kernel/console.c:255-264 | the initial history is well formed |
| Console.HistBuff | kernel/console.c:340-355 | history_buff keeps the history well formed |
| Console.HistBuffAgrees | kernel/console.c:353 | the code as written agrees with HistBuff exactly when the byte is an end of line or the entry still has room |
| Console.HistBuffEol | kernel/console.c:341-346 | an end of line marks the entry edited, moves to the next entry modulo 3 and resets the position, keeping every text |
| Console.HistBuffAppends | kernel/console.c:347-353 | with room, a byte is appended to the current line, an edited entry being blanked first, and no other entry changes |
| Console.HistLog | kernel/console.c:296-302 | logging bytes keeps the history well formed |
| Console.HistLogPos | kernel/console.c:302 | logging newline-free bytes into a fresh entry advances the position by their number, up to INPUT_BUF |
| Console.HistOverrun | kernel/console.c:353 | as written, the 129th byte of a newline-free line is stored past the 128-byte string |
| Console.ReadBytes | kernel/console.c:276-304 | the loop consumes at most one byte more than it copies, and no more than are committed |
| Console.ReadFront | kernel/console.c:285-302 | one turn over the first committed byte: ^D ends the read, saved for next time when bytes were already copied; a newline is copied and ends the read with an end of line logged; any other byte is copied and logged and the rest of the read goes on from the next byte |
| Console.ReadFrom | kernel/console.c:267-309 | consoleread moves only r, within the committed bytes, and keeps the ring and history well formed |
| Console.ReadTakes | kernel/console.c:285-301 | the bytes copied are the first committed ones, and a byte consumed beyond them is ^D |
| Console.ReadCopies | kernel/console.c:285-301 | dst is a prefix of the committed bytes, and r advances by its length, or one more over a ^D |
| Console.ReadReturns | kernel/console.c:276-308 | at most n bytes are copied, none of them ^D and only the last possibly a newline; the return is the bytes copied, or -1 only when killed; a killed reader never sleeps |
| Console.ReadShort | kernel/console.c:276-308 | a read returns n, -1, or fewer bytes only when it stopped at a newline or a ^D, or it sleeps |
| Console.ReadShortFrom | kernel/console.c:276-308 | the same over the pending bytes |
| Console.EofSaved | kernel/console.c:286-293 | a ^D after some bytes is left for the next read, which returns 0 and consumes it |
| Console.ReadLogs | kernel/console.c:291-302 | the history afterwards is the history with the bytes copied logged, followed by an end of line when a ^D was saved |
| Console.History.constructor | kernel/console.c:255-264 | the history starts fresh in three new entries |
| Console.History.Buff | kernel/console.c:340-355 | the history becomes HistBuff of the old one |
| Console.History.Clear | kernel/console.c:348-350 | the current entry's text becomes blank and nothing else changes |
| Console.ConsoleInput.constructor | kernel/console.c:189-194 | the ring starts zeroed with r, w and e at 0 |
| Console.ConsoleInput.KillLineIn | kernel/console.c:214-218 | the loop leaves e where KillLine says |
| Console.ConsoleInput.KeyIn | kernel/console.c:208-241 | one key leaves the ring Key says |
| Console.ConsoleInput.Intr | kernel/console.c:199-248 | the keys leave the ring Keys says, and a procdump is due exactly when ^P was among them |
| Console.ConsoleInput.Take | kernel/console.c:285-302 | one turn of the loop either ends as ReadBytes says or hands the rest of the loop one fewer byte to take |
| Console.ConsoleInput.Turn | kernel/console.c:276-304 | one turn, waiting included, keeps the loop's account with ReadBytes |
| Console.ConsoleInput.ReadLoop | kernel/console.c:276-304 | the loop ends as ReadBytes over the committed bytes says |
| Console.ConsoleInput.Read | kernel/console.c:267-309 | consoleread's return, copied bytes, ring and history are those ReadFrom gives |

## Left out

- KernelState.ShmObject: the name is an unbounded string. The fixed `char name[NAME_SZ]` of 14 bytes and the overflow of `strcpy` at kernel/shmem.c:105 for a longer name are not modelled.
- Shmem.ShmMap: the store of the window address through the user pointer `virtual_adress` (kernel/shmem.c:250) is not modelled; the address is only recorded in the slot.
- Shmem.ShmClose requires a bound slot when the descriptor is in range, because kernel/shmem.c:176-177 dereferences the slot's object pointer without checking it; the NULL dereference itself is not modelled.
- Shmem.UnmapFrom skips pages whose page table is absent, where kernel/shmem.c:117-118 and kernel/proc.c:335-336 dereference walkpgdir's NULL result (reading, and possibly zeroing, user address 0; see Findings); Shmem.UnmapFromAsWritten answers None for that case and does not model its effect.
- Fs.ReadSpan and Fs.WriteSpan copy between a flat byte sequence of the file and the user buffer: the bmap call of each loop turn (kernel/fs.c:493, 534) is not part of them, so the block allocation it does for a growing write, and the "balloc: out of blocks" panic (kernel/fs.c:77) that allocation can reach on a full disk, are not modelled there; Fs.Bmap and Fs.Balloc model those on their own.
- Shmem.ShmOpen, Shmem.ShmTrunc, Shmem.ShmMap and Shmem.ShmClose: the per-object spinlocks and the process-table lock are not modelled; every call runs alone. The races they leave open (kernel/shmem.c:149-153 between the lookup and the claim, the checks at 201-209 made before the lock at 212) are not captured.
- Vm.Uva2ka and Vm.CopyOut require the page tables of the pages they touch, because kernel/vm.c:379 dereferences walkpgdir's NULL result for an absent table.
- Vm.FreeVm: the `kfree(pgdir)` of the directory page itself (kernel/vm.c:322) is not modelled; the directory page is not tracked as a physical page.
- Vm: virtual addresses are page numbers without a 4 GiB bound, so the wrap of `a + PGSIZE` past the top of the address space and the PGADDR wrap at directory index 1023 are not modelled.
- Vm: `setupkvm`'s result is a parameter, and `kalloc` is a free list that fails only when empty; `memset`, `lcr3` and the hardware are not modelled.
- Fs.ICache.Put: `itrunc` is modelled by its effect on the inode (size 0, no block addresses); its `bfree` calls on the data blocks and the `iupdate` disk write are not modelled.
- Fs: `bread`, `brelse`, `log_write`, `bzero` and the buffer cache are not modelled; the bitmap and indirect blocks are values. Device drivers (`devsw`) are a parameter: the set of majors with a read or write function.
- Fs: sleep locks (`ilock`, `acquiresleep`) and the inode-cache spinlock are not modelled.
- Console.ConsoleInput.Read: `sleep(&input.r, &cons.lock)` is abstracted as the outcome `Asleep`; the wakeup and the resumed read are not modelled.
- Console.Input: r, w and e are unbounded naturals, so the wrap of the `uint` indexes after 2^32 bytes is not modelled.
- Console: `consputc`, the screen, `cprintf`, `procdump`, the console lock and `arrow_handling`/`write_to_buffer` (kernel/console.c:359-415) are not modelled; `consoleintr`'s `getc` is a sequence of keys.
- Console.Account: off the ring's invariant it answers a placeholder; no read runs there.
- ULib.Atoi: the result is an unbounded natural; the `int` overflow of `n*10 + *s - '0'` for long digit runs is not modelled.
- ULib: `gets`, `stat`, `memset` and `get_symlink_data` are not part of this model; `gets`, `stat` and `get_symlink_data` do I/O through system calls.
- Proc: the scheduler, `sleep`, `swtch`, trap frames, open files and the current directory are not modelled; `exit`'s file closing and `iput` of the working directory are left out.

## Findings

| source | as written | input that shows it | evidently intended | confidence | as-written member | corrected member |
|---|---|---|---|---|---|---|
| kernel/proc.c:251-253 | fork copies the mappings of every bound, named slot into the child, even when the parent never mapped it (va 0) | a parent opens and truncates an object and forks before calling shm_map; the child's shm_map of that slot then finds its window mapped and panics with remap | copy the mappings only of slots the parent has mapped | not executed | Proc.ForkSlotAsWritten, Proc.ForkAsWrittenRemaps | Proc.ForkSlot, Proc.ForkSlotThenMap |
| kernel/proc.c:378 | wait clears the object's name for every slot of the reaped child, whether or not other references remain | a parent and its child share an object (reference count 2); the child exits and is reaped; the object keeps one reference but has no name, so the next shm_open of a new name claims it while it is in use | clear the name only when the last reference goes, as shm_close does | not executed | Proc.ReapSlotAsWritten, Proc.ReapAsWrittenBreaks | Proc.ReapSlot, Proc.ReapSlotKeeps |
| kernel/shmem.c:242 and kernel/proc.c:206 | the user's flags are ORed unmasked into the page-table entry, so flag bits above the low 12 move the mapped frame | shm_map with flags 0x1000 of an object whose page is at 0x4000 maps the frame at 0x5000 | keep only the permission bits, flags & 0xFFF | not executed | Shmem.ShmPermAsWritten, Shmem.ShmPermAsWrittenFrame | Shmem.ShmPerm, Shmem.ShmPermKeepsFrame |
| kernel/shmem.c:117-118 and kernel/proc.c:335-336 | unmap and unmap1 dereference walkpgdir's result without checking it, and it is NULL when the page table is absent | shm_open, then shm_map before shm_trunc (maps nothing, records the address), then shm_trunc, then shm_close: the window's page table was never created | skip pages with no page table, which have nothing to unmap | not executed | Shmem.UnmapFromAsWritten, Shmem.UnmapAsWrittenNullEntry | Shmem.UnmapFrom, Shmem.UnmapMapping |
| kernel/console.c:353 | history_buff stores at current_pos and increments it with no bound, so a line longer than 128 bytes writes past the 128-byte string | consoleread of a 129-byte line without a newline, in reads that reach the 129th byte | stop storing once the entry is full | not executed | Console.HistBuffAsWritten, Console.HistOverrun | Console.HistBuff, Console.HistBuffAppends |
