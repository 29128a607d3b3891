# violet in Dafny

A model of the hard core of violet, a small VT-x hypervisor with its EFI loader, and proofs about it.

The main part is the extended-page-table engine. At start-up violet reads the memory-type range registers
(MTRRs) into a table of intervals, then builds a four-level page-table tree for the first 512 GiB of
guest-physical memory, mapping each 2 MiB by one leaf where the memory type is uniform and by 512 leaves
where it is not. The simple thing this speeds up is the per-address rule of the Intel SDM (Vol. 3A sections
11.11.2.3 and 11.11.4.1). The theorems say that the structure agrees with the rule, and exactly when, in terms
of the registers alone; `EptExamples` gives register contents on which it does not.

The second part is the ELF loader: which byte of the image comes from where, that relocation is affine
in the load base, exactly which writes a file causes and in which order, and exactly when a GOT word or a
symbol's slot ends up with the address it should have. Smaller parts are the loader's allocation table against the firmware's ledger, the TSS
descriptor writer and reader, the number printer, and the VM-entry guest-state checker.

## How it is modelled

- Words are natural numbers below 2^64. `Bits` gives the C bit-field read and write on them, `BitOps` the
  bitwise operators bit by bit, `Bytes` little-endian storage. Wrap-around is written out. `VmxCode` has the
  guest-state checker with its early returns over bit fields of words; in `VmxCheck`, where the rules are stated
  and compared with the manual, a VMCS field is the function from bit number to bit.
- The rules the code is held against are written without the code's own functions, on raw registers, file bytes,
  header fields and bits with their numbers spelled out: the `Sdm` members of `MtrrRule`, `EptWalk.Translate`,
  `EptConfig`, `ElfOrigins`, and the rule predicates of `VmxCheck`.
- The header with the register and table layouts is a submodule that is not part of this model. Layouts
  follow the Intel SDM: Vol. 3A section 11.11.2 (MTRRs), Vol. 3C section 28.3.2 (EPT entries), Vol. 3A
  sections 3.4.5 and 7.2.3 (descriptors), Vol. 3C sections 24.4 and 26.3.1 (VMCS). MEMORY_TYPE_INVALID is 0xFF.
  The default-type field is taken as 8 bits wide; for the valid types a 3-bit field reads the same.
- Model-specific registers, VMCS fields, the frames `ldr_malloc` hands out, the firmware's answers and the
  previous contents of fresh memory are arbitrary parameters. Physical memory is a map from each 36-bit frame
  number to its 512 words; `ldr_malloc` returns distinct frames of it with whatever they hold.
- A state the source changes in place is a class (`MtrrState`, `EptBuilder`, `PageAllocator`) or an array that
  a method modifies; each method is proved against a function, and the functions carry the theorems.
- `MtrrRule.Programmed` is what the processor accepts: valid types, contiguous masks, aligned bases, a physical
  address width of 32 to 48 bits. `MtrrRule.SdmDefined` says that the SDM defines the overlap at an address.

Where the code does not do what it seems meant to, the model follows the code, and a lemma states the exact
condition under which the intended property holds:

- `ept.cc:225` puts the address shifted by 12 into a frame field that starts at bit 21: translation is the
  identity exactly for split pages and the first 2 MiB (`IdentityExactly`), two guest addresses can reach the
  same host address exactly in the case `NoAliasingExactly` names, and a leaf has the type of the memory it
  really leads to exactly as `AllHostTypesExactly` says. Where the shifted frame is beyond the physical address
  width the leaf is misconfigured, and only there (`MisconfiguredExactly`). Inputs: `TwoGuestsOneHost`,
  `HostTypeMissed`.
- `ept.cc:133` only looks at where a query starts: a range that begins inside a 2 MiB page can be missed
  (`LargePageMissesInnerRange`; from the registers on, `InnerRangeMissed`). Which pages are split is read off the
  registers by `SplitExactly`; the unsplit ones are right exactly when the edges of variable ranges inside
  them have the type of their start (`AllTypesCorrectExactly`).
- `ept.cc:112` takes the lowest mask bit as the size: right exactly for contiguous masks and aligned bases
  (`IntervalExactly`). `ept.cc:118` writes past the table exactly when it is full (`OverrunExactly`).
  `ept.cc:255` compares a three-bit field with 0xFF (`ErrorBranchDead`).
- `elf_mapper.cc:49` copies every odd segment type, zeroes every even one, and never clears the tail
  (`CopiedIsOdd`, `TailNotCleared`). `elf_mapper.cc:170` takes the addend of the relocation numbered like the
  section and adds no base: the slot is right for every base exactly when the base is added once by another
  write and that relocation's addend is the same (`SymbolRelocatedExactly`; a file on which it is not:
  `WrongAddendLoaded`). The pointer kept at line 71 to a loop variable is modelled as the value found.
- `allocator.cc:19` clears 256 of 4096 entries: sound exactly if the others were null (`SoundRunsExactly`).
- `gdt.cc:52` divides before adding, so the buffer has limit + 1 elements; `gdt.cc:56` copies one byte too few
  (`LastDescriptorExactly`); `gdt.cc:60` is truncated to 13 bits (`RoundTripExactly`).
- `itoa.cc:31` pads with NUL (`PaddingExactly`); `itoa.cc:15` tests an unsigned value for being negative.
- `vmxcheck.cc:106` reads CR0.PE the wrong way round, `113` never filters by type, `144` tests for all low limit
  bits zero where the SDM says any, and `338` is the reverse of the SDM's rule. `StackDplExactly`,
  `DataDplExactly`, `GranularityExactly` and `ActivityExactly` compare each with the SDM, and
  `AcceptedObeysExactly` says exactly which accepted guests obey the manual, `ObeyingRejectedExactly` exactly which
  guests that obey it are rejected. Inputs: `LaxGuestAccepted`, `ConformingGuestRejected`.
- `mp.cc:40` returns before starting the other processors, so `ept_init_core` runs on one core only;
  `LaterBuildKeeps` covers further builds.

## Model

| member | source | states |
|---|---|---|
| `EptCorrect.AllTypesCorrectExactly` | hypervisor/ept.cc:65-268 | every physical address below 512 GiB gets, in the leaf the processor reaches, the type the SDM rule gives it, if and only if the rule defines them all and, in every 2 MiB page the registers do not cut, gives the edges of variable ranges inside the type of the page's start |
| `EptCorrect.MemoryTypesCorrect` | hypervisor/ept.cc:65-268 | the same for one address, under the condition that no variable range begins strictly inside its 2 MiB page |
| `EptCorrect.InitEpt` | hypervisor/main.cc:83-89 | reading the MTRRs and then building the tree, on the one core that `loader/efi/mp.cc:33-43` calls, establishes the hypotheses and the end-to-end result, for arbitrary registers and frames; the pointer for the VMCS is the tree's root |
| `EptCorrect.PageRightExactly` | hypervisor/ept.cc:210-226 | one unsplit 2 MiB page is right throughout exactly when the rule defines the type of its start and gives it to the edges of variable ranges inside |
| `EptCorrect.SplitExactly` | hypervisor/ept.cc:210-240 | the builder splits exactly the pages that the registers cut: the first one with fixed ranges on, or one whose start but not whose end a variable range matches, with no uncacheable range of smaller number matching the start |
| `EptCorrect.LeafRightIs` | hypervisor/ept.cc:210-252 | an address in a split page has the right leaf type exactly when the rule defines its type, in an unsplit page exactly when the rule gives it the large query's type |
| `EptHost.AllHostTypesExactly` | hypervisor/ept.cc:65-268 | every address gets the type the rule gives the host address its leaf leads to, if and only if the split pages are defined throughout and each unsplit page n has the type of the start of GiB n, there and at the edges inside |
| `EptHost.HostPageExactly` | hypervisor/ept.cc:218-225 | the same for one unsplit page |
| `EptConfig.MisconfiguredExactly` | hypervisor/ept.cc:184-267 | the walk for an address meets an entry the SDM calls misconfigured exactly if the address is in an unsplit page n and GiB n is beyond the physical address width |
| `EptConfig.LargeLeafExactly` | hypervisor/ept.cc:218-225 | the 2 MiB leaf of page n has a reserved bit set or a reserved type exactly if GiB n is beyond the physical address width |
| `EptExamples.InnerRangeMissed` | hypervisor/ept.cc:133 | for registers with one uncacheable range from 3 MiB to 4 MiB, the leaf for 3 MiB is write-back and leads to 1 GiB + 1 MiB |
| `EptExamples.TwoGuestsOneHost` | hypervisor/ept.cc:225 | for registers with one uncacheable page at 1 GiB, 2 MiB and 1 GiB reach the same host address with different types |
| `EptExamples.HostTypeMissed` | hypervisor/ept.cc:225 | for registers with the second GiB uncacheable, the leaf for 2 MiB is write-back and leads to uncacheable memory |
| `EptExamples.OneRangeTable` | hypervisor/ept.cc:94-116 | these registers are accepted by the processor and decode to the one interval |
| `EptCorrect.LeafTypeIs` | hypervisor/ept.cc:210-252 | the type found by translation is the 4 KiB query's for a split page and the 2 MiB query's otherwise, never truncated |
| `EptCorrect.QueriesValid` | hypervisor/ept.cc:123-173 | over programmed registers a 4 KiB query always gives a valid type, a 2 MiB query a valid one or none |
| `EptWalk.WalkRefinesBuild` | hypervisor/ept.cc:294-334 | for every address below 512 GiB the walk returns exactly the entries written for it, with a null PT entry exactly for an unsplit page |
| `EptWalk.IntendedWords` | hypervisor/ept.cc:192-252 | the words at those entries are the ones the builder computed for that address |
| `EptWalk.HighAddressesUnmapped` | hypervisor/ept.cc:302-312 | above 512 GiB the walk meets an all-zero PML4 entry and translation faults |
| `EptWalk.TranslateIs` | hypervisor/ept.cc:210-267 | where every address goes and with which type, from a pointer VM entry accepts: itself through a 4 KiB leaf, the same offset of GiB n through the leaf of 2 MiB page n |
| `EptWalk.IdentityExactly` | hypervisor/ept.cc:225 | translation is the identity exactly on split pages and the first 2 MiB |
| `EptWalk.LargeFrameExactly` | hypervisor/ept.cc:225 | a 2 MiB leaf maps its page to itself exactly when its frame field is the address shifted by 21; the stored value fits the field |
| `EptWalk.NoAliasingExactly` | hypervisor/ept.cc:210-252 | distinct guest addresses reach distinct host addresses exactly when no GiB starts with a split page while the 2 MiB page of the same number is unsplit |
| `EptTree.TablesFormATree` | hypervisor/ept.cc:184-267 | a frame has a parent entry exactly if it was taken for a table below the root, and never two |
| `EptTree.SlotSurjective` | hypervisor/ept.cc:197-262 | every frame taken after the root is held by some pointer entry |
| `EptTree.SlotInjective` | hypervisor/ept.cc:197-262 | no two pointer entries hold the same allocation |
| `EptTree.LaterBuildKeeps` | hypervisor/ept.cc:184-267 | a later build from the same allocator leaves a finished tree as it is |
| `EptBuild.EptBuilder.InitCore` | hypervisor/ept.cc:175-268 | the finished tree, its pointer, exactly 514 plus the number of split pages frames taken, and every other frame of memory unchanged |
| `EptBuild.EptBuilder.InitRoot` | hypervisor/ept.cc:184-196 | the cleared PML4 with its one entry, nothing else changed |
| `EptBuild.EptBuilder.FillPdpts` | hypervisor/ept.cc:197-262 | the outer loop completes all 512 directories from the root, no other frame changed |
| `EptBuild.EptBuilder.FillPdpt` | hypervisor/ept.cc:197-262 | one round of the outer loop adds one PDPT entry, its directory and the tables of its entries, and keeps the root, everything completed before and every other frame |
| `EptBuild.EptBuilder.FillPd` | hypervisor/ept.cc:210-261 | the middle loop completes a directory and the page tables of its split entries, and writes nothing else |
| `EptBuild.EptBuilder.FillPdEntry` | hypervisor/ept.cc:212-260 | one PD entry: a leaf if the 2 MiB query has a type, else a pointer to a new complete page table |
| `EptBuild.EptBuilder.FillPt` | hypervisor/ept.cc:241-259 | the page table holds the 512 leaves of its 2 MiB page, no other frame changes |
| `EptBuild.EptBuilder.Malloc` | loader/efi/loader.cc:67-78 | frames are handed out in order, each once |
| `EptBuild.Supply.PtBeforePd` | hypervisor/ept.cc:197-262 | allocation order: the tables of earlier directories come before a directory |
| `EptBuild.Supply.PdBeforePt` | hypervisor/ept.cc:197-262 | allocation order: a directory comes before the tables of its entries |
| `EptEntry.PointerReads` | hypervisor/ept.cc:192-196 | a pointer entry reads back as accessible, not large, with the frame written |
| `EptEntry.SmallLeafReads` | hypervisor/ept.cc:245-252 | a 4 KiB leaf reads back as accessible with the page and the type modulo 8 |
| `EptEntry.LargeReads` | hypervisor/ept.cc:218-225 | a 2 MiB leaf reads back as accessible and large with frame field and type |
| `EptEntry.EptPointerReads` | hypervisor/ept.cc:264-267 | the EPT pointer leads back to the root frame and is one VM entry accepts |
| `EptEntry.EptPointerFields` | hypervisor/ept.cc:264-267 | every bit of the EPT pointer: type 6 in bits 0-2, walk length 3 in bits 3-5, the root frame from bit 12, zeros elsewhere |
| `EptEntry.PointerFields` | hypervisor/ept.cc:192-208 | every bit of a pointer entry: 7 in bits 0-2, the frame from bit 12, zeros elsewhere |
| `EptEntry.SmallLeafFields` | hypervisor/ept.cc:245-252 | every bit of a 4 KiB leaf: 7 in bits 0-2, the type in bits 3-5, the page from bit 12, zeros elsewhere |
| `EptEntry.LargeFields` | hypervisor/ept.cc:218-225 | every bit of a 2 MiB leaf: 7 in bits 0-2, the type in bits 3-5, bit 7, the frame field from bit 21, zeros elsewhere |
| `EptEntry.PackPointer` | hypervisor/ept.cc:204-208 | the field assignments of a pointer entry give the word the tree is specified with |
| `EptEntry.PackSmallLeaf` | hypervisor/ept.cc:245-252 | the field assignments of a 4 KiB leaf give that word |
| `EptEntry.PackLargeLeaf` | hypervisor/ept.cc:219-225 | the field assignments of a 2 MiB leaf give that word |
| `EptEntry.PackEptPointer` | hypervisor/ept.cc:264-267 | the field assignments of the EPT pointer give that word |
| `EptEntry.ReadsAreFields` | hypervisor/ept.cc:302-329 | the reads of the walk are the bit fields of the entry formats |
| `EptEntry.ErrorBranchDead` | hypervisor/ept.cc:255-258 | the builder's error test can never succeed |
| `MtrrRule.ScanIsSdm` | hypervisor/ept.cc:65-173 | the query on the page of an address is the type the SDM rule, stated on the raw registers, gives that address |
| `MtrrRule.Decoding` | hypervisor/ept.cc:67-93 | range count, default type and fixed-range switch are the SDM's fields of registers 0xFE and 0x2FF |
| `MtrrRule.DecodingRange` | hypervisor/ept.cc:94-108 | enable bit, type and frame numbers of range i are the SDM's fields of registers 0x200 + 2i and 0x201 + 2i |
| `MtrrRule.IntervalExactly` | hypervisor/ept.cc:110-115 | interval and mask select the same frames exactly for a contiguous mask and an aligned base |
| `MtrrRule.IntervalRefinesMask` | hypervisor/ept.cc:110-115 | for such a range, membership agrees frame by frame and the end does not exceed the address space |
| `MtrrRule.EntryIsMatch` | hypervisor/ept.cc:94-116 | a decoded entry contains an address exactly when the register's mask test matches it |
| `MtrrRule.TypesAgree` | hypervisor/ept.cc:94-116 | the types of the matching table entries are the types the processor combines |
| `MtrrRule.FixedEntryType` | hypervisor/ept.cc:34-48 | each fixed entry has the type the SDM gives every address in it |
| `MtrrRule.TableIsProper` | hypervisor/ept.cc:65-121 | every decoded table is enabled throughout, page-aligned and validly typed |
| `MtrrRule.PageZeroSplits` | hypervisor/ept.cc:138-141 | with fixed ranges on, the first 2 MiB page is always split |
| `MtrrSplit.NoTypeExactly` | hypervisor/ept.cc:123-173 | the 2 MiB query has no answer exactly on the pages the registers cut |
| `MtrrSplit.InvalidExactly` | hypervisor/ept.cc:123-173 | over any proper table, the 2 MiB query is INVALID exactly if a range holding the start ends inside the page and no fixed or uncacheable range before it holds the start |
| `MtrrRegion.RegionExactly` | hypervisor/ept.cc:123-173 | a region has one SDM type exactly when its start and the edges of variable ranges inside have it |
| `MtrrRegion.EdgeIsBound` | hypervisor/ept.cc:110-115 | the edges are the begins and ends of the decoded intervals |
| `MemoryType.GetMemoryType` | hypervisor/ept.cc:123-173 | the loop with its early exits computes the recursive scan |
| `MemoryType.ScanIsPrecedence` | hypervisor/ept.cc:123-173 | where no fixed range matches, a 4 KiB scan is the SDM precedence rule on the set of matching types |
| `MemoryType.ScanUncached` | hypervisor/ept.cc:148-151 | a matching uncacheable range decides wherever it stands |
| `MemoryType.ScanWriteThrough` | hypervisor/ept.cc:153-164 | among WT and WB ranges one WT gives WT |
| `MemoryType.ScanUniform` | hypervisor/ept.cc:161-164 | ranges of one type give that type, no range the default |
| `MemoryType.ScanFixed` | hypervisor/ept.cc:143-146 | the first matching fixed range decides |
| `MemoryType.ScanLast` | hypervisor/ept.cc:153-172 | for any overlap without fixed or uncacheable ranges, defined or not: the last match decides, but WT if it is WB and a WT matched with only WT and WB since |
| `MemoryType.PrecedenceUnique` | hypervisor/ept.cc:123-173 | the rule determines the type |
| `MemoryType.OrderIrrelevant` | hypervisor/ept.cc:127-165 | permuting the variable ranges after the fixed ones does not change the answer, where a fixed range matches or the overlap is defined |
| `MemoryType.SmallPageHasType` | hypervisor/ept.cc:138-141 | a 4 KiB query over a proper table is never INVALID |
| `MemoryType.LargePageExactly` | hypervisor/ept.cc:123-173 | if the 2 MiB query has a type, all 512 pages have it exactly when the pages at inner range boundaries do |
| `MemoryType.LargePageSound` | hypervisor/ept.cc:123-173 | without an inner range start all 512 pages have the large query's type, despite the early exits |
| `MemoryType.SameBetweenBoundaries` | hypervisor/ept.cc:133-136 | neighbouring pages differ in type only across a range boundary |
| `MemoryType.LargePageMissesInnerRange` | hypervisor/ept.cc:133 | a concrete table where the large query misses an uncacheable range |
| `MemoryType.ScanStops` | hypervisor/ept.cc:131 | nothing after the first disabled entry is read |
| `Mtrr.MtrrState.InitMtrr` | hypervisor/ept.cc:65-121 | the table is the decoded entries followed by disabled ones, the default type is set, and the terminator overruns exactly if the table is full |
| `Mtrr.MtrrState.ReadFixed` | hypervisor/ept.cc:30-49 | appends the eight ranges of one register, advances index and offset, changes nothing else |
| `Mtrr.MtrrState.ReadVariable` | hypervisor/ept.cc:94-116 | appends one interval per enabled variable range, in order |
| `Mtrr.ByteIsField` | hypervisor/ept.cc:9-13 | the bytes of a fixed-range register are its 8-bit fields |
| `Mtrr.RegisterFields` | hypervisor/ept.cc:96-104 | frame numbers and enable bits are the bit fields of the registers |
| `Mtrr.OverrunExactly` | hypervisor/ept.cc:118 | the table is full exactly when fixed ranges are on and all 255 variable ranges exist and are enabled |
| `Mtrr.FixedTableShape` | hypervisor/ept.cc:80-90 | the 88 fixed entries tile the first MiB in order, entry e typed by byte e % 8 of register e / 8 |
| `Mtrr.VariableTableContents` | hypervisor/ept.cc:94-116 | the variable part holds exactly the intervals of the enabled registers |
| `Paging.UnpackPack` | freestanding/x86utils.cc:16-38 | unpacking packed indices gives them back |
| `Paging.PackUnpack` | freestanding/x86utils.cc:16-38 | packing unpacked indices gives the page of the address |
| `Paging.PackIsFields` | freestanding/x86utils.cc:27-38 | the four bit-field writes from a zero word are the index arithmetic |
| `Paging.UnpackIsFields` | freestanding/x86utils.cc:16-25 | the four reads are the bit fields of the address |
| `Bits.FieldWritten` | freestanding/x86utils.cc:3-14 | a bit-field write is read back truncated, bits below and above kept |
| `Bits.FieldFrame` | freestanding/x86utils.cc:3-14 | a bit-field write leaves disjoint fields alone |
| `ElfMapper.Mapper.MapTo` | freestanding/elf_mapper.cc:34-187 | the image is the segment image with the file's list of relocation writes applied in order; the list does not depend on the base |
| `ElfMapper.LoadsDiffer` | freestanding/elf_mapper.cc:34-187 | two loads at different bases differ, slot by slot, by the slot's factor times the distance, and nowhere else |
| `ElfMapper.Mapper.RelocateGot` | freestanding/elf_mapper.cc:131-140 | the GOT loop adds the base to every slot of the section |
| `ElfMapper.Mapper.RelocateRela` | freestanding/elf_mapper.cc:142-185 | the RELA loop performs the write of each handled relocation |
| `ElfMapper.Mapper.FindTables` | freestanding/elf_mapper.cc:61-103 | the two searches return the dynamic string and symbol tables the next four lemmas describe, or none |
| `ElfMapper.DynstrIsFirst` | freestanding/elf_mapper.cc:61-73 | the first string table named .dynstr is found |
| `ElfMapper.DynstrMissing` | freestanding/elf_mapper.cc:61-73 | none is found exactly if there is none |
| `ElfMapper.DynsymIsFirst` | freestanding/elf_mapper.cc:90-103 | the first dynamic symbol table is found |
| `ElfMapper.DynsymMissing` | freestanding/elf_mapper.cc:90-103 | none is found exactly if there is none |
| `ElfMapper.Mapper.ResolveImport` | freestanding/elf_mapper.cc:190-201 | the search loop computes the recursive lookup |
| `ElfMapper.ResolveIsFirst` | freestanding/elf_mapper.cc:190-201 | the first import of that name decides |
| `ElfMapper.ResolveMissing` | freestanding/elf_mapper.cc:190-201 | without an import of that name the address is null |
| `ElfMapper.OpsFit` | freestanding/elf_mapper.cc:125-186 | if each section's slots are inside the image, so are all writes |
| `ElfMapper.OpsAligned` | freestanding/elf_mapper.cc:125-186 | if each section's slots are aligned, so are all writes |
| `ElfReloc.RelocationIsAffine` | freestanding/elf_mapper.cc:125-186 | every aligned slot ends as constant plus factor times base modulo 2^64 |
| `ElfReloc.TwoLoads` | freestanding/elf_mapper.cc:125-186 | the difference between two bases is the factor times their distance |
| `ElfReloc.PointerRelocatedExactly` | freestanding/elf_mapper.cc:131-161 | in a list of writes, a slot that is only added to is moved by the base, for every base, exactly when the number of additions is 1 modulo 2^64 |
| `ElfReloc.ConstantIsLastAssigned` | freestanding/elf_mapper.cc:162-174 | after the last overwrite of a slot, its constant is the value stored then |
| `ElfSymbols.SymbolRelocatedExactly` | freestanding/elf_mapper.cc:162-174 | if no later symbol relocation has its slot, the slot of a symbol of the image holds base + value + its own addend for every base, exactly when the GOT words and RELATIVE relocations after it add the base once modulo 2^64 and the relocation numbered like the section has the same addend |
| `ElfSymbols.ImportKeptExactly` | freestanding/elf_mapper.cc:162-167 | the slot of an imported symbol holds the resolved address for every base exactly when the GOT words and RELATIVE relocations after it add the base 0 times modulo 2^64 |
| `ElfSymbols.LoadedIs` | freestanding/elf_mapper.cc:125-186 | the slot of a symbol relocation that is not overwritten holds the stored value plus the base as often as the file adds it later |
| `ElfSymbols.PointerSlotExactly` | freestanding/elf_mapper.cc:125-161 | a slot no symbol relocation targets is moved by the base, for every base, exactly when the GOT words and RELATIVE relocations there number 1 modulo 2^64 |
| `ElfSymbols.GotWordRelocated` | freestanding/elf_mapper.cc:131-140 | a GOT word nothing else writes holds its segment value plus the base |
| `ElfSymbols.FactorIs` | freestanding/elf_mapper.cc:125-186 | the factor of a symbol's slot is the number of GOT words and RELATIVE relocations of it that come later in the file |
| `ElfOrigins.OriginsAre` | freestanding/elf_mapper.cc:125-186 | the writes are those of exactly the words of sections named .got and the relocations of types 6, 7 and 8, ordered by section, GOT words first, then by number |
| `ElfOrigins.AddersExactly` | freestanding/elf_mapper.cc:125-161 | the base is added to a slot once for each GOT word and each RELATIVE relocation there |
| `ElfOrigins.RelocationIs` | freestanding/elf.h:20-46 | each relocation performs the write its three words and the symbol's entry of 24 bytes dictate |
| `ElfOrigins.SymbolTablesAre` | freestanding/elf_mapper.cc:61-103 | the tables used are the first section of type 3 named .dynstr and the first of type 11 |
| `ElfExample.WrongAddendLoaded` | freestanding/elf_mapper.cc:170 | a loadable file whose slot gets the base once and is off by 8 at every base |
| `ElfReloc.FactorCounts` | freestanding/elf_mapper.cc:125-186 | the factor counts the additions of the base after the last overwrite |
| `ElfReloc.FactorAtMostOne` | freestanding/elf_mapper.cc:125-186 | the factor is 0 or 1 if no slot has two GOT or RELATIVE writes |
| `ElfReloc.RelocationFrame` | freestanding/elf_mapper.cc:125-186 | bytes outside all slots keep their value |
| `ElfSegments.MapSegments` | freestanding/elf_mapper.cc:39-57 | the loop leaves the segment image |
| `ElfSegments.LastWriterWins` | freestanding/elf_mapper.cc:41-57 | in the image the loop leaves, the last header that writes a byte decides it: file[offset + (x - vaddr)] for an odd type over filesz bytes, 0 for an even one over memsz bytes |
| `ElfSegments.UncoveredByte` | freestanding/elf_mapper.cc:39-57 | a byte no header writes is the file's for the first 64 bytes, else its old value |
| `ElfSegments.TailNotCleared` | freestanding/elf_mapper.cc:49-56 | the tail of a loaded segment is zero after loading exactly if it was before |
| `ElfSegments.Phdr.CopiedIsOdd` | freestanding/elf_mapper.cc:49 | the type test accepts exactly the odd types |
| `ElfSegments.GetMappedSize` | freestanding/elf_mapper.cc:15-26 | the largest segment end, or 0 |
| `ElfSegments.LargestEndUnique` | freestanding/elf_mapper.cc:15-26 | the largest end is unique, so the size is determined |
| `ElfSegments.ContainedBelowLargestEnd` | freestanding/elf_mapper.cc:39-57 | for well-sized segments every write is below the larger of header size and mapped size |
| `ElfSegments.LoaderAllocationSuffices` | loader/efi/loader.cc:97-106 | the pages the loader allocates hold all writes exactly when the mapped size is not zero |
| `EfiCore.NumPagesExactly` | freestanding/efi/core.h:7-9 | the page count is the least sufficient one exactly when rounding up does not wrap |
| `Allocator.LedgerOverEveryRun` | loader/efi/allocator.cc:22-53 | over every run from an all-null table, live slots and outstanding allocations are in bijection with equal counts, and each free returns an outstanding allocation with its own count |
| `Allocator.SoundRunsExactly` | loader/efi/allocator.cc:9-53 | every run is sound exactly when the table starts all-null |
| `Allocator.InitExactly` | loader/efi/allocator.cc:19 | the table starts all-null exactly when the entries not cleared were null |
| `Allocator.NullExactly` | loader/efi/allocator.cc:22-39 | allocate returns null exactly when the table is full or the firmware fails |
| `Allocator.NextAlloc` | loader/efi/allocator.cc:22-39 | one allocation keeps table, ledger and log in step |
| `Allocator.NextFree` | loader/efi/allocator.cc:41-53 | one deallocation keeps them in step, and the address is no longer out |
| `Allocator.FreesOne` | loader/efi/allocator.cc:43-52 | a deallocation sends at most one free, with the slot's count |
| `Allocator.PageAllocator.EfiAllocate` | loader/efi/allocator.cc:22-39 | new table, returned address and firmware calls, full table and failure included |
| `Allocator.PageAllocator.EfiDeallocate` | loader/efi/allocator.cc:41-53 | every matching slot is cleared and freed, the others kept |
| `Allocator.AllocateSlots` | loader/efi/allocator.cc:22-39 | exactly the first slot with a null address gets the reply and the page count, also after a failure |
| `Allocator.DeallocateSlots` | loader/efi/allocator.cc:41-53 | exactly the slots with the address become (0, 0) |
| `Allocator.PageAllocator.constructor` | loader/efi/allocator.cc:9-20 | the first 256 entries are cleared, the rest is what the pages held |
| `Gdt.RoundTripExactly` | loader/efi/gdt.cc:58-83 | the new selector reads back the TSS address, for every address, exactly for old limits 7 to 0xFFFE |
| `Gdt.BusyRoundTrip` | loader/efi/gdt.cc:58-83 | the same once the processor has marked the TSS busy |
| `Gdt.EfiGdtInit` | loader/efi/gdt.cc:44-84 | the new table byte by byte, the TSS cleared, the new base and limit of the GDTR and the selector |
| `Gdt.WriteTss` | loader/efi/gdt.cc:66-78 | the sixteen bytes of the descriptor and nothing else |
| `Gdt.TssDescriptorFields` | loader/efi/gdt.cc:70-78 | limit 103, type 9, system, privilege 0, present, reserved bytes zero |
| `Gdt.NewGdtBytes` | loader/efi/gdt.cc:52-78 | every byte of the new table: the descriptor at the rounded end of the old table, the old bytes below the limit, the rest as allocated |
| `Gdt.OldDescriptorsKept` | loader/efi/gdt.cc:56 | descriptors ending before the old table's last byte keep their base |
| `Gdt.LastDescriptorExactly` | loader/efi/gdt.cc:56 | the last descriptor keeps its base exactly if the buffer already held its last byte |
| `Gdt.NewLimitCoversDescriptor` | loader/efi/gdt.cc:60-64 | with an aligned limit the descriptor is the end of the new table |
| `Gdt.TssReadBack` | freestanding/x86utils.cc:49-71 | the reader finds the address in an available or busy descriptor |
| `Gdt.SelectorReadBack` | freestanding/x86utils.cc:73-91 | through a selector with any RPL: 0 for the null index or a local selector, else the address |
| `Gdt.ShortBase` | freestanding/x86utils.cc:49-71 | a descriptor that is not a TSS has the 32-bit base of its own eight bytes |
| `Gdt.BaseBytes` | freestanding/x86utils.cc:53-57 | the mask removes the sign extension of the promoted high byte |
| `Gdt.LongBase` | freestanding/x86utils.cc:59-68 | the upper half is combined without interference |
| `Itoa.Itoa` | freestanding/libc/itoa.cc:3-51 | the buffer holds the reversed digits and padding, a terminator, and is unchanged beyond; its C string is the numeral of the value, or empty if the radix is above 16 or the width above the digit count |
| `Itoa.PutDigits` | freestanding/libc/itoa.cc:21-27 | the digit loop writes the digits, lowest first |
| `Itoa.DigitChars` | freestanding/libc/itoa.cc:23-24 | the digits are 0 to 9 and A to F |
| `Itoa.PutPadding` | freestanding/libc/itoa.cc:29-32 | the padding loop appends NUL bytes up to the width |
| `Itoa.ReversePrefix` | freestanding/libc/itoa.cc:43-48 | the swap loop reverses the prefix in place |
| `Itoa.NumeralIsExact` | freestanding/libc/itoa.cc:21-48 | the printed numeral, read most significant digit first, is the value |
| `Itoa.NumeralIsCanonical` | freestanding/libc/itoa.cc:21-48 | no leading zero except for 0, no NUL inside |
| `Itoa.NumeralLength` | freestanding/libc/itoa.cc:21-27 | radix^(len-1) <= value < radix^len |
| `Itoa.HexFitsConsoleBuffer` | loader/efi/console.cc:112-117 | hexadecimal fits the 17-byte buffer |
| `Itoa.PaddingExactly` | freestanding/libc/itoa.cc:29-32 | the C string is the numeral exactly when the width is at most the digit count, else it is empty |
| `VmxCheck.AcceptedGuest` | hypervisor/vmxcheck.cc:159-354 | acceptance forces IA-32e mode, CR0.PG, CR4.PAE, LMA and LME when EFER is loaded, CS type 9 or 11 with CS.DPL = SS.DPL, and privilege 0 whenever CR0.PE is set, which it is for a restricted guest |
| `VmxCode.CheckGuest` | hypervisor/vmxcheck.cc:159-354 | the checker with its early returns accepts exactly the guests that meet the agreed rules of SDM sections 26.3.1.1 to 26.3.1.5, the four deviating checks as written, and the supported modes |
| `VmxCode.CheckSegment` | hypervisor/vmxcheck.cc:19-157 | one segment's checks, over bit fields of the truncated words |
| `VmxCode.CheckType` | hypervisor/vmxcheck.cc:32-76 | the first switch, on the type |
| `VmxCode.CheckDpl` | hypervisor/vmxcheck.cc:83-118 | the second switch, on the privilege |
| `VmxCode.CheckControls` | hypervisor/vmxcheck.cc:161-214 | controls, CR0, CR4 and EFER |
| `VmxCode.CheckTask` | hypervisor/vmxcheck.cc:279-304 | the task register |
| `VmxCode.CheckActivity` | hypervisor/vmxcheck.cc:321-351 | activity and interruptibility |
| `VmxCheck.AcceptanceExactly` | hypervisor/vmxcheck.cc:19-354 | the segment-by-segment checks are, rule by rule, the agreed rules, the deviations and the supported modes |
| `VmxCheck.AcceptedObeysExactly` | hypervisor/vmxcheck.cc:19-354 | an accepted guest obeys the SDM's rules if and only if CR0.PE is set or SS.DPL is 0, no segment in use nor TR is granular with mixed low limit bits, and nothing blocks |
| `VmxCheck.ObeyingRejectedExactly` | hypervisor/vmxcheck.cc:19-354 | a guest that obeys the SDM's rules is rejected if and only if it is not in IA-32e mode, its code is not type 9 or 11, it loads one of four further registers, CR0.PE is set with SS.DPL not 0, a data segment holds conforming code with DPL < RPL, or something blocks |
| `VmxCheck.StackDplExactly` | hypervisor/vmxcheck.cc:100-109 | the written SS check says what the SDM says exactly when SS.DPL is 0, CS has type 3, or the RPL test rejects already |
| `VmxCheck.AcceptedStackDpl` | hypervisor/vmxcheck.cc:100-109 | an accepted guest meets the SDM's SS rule exactly when CR0.PE is set or SS.DPL is 0 |
| `VmxCheck.DataDplExactly` | hypervisor/vmxcheck.cc:112-117 | the written data-segment check is DPL >= RPL for any type; it implies the SDM's rule and rejects beyond it exactly usable conforming code with DPL < RPL |
| `VmxCheck.LaxGuestAccepted` | hypervisor/vmxcheck.cc:85-354 | an accepted guest that breaks three of the four rules |
| `VmxCheck.ConformingGuestRejected` | hypervisor/vmxcheck.cc:112-117 | a guest that obeys the SDM's rules and is rejected for the privilege of DS alone |
| `VmxCheck.AcceptedGranularity` | hypervisor/vmxcheck.cc:141-154 | an accepted guest meets the SDM's granularity rule everywhere exactly when no segment in use nor TR is granular with mixed low limit bits |
| `VmxCheck.GranularityExactly` | hypervisor/vmxcheck.cc:141-154 | the written check accepts beyond the SDM exactly the granular segments with mixed low limit bits |
| `VmxCheck.ActivityExactly` | hypervisor/vmxcheck.cc:338-341 | an accepted guest meets the SDM activity rule exactly when nothing blocks |

## Left out

- The MTRR enable bit: the source never reads it; it is taken to be set.
- A valid variable range with an empty mask, `efi_deallocate(nullptr)` and a radix below 2: the source does not handle them, so they are excluded by precondition.
- EptBuild.EptBuilder.Malloc: does not return the null pointer of a failed allocation; the builder does not check for it, so the frames needed are required to be there.
- `cpu_init` and the host entry: long sequences of VMCS writes and privileged instructions; only the EPT pointer is used.
- Accessed and dirty flags and execute-only mappings of the EPT: translation models presence, leaf size, frame and type.
- VM-entry rules the checker does not look at (CR3, debug registers, MSRs other than EFER, virtual-8086 mode, VMCS link pointer).
- Header parsing of the ELF file: program and section headers are given parsed; bytes beyond the end of the file read as zero.
- Relocation slots that are not 8-byte aligned: partially overlapping slots are not affine in the base.
- Allocator.PageAllocator.constructor: does not cover a failed allocation of the table's own pages; the source only logs it and goes on with a null table.
- ElfMapper.Mapper.FindTables: does not search for the static symbol table, whose result the source never uses.
- Console, graphics, file system, input, multiprocessor and interrupt plumbing, the assembly stubs, cache invalidation and logging.
