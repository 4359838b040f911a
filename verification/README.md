# Virtual memory of the kernel: page tables, address spaces, caches

This project models the virtual-memory layer of the kernel for RISC-V (Sv39) and
AArch64 (VMSAv8-64) and proves what its operations achieve, seen from the
processor's side: which addresses translate to what before and after every
operation, in every address space at once.

## How to read it

Memory is a sequence of 64-bit words (in the kernel classes, one mutable array); page
`p` is the 512 words from `512 * p` on. Kernel pointers are byte addresses that lie a
constant offset above physical ones. Words are natural numbers below 2^64. Entry fields
are written with division and remainder, and the `Source...` lemmas prove that these
are the masks and shifts the source uses; the bit operators and their laws are in
`Words`.

General theory, for any entry format:

- `PageTables`: the walk the kernel makes, and a labelling of the table pages which
  says that they form a forest with only kernel tables shared.
- `PageTableUpdates`: what one store does to every walk in every address space.
- `Hardware`: the processor's own walk, which reads entries by the architecture's
  rules rather than the kernel's, and when the two agree.
- `BootMappings`: entering a path of tables one entry at a time.
- `Tlb`: several harts with translation caches, caches of intermediate tables and
  walks that read one entry per step, with stores, fences and root changes in any
  interleaving.
- `AsidPools`: the two-level ASID table as a partial map.
- `VirtualAddresses`: table indices and the aligned ranges they stand for.
- `Pointers`: kernel pointers to the modelled memory. `Options`: a value or its absence.

RISC-V: `RiscvPte` (entries), `RiscvWalk` (Sv39), `RiscvSpaces` (the operations on
memory and their refinement to a flat table), `RiscvKernel` (the operations as the
kernel performs them), `RiscvTheorems`, `RiscvEffects` (what each operation does to the
translations there were), `RiscvAsids` (lookups after bindings and deletions),
`RiscvHarts` (runs of several harts with their caches), `RiscvBoot` (the operations as
calls that make such runs), `RiscvWindow` (the kernel window).

AArch64: `ArmPte`, `ArmWalk`, `ArmSpaces`, `ArmKernel`, `ArmTheorems`, `ArmEffects`,
`ArmAsids`, `ArmEvents` (what unmapping tells the hardware), `ArmTableRemoval` (removing
a table that is not empty), `ArmBoot` (the operations called one after the other),
`ArmWindow`, `ArmCache` (cache maintenance by address) and `ArmSetWay` (by set and way).

The hardware side follows sections 4.3.2 and 4.4 of the RISC-V Privileged Architecture,
version 20211203, and sections D8.3 and C5.3 of Arm DDI 0487. Configuration is
PT_INDEX_BITS = 9, SEL4_PAGE_BITS = SEL4_PAGE_TABLE_BITS = 12 and CONFIG_PT_LEVELS = 3.
Parameters are the pointer offset, the address-space layout, the split of an ASID, the
number of harts, the cache line size, the cache level and size registers, and what
`pageBitsForSize` gives for the caller's page size.

## Where the code differs from its comments

The model follows the code in these places, and the theorems say what holds.

- RISC-V `set_vm_root` is documented to fall back to the kernel's table for a root that
  is not valid. The fallback is installed and then overwritten by the requested root
  (`RiscvTheorems.VmRootInstalled`).
- AArch64 `set_vm_root` falls back only when the ASID is bound to another root; when
  the lookup finds nothing it installs the thread's root (`ArmKernel.VmRootInstalled`).
- AArch64 `unmap_page_table` zeroes the slot and then stores the removed table's first
  entry in it. The table's whole range stops translating exactly when that entry, read
  at the slot's level, leads to no memory (`ArmTableRemoval.UnmapTableClears`). A
  directory whose first entry is a 2 MiB block becomes a 1 GiB block, which maps
  addresses that had no translation (`ArmTableRemoval.RemovalMaps`).
- RISC-V `unmap_page_table` gives up at entries that are tables, so it never unlinks a
  table (`RiscvTheorems.UnmapTableKeepsLinks`).
- Mapping and then unmapping a frame restores memory exactly when the slot was zero
  (the two `FrameRoundTrip` lemmas); neither `map_it_frame_cap` looks at the old entry.
- AArch64 `unmap_page` leaves a block that the processor translates if its bit 58 is set
  or it has address bits below its size; the kernel writes no such entry
  (`ArmEffects.UnmapDecides`, `ArmEffects.WrittenPlain`).
- `clean_invalidate_d_poc` names every line once exactly when in each cache line, set
  and way bits fit in 32; otherwise two lines share a word and it is issued twice
  (`ArmSetWay.EveryLineOnce`).

One more point is no difference but worth knowing: RISC-V `make_user_pte` with write but
no read permission gives an entry that is valid to the kernel and that the processor
rejects (`RiscvPte.UserPteMeans`). Whether that input arises depends on the rights
helpers, which are not part of this model.

## Model

| member | source | states |
|---|---|---|
| PageTables.StoreLeafAnywhere | src/arch/riscv64/pte.rs:81-84 | In any memory, storing a non-table word makes exactly the walks that read the slot stop there and leaves all others |
| PageTables.WalkEndsLabelled | src/arch/riscv64/pte.rs:164-185 | The walk of every address from every root stays inside memory and ends in a table that belongs to that address, at a non-table entry or at level 0 |
| PageTables.Forest | src/arch/riscv64/boot.rs:29-37 | A table that is not shared is used by one root only, at one level, through one chain of entries |
| PageTables.SameStop | src/arch/riscv64/pte.rs:164-185 | Addresses that select the same entries down to where one walk stops make the same walk |
| PageTables.LabelledIsSafe | src/arch/riscv64/pte.rs:164-185 | On a forest every entry the lookup reads lies in memory |
| PageTableUpdates.ReadsExactly | src/arch/riscv64/pte.rs:164-185 | An unshared slot is read by exactly the walks of one aligned range from one root |
| PageTableUpdates.StoreLeaf | src/arch/riscv64/pte.rs:81-84 | A non-table store changes the view of one range of one address space and keeps the forest |
| PageTableUpdates.StoreTable | src/arch/riscv64/boot.rs:29-37 | Entering an unused table moves the walks of one range one level down, changes no other walk and keeps the forest |
| PageTableUpdates.CopiedEntry | src/arch/riscv64/pagetable.rs:127-134 | A copied root entry shows an address the way the kernel's root does |
| PageTableUpdates.ParentExactly | src/arch/aarch64/interface.rs:176-204 | The slot the search finds exists exactly when the table lies below the root on the walk, names it, and never equals the table's own first entry |
| VirtualAddresses.SourceIndex | src/arch/riscv64/utils.rs:13-16 | The arithmetic index is the shift and mask of the source, at every level |
| VirtualAddresses.SpanIsPow2 | src/arch/riscv64/utils.rs:25-38 | The bytes one entry covers are two to the number of bits left |
| VirtualAddresses.AgreeIsSameRange | src/arch/riscv64/pte.rs:164-185 | Selecting the same entries down to a level is lying in the same aligned range |
| Hardware.HwIsDeliver | src/arch/riscv64/pte.rs:164-185 | On labelled tables the processor translates every address of every space as the kernel's walk predicts |
| Hardware.DropEmptyTable | src/arch/aarch64/interface.rs:199-202 | Overwriting the entry for a table that faults throughout by a faulting word changes no translation |
| Hardware.AddEmptyTable | src/arch/aarch64/boot.rs:131-165 | Entering a table that faults throughout over a faulting entry changes no translation |
| Hardware.HwFrame | src/arch/aarch64/interface.rs:199-202 | A store, whatever the word, changes nothing for the processor at addresses whose walk does not read the slot |
| Tlb.StepCoherent | src/arch/riscv64/satp.rs:24-69 | Every step keeps what a hart has cached and walked so far in agreement with the tables, except a store or a change of its own root; a fence restores agreement |
| Tlb.StaleOnlyWhileWaiting | src/arch/riscv64/satp.rs:24-69 | In every interleaving a hart disagrees with the tables only while some store or root change still waits for its fence there |
| Tlb.QuietIsCoherent | src/arch/riscv64/satp.rs:24-69 | With no fence pending, each address a cached walk covers translates to what was cached |
| Tlb.SettledInterleaving | src/arch/riscv64/satp.rs:24-35 | If each hart fences what it did itself, nothing waits in any interleaving of them |
| Tlb.WholeOperationsCoherent | src/arch/riscv64/pagetable.rs:199-201 | Harts that run whole operations, interleaved with each other and the walkers, end with all caches right |
| AsidPools.SplitAsid | src/arch/riscv64/asid.rs:86-93 | Slot and entry number determine the ASID and stay in bounds |
| AsidPools.SplitBySize | src/arch/riscv64/asid.rs:86-93 | ASID i * 2^low + j is entry j of slot i |
| AsidPools.SetEntryRebinds | src/arch/riscv64/asid.rs:40-45 | Rewriting one pool entry rebinds that ASID and no other |
| AsidPools.DeleteAsidRemoves | src/arch/riscv64/asid.rs:34-50 | Deletion removes one key, exactly if it is bound to the given root |
| AsidPools.DeletePoolRemoves | src/arch/riscv64/asid.rs:110-123 | Deletion removes exactly the keys with those high bits, exactly if the slot holds that pool |
| AsidPools.InstallBinds | src/arch/riscv64/asid.rs:55-60 | An installed pool replaces the bindings of its slot by its own |
| AsidPools.WriteThenInstall | src/arch/riscv64/asid.rs:21-28 | The boot thread's ASID is bound to its root and no ASID of another slot changes |
| AsidPools.StepShows | src/arch/riscv64/asid.rs:34-123 | Each operation does to the abstract table, slots and entries without arrays and null, what its abstract counterpart says |
| AsidPools.EveryRun | src/arch/riscv64/asid.rs:21-123 | Over every run of installations, entry writes and deletions the table keeps one pool per slot, shows the abstract table run on its own, and every lookup finds what is bound there |
| RiscvPte.SourceGetters | src/arch/riscv64/pte.rs:138-161 | The fields are the masks and shifts of the source |
| RiscvPte.SourceNew | src/arch/riscv64/pte.rs:43-45 | An entry is flags OR shifted page number, with the bits lost that the shift loses |
| RiscvPte.MakeUserPte | src/arch/riscv64/pte.rs:49-66 | Setting permissions one after the other gives the specified entry |
| RiscvPte.NewFields | src/arch/riscv64/pte.rs:138-161 | Page number and permissions read back from an entry |
| RiscvPte.UserPteIsLeaf | src/arch/riscv64/pte.rs:49-66 | A user entry is never a table, is invalid exactly without permissions, and gives back permissions and every aligned address below 2^56 |
| RiscvPte.UserPteMeans | src/arch/riscv64/pte.rs:49-66 | What the processor makes of a user entry, for all rights |
| RiscvPte.NewPerms | src/arch/riscv64/pte.rs:43-45 | The processor reads an entry's permissions from the flags, whatever the page number |
| RiscvPte.MappedPerms | src/arch/riscv64/pte.rs:70-78 | Valid, read, write, execute, user, global, accessed and dirty of every kind of entry the kernel writes |
| RiscvPte.UserPerms | src/arch/riscv64/pte.rs:49-66 | A user entry carries exactly the rights asked for, and is never global |
| RiscvPte.HardwareAgrees | src/arch/riscv64/pte.rs:119-122 | Every pointer the processor follows is a table to the kernel with the same page, every leaf a valid non-table |
| RiscvPte.WrittenEntries | src/arch/riscv64/pte.rs:70-78 | The kernel's table and leaf entries mean that to the processor |
| RiscvWalk.AgreeIsRange | src/arch/riscv64/pte.rs:164-185 | Canonical addresses reach the same entry at a level exactly when they lie in the same aligned range |
| RiscvSpaces.Step | src/arch/riscv64/boot.rs:29-53 | Each operation keeps the invariant and does to the flat table just what its flat counterpart says |
| RiscvSpaces.RootStep | src/arch/riscv64/pagetable.rs:127-134 | A fresh root shows the kernel's mappings from the third gigabyte on and nothing below; no other space changes |
| RiscvSpaces.EveryRun | src/arch/riscv64/pagetable.rs:127-202 | Over every run of root creations, table and frame mappings and unmappings, tables stay a forest of depth three and the processor translates every address of every space as the flat table says |
| RiscvKernel.Kernel.LookupPtSlot | src/arch/riscv64/pte.rs:164-185 | The loop returns the slot where the recursive walk stops, and 12 + 9 * level bits left |
| RiscvKernel.Kernel.Update | src/arch/riscv64/pte.rs:81-84 | One word is stored and every hart fenced after it |
| RiscvKernel.Kernel.MapItPtCap | src/arch/riscv64/boot.rs:29-37 | New memory and the store and fences issued |
| RiscvKernel.Kernel.MapItFrameCap | src/arch/riscv64/boot.rs:40-53 | New memory and the store and fences issued |
| RiscvKernel.Kernel.CopyGlobalMappings | src/arch/riscv64/pagetable.rs:127-134 | The loop replaces entries 2 to 511 of the page by the kernel root's, with no fence |
| RiscvKernel.Kernel.FindVspaceForAsid | src/arch/riscv64/asid.rs:79-104 | Lookup in the partial map; a fault exactly when nothing is bound |
| RiscvKernel.Kernel.WriteItAsidPool | src/arch/riscv64/asid.rs:21-28 | One pool entry and one slot change |
| RiscvKernel.Kernel.SetVspaceRoot | src/arch/riscv64/satp.rs:62-69 | satp holds the root, and this hart alone is fenced |
| RiscvKernel.Kernel.SetVmRoot | src/arch/riscv64/interface.rs:23-45 | What satp ends as, the result, and every root change on the way |
| RiscvKernel.Kernel.DeleteAsid | src/arch/riscv64/asid.rs:34-50 | New ASID table, flush, satp and result, in both branches |
| RiscvKernel.HoldsEntryIsFind | src/arch/riscv64/asid.rs:40-41 | For a non-null root the test is that the ASID is bound to it |
| RiscvKernel.HoldsNull | src/arch/riscv64/asid.rs:40-41 | A null root passes the test exactly on an unbound entry of a pool in use |
| RiscvKernel.FoundExactly | src/arch/riscv64/asid.rs:86-103 | The lookup gives a root exactly when slot and entry are both non-null, and then that entry |
| RiscvAsids.EveryRun | src/arch/riscv64/asid.rs:21-123 | Over every run every lookup finds what the abstract table binds, with 0 for no root |
| RiscvAsids.DeleteUnbinds | src/arch/riscv64/asid.rs:34-50 | Writing 0 removes the key, exactly if it was bound to the given root |
| RiscvAsids.DeleteThenFind | src/arch/riscv64/asid.rs:34-104 | After a bound ASID is deleted its lookup faults; every other gives what it gave |
| RiscvAsids.DeletePoolThenFind | src/arch/riscv64/asid.rs:79-123 | After the pool in use at an aligned base is deleted its 2^low lookups fault; every other gives what it gave |
| RiscvAsids.BootThenFind | src/arch/riscv64/asid.rs:21-28 | The boot thread's ASID is found with its root; those of other pools give what they gave |
| RiscvKernel.Kernel.DeleteAsidPool | src/arch/riscv64/asid.rs:110-123 | New ASID table, satp and result, in both branches |
| RiscvKernel.Kernel.TakeParent | src/arch/riscv64/interface.rs:53-67 | The loop returns the entry the recursive description takes for the parent |
| RiscvKernel.Kernel.UnmapPageTable | src/arch/riscv64/interface.rs:46-70 | New memory and the fences issued, in every branch |
| RiscvKernel.Kernel.UnmapPage | src/arch/riscv64/pagetable.rs:180-202 | One word is zeroed and fenced exactly when all checks pass; otherwise nothing changes; an error exactly when nothing is bound |
| RiscvTheorems.UnmapEverywhere | src/arch/riscv64/pagetable.rs:180-202 | On any address, shared tables included, exactly the walks that read the slot stop translating |
| RiscvTheorems.UnmapExact | src/arch/riscv64/pagetable.rs:180-202 | The aligned 2^bits bytes around the address stop translating in that space, and nothing else changes in any space |
| RiscvEffects.UnmapDecides | src/arch/riscv64/pagetable.rs:180-202 | Of an address that translates, the slot is zeroed exactly when the entry has the caller's size and maps the address to the caller's frame; else memory is unchanged |
| RiscvEffects.UnmapMapped | src/arch/riscv64/pagetable.rs:180-202 | What is mapped so at a private address faults afterwards on its aligned 2^bits bytes, and nothing else changes in any space |
| RiscvEffects.UnmapByBits | src/arch/riscv64/pagetable.rs:192-199 | In any memory, which bits of an entry let it be zeroed |
| RiscvEffects.MapFrameTranslates | src/arch/riscv64/boot.rs:40-53 | The range of the slot translates to the frame's page if that is aligned to the slot's size and faults if not; nothing else changes in any space |
| RiscvEffects.MapTableTranslates | src/arch/riscv64/boot.rs:29-37 | The range of the slot faults under a fresh table; nothing else changes in any space |
| RiscvEffects.MappedEntries | src/arch/riscv64/boot.rs:29-53 | The permissions of the entries the two mappings leave |
| RiscvEffects.NewRootTranslates | src/arch/riscv64/pagetable.rs:127-134 | A fresh root translates addresses from 0x80000000 on as the kernel's does and none below |
| RiscvEffects.UnmapTableByLevel | src/arch/riscv64/interface.rs:46-70 | What becomes of memory, by the entries of the two levels it looks at |
| RiscvTheorems.UnmapTableKeepsLinks | src/arch/riscv64/interface.rs:46-70 | A table on the walk stays linked and memory unchanged; no table becomes linked |
| RiscvTheorems.FrameRoundTrip | src/arch/riscv64/boot.rs:40-53 | Mapping then unmapping restores memory exactly when the slot was zero |
| RiscvTheorems.SameSlot | src/arch/riscv64/pte.rs:164-185 | Addresses equal above the bits left get the same slot and bits left |
| RiscvTheorems.SourceSatp | src/arch/riscv64/satp.rs:14-21 | The word is the masks and shifts of the source |
| RiscvTheorems.SatpFields | src/arch/riscv64/satp.rs:14-21 | Mode, ASID and page number read back from the word |
| RiscvTheorems.VmRootInstalled | src/arch/riscv64/interface.rs:23-45 | When the kernel's own table ends up installed, and when the result is an error |
| RiscvTheorems.VmRootFields | src/arch/riscv64/interface.rs:23-45 | Mode, ASID and page number that satp ends with, for every capability |
| RiscvTheorems.VmRootRuns | src/arch/riscv64/interface.rs:23-45 | On any machine its steps leave the hart on the root in satp with nothing cached, and touch nothing else |
| RiscvTheorems.VmRootFallsBack | src/arch/riscv64/interface.rs:35-42 | The hart passes through the kernel's table exactly when there is no page table, the ASID is not bound to it, or it is that table |
| RiscvTheorems.StoreThenSfence | src/arch/riscv64/satp.rs:24-35 | A store followed by `sfence` leaves no hart waiting |
| RiscvTheorems.SwitchSettled | src/arch/riscv64/satp.rs:62-69 | A root change needs the local fence only |
| RiscvTheorems.VmRootSettled | src/arch/riscv64/interface.rs:23-45 | `set_vm_root` leaves no fence pending, whatever the lookup gives |
| RiscvTheorems.CopySettled | src/arch/riscv64/pagetable.rs:127-134 | The copy leaves no fence pending and stores to the new root only |
| RiscvTheorems.FreshRootUnread | src/arch/riscv64/pagetable.rs:127-134 | No walk from a root in use reads a page that is no table yet |
| RiscvHarts.CopyEnabled | src/arch/riscv64/pagetable.rs:127-134 | The whole copy, store by store, goes to words no hart's walk reads, which is why it needs no fence, and keeps the forest |
| RiscvBoot.AskedIsThere | src/arch/riscv64/boot.rs:29-53 | The run's invariant gives each operation the memory it dereferences |
| RiscvBoot.LinkedLooksInside | src/arch/riscv64/interface.rs:46-70 | So it does for `unmap_page_table` of a linked table |
| RiscvBoot.CallIsEvent | src/arch/riscv64/pte.rs:81-84 | A mapping operation tells the harts of the store the run takes it for, and then of the fences |
| RiscvBoot.CallSettled | src/arch/riscv64/satp.rs:24-35 | What an operation tells the harts leaves no fence pending on any of them |
| RiscvBoot.CallReaches | src/arch/riscv64/pte.rs:81-84 | On any machine with the old words and labelled roots its steps can be made, and leave the new words |
| RiscvBoot.Perform | src/arch/riscv64/pagetable.rs:127-202 | The kernel's operation on a memory with the invariant is the step of the run: memory, forest and flat table all change as it says; what it adds to the log is settled, and takes any machine from the old words to the new |
| RiscvBoot.PerformAll | src/arch/riscv64/pagetable.rs:127-202 | Any sequence of calls ends with every address of every space translating as the flat table says, and with all fences made |
| RiscvHarts.EventGood | src/arch/riscv64/boot.rs:29-53 | Each event of any hart keeps the forest, the flat table and the installed roots, and its store is one the caches' machine allows |
| RiscvHarts.RunGood | src/arch/riscv64/pagetable.rs:127-202 | So does every interleaving of operations, copies, new roots, walks, fences and root changes of several harts |
| RiscvHarts.CachesShowFlat | src/arch/riscv64/satp.rs:24-69 | After any such run, on a hart with no fence pending every address a cached walk covers translates as the flat table says |
| RiscvHarts.WholeOperationsShowFlat | src/arch/riscv64/pagetable.rs:127-202 | And so on every hart, if each has fenced what it did itself |
| RiscvBoot.CallsShowFlat | src/arch/riscv64/pagetable.rs:127-202 | And so it is on every hart if each has made whole kernel calls, however they and the walkers were interleaved |
| RiscvWindow.MapPspace | src/arch/riscv64/pagetable.rs:81-87 | The first loop fills the window's root entries and touches nothing else |
| RiscvWindow.MapElf | src/arch/riscv64/pagetable.rs:103-110 | The index runs from 0 to 511 and the level-2 table is filled |
| RiscvWindow.PatchRoot | src/arch/riscv64/pagetable.rs:89-101 | Two root entries are replaced |
| RiscvWindow.MapKernelWindow | src/arch/riscv64/pagetable.rs:79-112 | Every word of memory after the loops |
| RiscvWindow.WindowLinear | src/arch/riscv64/pagetable.rs:79-112 | Every window address translates at the fixed offset, also in the gigabyte behind the level-2 table |
| RiscvWindow.ElfLinear | src/arch/riscv64/pagetable.rs:89-110 | The kernel image's gigabyte translates to the physical gigabyte that holds it |
| RiscvWindow.NothingElse | src/arch/riscv64/pagetable.rs:79-112 | On a zeroed root every other address faults |
| RiscvWindow.WindowPerms | src/arch/riscv64/pagetable.rs:79-112 | Every address of the window and of the image's gigabyte is for the kernel alone, readable, writable, executable and global |
| RiscvWindow.OtherWords | src/arch/riscv64/pagetable.rs:79-112 | No word outside the two tables changes, nor a root entry outside the two ranges |
| RiscvWindow.BootInvariant | src/arch/riscv64/pagetable.rs:79-112 | The finished tables are a start for every run of mapping operations |
| ArmPte.SourceFields | src/arch/aarch64/utils.rs:154-190 | Address, attributes and type are the masks and shifts of the source |
| ArmPte.SourceNewPage | src/arch/aarch64/utils.rs:182-184 | Address OR attributes, each under its mask |
| ArmPte.SourceUxn | src/arch/aarch64/pte.rs:203-205 | The first two terms of the constructors' chain |
| ArmPte.SourceNgAf | src/arch/aarch64/pte.rs:206-207 | The next two terms, ORed in without a carry |
| ArmPte.SourceShAp | src/arch/aarch64/pte.rs:208-209 | The next two |
| ArmPte.SourceAttr | src/arch/aarch64/pte.rs:210-210 | The memory attribute index |
| ArmPte.SourcePages | src/arch/aarch64/pte.rs:194-235 | Block and 4K page are that chain with their type bits |
| ArmPte.NewPageParts | src/arch/aarch64/utils.rs:161-190 | Setting the address leaves attributes and type, setting attributes leaves the address |
| ArmPte.TableWord | src/arch/aarch64/pte.rs:189-192 | A table entry has type 3 and gives back its page |
| ArmPte.BlockWord | src/arch/aarch64/pte.rs:194-214 | A block has type 1 and gives back its address, whatever the fields |
| ArmPte.PageWord | src/arch/aarch64/pte.rs:216-235 | A 4K page has type 7 and gives back address and attributes |
| ArmPte.UserPteIsPage | src/arch/aarch64/pte.rs:151-187 | A user entry is never a table and gives back every aligned address below 2^48 |
| ArmPte.PageAttributes | src/arch/aarch64/pte.rs:194-235 | The processor reads each field of a page or block where the constructor put it |
| ArmPte.UserAttributes | src/arch/aarch64/pte.rs:151-187 | Memory type, access, sharing and execution of a user entry for all rights and attributes |
| ArmPte.BootTableWord | src/arch/aarch64/boot.rs:137-139 | The two-step update gives a plain table entry whatever was in the slot |
| ArmPte.BootPageWord | src/arch/aarch64/boot.rs:178-184 | The two-step update gives a plain page entry whatever was in the slot |
| ArmWalk.CleanIs | src/arch/aarch64/utils.rs:188-190 | Kernel and processor differ on what is a table only for a 4K page entry above level 0 |
| ArmWalk.TypesDecode | src/arch/aarch64/utils.rs:188-190 | What tables, 4K pages and invalid entries mean to the processor |
| ArmWalk.BlockDecodes | src/arch/aarch64/pte.rs:194-214 | An aligned block maps its 2 MiB to its address |
| ArmWalk.AgreeIsRange | src/arch/aarch64/pte.rs:237-256 | User addresses reach the same entry at a level exactly when they lie in the same aligned range |
| ArmKernel.Kernel.LookupPtSlot | src/arch/aarch64/pte.rs:237-256 | The loop returns the slot where the recursive walk stops, and 12 + 9 * level bits left |
| ArmKernel.Kernel.FindPt | src/arch/aarch64/boot.rs:189-202 | The slot of the requested level, by entries followed without a look at their type |
| ArmKernel.Kernel.MapItPudCap | src/arch/aarch64/boot.rs:157-165 | New memory and the one store |
| ArmKernel.Kernel.MapItPdCap | src/arch/aarch64/boot.rs:145-154 | New memory and the one store |
| ArmKernel.Kernel.MapItPtCap | src/arch/aarch64/boot.rs:131-140 | The two stores amount to one table entry |
| ArmKernel.Kernel.MapItFrameCap | src/arch/aarch64/boot.rs:170-185 | The two stores amount to one 4K page entry |
| ArmKernel.Kernel.FindMapForAsid | src/arch/aarch64/asid.rs:38-46 | The pool entry of the ASID, if its slot holds a pool |
| ArmKernel.Kernel.FindVspaceForAsid | src/arch/aarch64/asid.rs:49-66 | Lookup in the partial map |
| ArmKernel.Kernel.WriteItAsidPool | src/arch/aarch64/asid.rs:112-117 | One pool entry and one slot change |
| ArmKernel.Kernel.SetVmRoot | src/arch/aarch64/interface.rs:84-112 | What TTBR0 ends as, in one write |
| ArmKernel.SourceTtbr | src/arch/aarch64/machine.rs:46-48 | The register value is the masks and shift of the source |
| ArmKernel.VmRootInstalled | src/arch/aarch64/interface.rs:84-112 | Exactly when the global user root ends up installed and when the thread's, with ASID field 0 in every case |
| ArmKernel.Kernel.DeleteAsid | src/arch/aarch64/asid.rs:69-87 | New ASID table, the invalidation before the root change, in both branches |
| ArmKernel.Kernel.DeleteAsidPool | src/arch/aarch64/asid.rs:90-109 | New ASID table, the invalidations before the slot is cleared, then the root change |
| ArmKernel.PoolLogDistinct | src/arch/aarch64/asid.rs:99-104 | No ASID is invalidated twice |
| ArmKernel.PoolInvalidated | src/arch/aarch64/asid.rs:90-109 | Exactly the ASIDs bound through the pool are invalidated; afterwards all of its range fault and all others are as before |
| ArmAsids.FoundExactly | src/arch/aarch64/asid.rs:38-66 | The lookup gives a root exactly when the slot holds a pool and the entry is a vspace, and then its root |
| ArmAsids.EveryRun | src/arch/aarch64/asid.rs:32-117 | Over every run every lookup finds what the abstract table binds |
| ArmAsids.DeleteThenFind | src/arch/aarch64/asid.rs:49-87 | After a bound ASID is deleted its lookup finds nothing; every other gives what it gave |
| ArmAsids.DeletePoolThenFind | src/arch/aarch64/asid.rs:49-109 | After the pool in use at an aligned base is deleted its 2^low lookups find nothing; every other gives what it gave |
| ArmAsids.BootThenFind | src/arch/aarch64/asid.rs:112-117 | The boot thread's ASID is found with its root; those of other pools give what they gave |
| ArmKernel.Kernel.Update | src/arch/aarch64/pte.rs:135-141 | One word is stored and its line cleaned |
| ArmKernel.Kernel.UnmapPage | src/arch/aarch64/interface.rs:208-239 | Zeroed twice, cleaned and invalidated exactly when all checks pass; otherwise nothing changes |
| ArmKernel.Kernel.FindParent | src/arch/aarch64/interface.rs:181-197 | The loop returns the slot that names the table on the walk, if there is one |
| ArmKernel.Kernel.UnmapPageTable | src/arch/aarch64/interface.rs:176-204 | New memory, the zeroing before the table's first entry is read, stores, clean and invalidation, in every branch |
| ArmEvents.UnmapPage | src/arch/aarch64/interface.rs:208-239 | Its history takes memory from the old words to the new; every store is followed by the cleaning of its line and then by the invalidation of the ASID, on other cores exactly if there are any |
| ArmEvents.UnmapPageTable | src/arch/aarch64/interface.rs:176-204 | So does its; and a new word goes only to a slot zeroed before |
| ArmTheorems.UnmapExact | src/arch/aarch64/interface.rs:208-239 | The aligned 2^bits bytes around the address stop translating in that space, for 4K, 2M and 1G, and nothing else changes in any space |
| ArmEffects.UnmapDecides | src/arch/aarch64/interface.rs:208-239 | Of an address that translates, the slot is zeroed for an aligned frame exactly when the entry has the caller's size, maps the address to that frame and is plain; else memory is unchanged |
| ArmEffects.UnmapMapped | src/arch/aarch64/interface.rs:208-239 | What is mapped so faults afterwards on its aligned 2^bits bytes, and nothing else changes in any space |
| ArmEffects.UnmapByBits | src/arch/aarch64/interface.rs:224-232 | In any memory, which bits of an entry let it be zeroed |
| ArmEffects.WrittenPlain | src/arch/aarch64/pte.rs:194-235 | Aligned blocks and pages of the kernel are plain |
| ArmEffects.MapFrameTranslates | src/arch/aarch64/boot.rs:170-185 | A frame mapped through a table on the walk is what its page translates to; nothing else changes in any space |
| ArmEffects.MappedAttributes | src/arch/aarch64/boot.rs:170-185 | Memory type, access, sharing and execution of the entry |
| ArmTheorems.SameSlot | src/arch/aarch64/pte.rs:237-256 | Addresses equal above the bits left get the same slot and bits left |
| ArmTheorems.UnmapTableWrites | src/arch/aarch64/interface.rs:176-204 | Memory changes exactly when the table lies at depth 1 to 3 on the path, in one word, which ends as the table's first entry |
| ArmTheorems.UnmapTableIs | src/arch/aarch64/interface.rs:199-202 | What is read after the zeroing is the table's first entry as it was |
| ArmTheorems.UnmapEmptyTable | src/arch/aarch64/interface.rs:176-204 | Removing an all-invalid table changes no translation and moves the stop one level up |
| ArmTableRemoval.RemovedTranslates | src/arch/aarch64/interface.rs:176-204 | The exact translation afterwards of every address of every space: the removed table's range goes through its first entry read one level up, everything else is as before |
| ArmTableRemoval.UnmapTableClears | src/arch/aarch64/interface.rs:176-204 | The whole range stops translating exactly when the first entry, at the slot's level, faults or names a page none of whose entries leads to memory |
| ArmTableRemoval.ClearsBefore | src/arch/aarch64/interface.rs:176-204 | The same condition read off memory before the call, when the pages behind the first entry do not include the one that holds the slot |
| ArmTableRemoval.EmptyFirstTable | src/arch/aarch64/interface.rs:176-204 | A directory whose first table is empty stops translating, though its first entry does not fault |
| ArmTableRemoval.RemovalMaps | src/arch/aarch64/interface.rs:176-204 | A concrete memory in which the removal gives a translation to addresses that had none |
| ArmTheorems.BootSteps | src/arch/aarch64/boot.rs:131-202 | From zeroed tables each boot mapping finds in memory what it dereferences, and the attribute bits the source asserts |
| ArmTheorems.BootChain | src/arch/aarch64/boot.rs:131-202 | After PUD, PD, table and frame on zeroed tables the walk stops at `find_pt`'s slot, a 4K page with the frame's address; no other address of any space changes; the tables are a forest again |
| ArmBoot.MapPath | src/arch/aarch64/boot.rs:131-202 | The four operations can be called one after the other and compose |
| ArmBoot.MapAndFind | src/arch/aarch64/boot.rs:131-202 | Afterwards `find_pt` and `lookup_pt_slot` give the same slot, with 12 bits left |
| ArmTheorems.WalksInside | src/arch/aarch64/pte.rs:237-256 | On a forest every entry the lookup reads lies in memory |
| ArmTheorems.FollowsInside | src/arch/aarch64/boot.rs:189-202 | And every entry `find_pt` reads down to a table the walk uses |
| ArmTheorems.FrameRoundTrip | src/arch/aarch64/boot.rs:170-185 | Mapping then unmapping restores memory exactly when the slot was zero |
| ArmBoot.MapAndUnmap | src/arch/aarch64/interface.rs:208-239 | `map_it_frame_cap` then `unmap_page` through the bound ASID leaves memory as it was exactly when the slot was zero |
| ArmTheorems.TableRoundTrip | src/arch/aarch64/interface.rs:176-204 | Entering then removing a table restores memory exactly when the slot held the table's first entry |
| ArmWindow.MapPud | src/arch/aarch64/boot.rs:36-43 | The first loop fills the upper directory from the window's start to below its top |
| ArmWindow.MapPds | src/arch/aarch64/boot.rs:45-81 | The second loop fills the page directories with blocks up to the window's end and touches nothing else |
| ArmWindow.MapKernelWindow | src/arch/aarch64/boot.rs:30-96 | Every word of memory after the loops and the two later directory writes |
| ArmWindow.WindowLinear | src/arch/aarch64/boot.rs:30-96 | Every physical address of the window is what its window address translates to |
| ArmWindow.WindowAttributes | src/arch/aarch64/boot.rs:48-82 | Every window address is writable, global, cached kernel memory, shared between several cores |
| ArmWindow.DeviceTable | src/arch/aarch64/boot.rs:84-94 | The last 2 MiB of the gigabyte of the window's top are walked through the kernel's page table |
| ArmWindow.OtherWords | src/arch/aarch64/boot.rs:30-96 | No word outside the kernel's tables changes, nor an entry outside the window |
| ArmCache.Cpu.CleanCacheRangePoc | src/arch/aarch64/machine.rs:169-175 | The operations issued, in order |
| ArmCache.Cpu.CleanInvalidateCacheRangeRam | src/arch/aarch64/machine.rs:221-232 | The two passes, in order |
| ArmCache.Cpu.InvalidateCacheRangeRam | src/arch/aarch64/machine.rs:237-252 | The edge cleans and the invalidation, in order |
| ArmCache.PassVisits | src/arch/aarch64/machine.rs:169-175 | A pass visits the lines with a byte in the range once each, with the physical address as far from the start as the line |
| ArmCache.TwoPasses | src/arch/aarch64/machine.rs:221-232 | Operation by operation: one clean for each line, then one clean-and-invalidate for each, with its physical address |
| ArmCache.InvalidateLocated | src/arch/aarch64/machine.rs:237-252 | Every operation of an invalidation has the physical address of its line, the edge lines included |
| ArmCache.CleanedFirstKeeps | src/arch/aarch64/machine.rs:237-252 | A line cleaned before it is invalidated loses nothing, whatever the cache evicts or fills meanwhile |
| ArmCache.CleanInvalidateKeeps | src/arch/aarch64/machine.rs:221-232 | Every byte of memory reads the same before and after, whatever the cache does meanwhile |
| ArmCache.CleanInvalidateUncaches | src/arch/aarch64/machine.rs:221-232 | Exactly the lines that meet the range leave the cache |
| ArmCache.InvalidateKeepsOutside | src/arch/aarch64/machine.rs:237-252 | Every byte outside the range reads the same although whole lines are discarded |
| ArmCache.InvalidateInside | src/arch/aarch64/machine.rs:237-252 | No line that meets the range stays cached; it then reads as before exactly if the range starts inside a line or this is the line it ends inside, and else as memory held it |
| ArmSetWay.SourceFields | src/arch/aarch64/machine.rs:187-210 | The register fields are the shifts and masks of the source |
| ArmSetWay.AssocBitsAre | src/arch/aarch64/machine.rs:285-286 | The way bits are log2 of the associativity rounded up, 0 exactly for a direct-mapped cache |
| ArmSetWay.DecodesIffFits | src/arch/aarch64/machine.rs:282-294 | The processor reads every word back as its level, way and set exactly when line, set and way bits fit in 32 |
| ArmSetWay.DistinctIffFits | src/arch/aarch64/machine.rs:282-294 | No two lines of a cache share a word, under exactly that condition |
| ArmSetWay.SweptIs | src/arch/aarch64/machine.rs:187-210 | The lines the sweep is for, in the shifts and masks of the source |
| ArmSetWay.Cpu.CleanInvalidateDByLevel | src/arch/aarch64/machine.rs:282-294 | The words issued for one level, in order |
| ArmSetWay.Cpu.CleanInvalidateDPoc | src/arch/aarch64/machine.rs:270-279 | The words issued for all levels, in order |
| ArmSetWay.EveryLineOnce | src/arch/aarch64/machine.rs:270-294 | Each line of each data or unified cache below the level of coherency is named once and nothing else is, exactly when all these caches fit their words; and no word is issued twice, under exactly that condition |

## Left out

- Permission checks of an access: translation is address to address. What the entries allow is stated for those the kernel writes (`MappedEntries`, `WindowPerms`, `UserPerms` and their AArch64 counterparts).
- Device frames (`map_kernel_devices`, `map_kernel_frame`): they need a platform table and a reservation service that are not part of this model. The kernel windows are stated as they are before them.
- `create_it_*_cap`, `do_flush`, capability bit layouts, `is_valid_native_root` and `pageBitsForSize`: capabilities are records with the fields the operations read, and the page size arrives in bits.
- AArch64 TLB contents: only the order of invalidations is kept, and a write of TTBR0 stands for itself and the full local invalidation that comes with it.
- AArch64 `set_vm_root_for_flush_with_thread_root`, `activate_kernel_vspace`, `invalidate_tlb_by_asid_va` and the lookup fault of `find_vspace_for_asid`.
- AArch64 `get_ppn`, `get_pte_from_ppn_mut`, `is_pte_table` and `pte_table_get_present`, which no walk uses.
- The cache passes to the point of unification and over the instruction cache: the same loop with another instruction.
- The kernel's lock: in `RiscvHarts` an operation reads the tables and makes its store in one step; two operations never interleave between lookup and store.
- Barriers: the operations of one core take effect in program order.
- ASID pools lie outside the modelled memory of page tables and are a map from address to contents; table and pools cannot overlap.
- Pointers are unbounded naturals: address wrap-around is not modelled.
- An `assert` of the source is a precondition (the removed table is not the root; the ASID is below 2^16; the PUD entry has attributes 3).
- RiscvKernel.Kernel.UnmapPageTable: the page numbers of entries that are no tables are dereferenced, which no invariant makes safe; that memory is there is a precondition, which holds for a linked table.
- RiscvTheorems.UnmapExact: for addresses the kernel's root does not map through its shared table; UnmapEverywhere states the effect on all others.
- RiscvSpaces.EveryRun: user mappings are made in user roots at addresses of that kind, as the boot code and the callers of `unmap_page` do; new tables come zeroed.
- RiscvKernel.Kernel.DeleteAsid: the flush of one ASID is recorded but discards nothing in `Tlb`, since a fence of the whole TLB follows with the root change.
