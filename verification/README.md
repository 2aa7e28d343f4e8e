# OrustS boot loader core in Dafny

This project models the pure core of the OrustS i386 boot loader: the structures it builds for the processor, the BIOS and the disk, and the arithmetic that decides which sectors go where. It covers:

- **Bit-field packing.** `mask_assign` and `gen_mask` are the single primitive under every encoder (module `Bitwise`).
- **Descriptors and selectors.** Segment, TSS, task-gate and call-gate descriptors and selectors follow the Intel SDM Vol. 3A:
  - segment descriptors: section 3.4.5;
  - selectors: section 3.4.2;
  - the TSS descriptor: section 7.2.2;
  - task gates: section 7.2.5;
  - the call gate: section 5.8.3.

  Each encoder has a decoder, and round-trip lemmas connect the two (module `Descriptors`).
- **Descriptor tables.** The descriptor table with its cursor (`Tables`) and the checked GDT commit (`GdtCommit`).
- **Concrete GDTs.** The boot loader's GDT (`BootGdt`), the older eight-slot GDT with the real-mode SWITCH and NORMAL segments (`LegacyGdt`), and the LDT task (`Tasks`).
- **Paging.** The PAE entry encoders, tables and control-register sequence (`Pae`), following section 4.4 of the Intel SDM Vol. 3A. The kernel's identity map and `enable_paging` (`KernelPaging`) use a model of the 2 MiB-page walk and of the PDPTE load check.
- **Memory layout.** The physical layout constants (`Layout`).
- **Disk reads.** Sector arithmetic and the Disk Address Packet of the BIOS Enhanced Disk Drive "Extended Read" (INT 13h function 42h). `DAP::read` is a loop against a BIOS parameter, and the model records the packets it hands over (`Disk`).
- **Addresses.** Segmented-address conversion (`Addr`) and the byte-array widening casts (`U8x`).
- **ATA.** The ATA port map, status masks and error messages (`Ata`).
- **No-filesystem readers.** The real-mode and protected-mode readers (`NoFs`) and the three stage loaders (`Loaders`).
- **Memory map.** The INT 15h E820h memory-map enumeration of section 15.1 of the ACPI Specification, against a BIOS parameter (`E820`), and the usable-range filter (`MemInfo`), over the address ranges of `Mem`.

Representation:

- Rust's `u8`/`u16`/`u32`/`u64` are subset types of `nat` (module `Bits`). `&`, `|`, `^` and `!` are defined bit by bit, `<<` is a multiplication reduced modulo 2^64, and `>>` is a division.
- `usize` is 32 bits wide, as on i386.
- Arithmetic follows Rust's release profile: a wrap-around the code can reach is written out as `% 2^k`, except where a line under "## Left out" says a requires excludes it (Mem.NewRange, MemInfo.FromE820).
- Inline assembly, BIOS interrupts and port I/O are parameters:
  - a function from the packet handed over to the AX value the BIOS returns;
  - a function from the E820 continuation to the BIOS's reply;
  - a function standing for `pio_read_sectors`.

  Loading a control or table register is an event in a list.

## Model

| member | source | states |
|---|---|---|
| Bitwise.GenMask | i386/src/utils/bitwise.rs:27-33 | bit i of `gen_mask(start, len)` is set exactly for start <= i < start + len, cut at bit 63 |
| Bitwise.GenMaskEmpty | i386/src/utils/bitwise.rs:27-33 | a zero-length field has the empty mask |
| Bitwise.MaskAssign | i386/src/utils/bitwise.rs:11-25 | inside the destination field each bit is the source bit at the same offset from `src_start`; outside it the bit is the destination's |
| Bitwise.MaskAssignFrame | i386/src/utils/bitwise.rs:11-25 | every bit outside the destination field keeps its value |
| Bitwise.MaskAssignField | i386/src/utils/bitwise.rs:11-25 | the destination field holds the source field's bits in order |
| Bitwise.MaskAssignRoundTrip | i386/src/utils/bitwise.rs:11-25 | reading the destination field back gives the source field, and `src mod 2^len` when `src_start` is 0 |
| Bitwise.MaskAssignKeeps | i386/src/utils/bitwise.rs:11-25 | a field disjoint from the destination field reads the same before and after |
| Bitwise.MaskAssignIdempotent | i386/src/utils/bitwise.rs:11-25 | the same assignment twice is the assignment once |
| Bitwise.MaskAssignOverwrite | i386/src/utils/bitwise.rs:11-25 | a later assignment to the same field overrides an earlier one |
| Bitwise.MaskAssignCommute | i386/src/utils/bitwise.rs:11-25 | assignments to disjoint fields commute |
| Bitwise.MaskAssignPlace | i386/src/utils/bitwise.rs:11-25 | writing into a clear field adds the field's value at its place |
| Bitwise.AssignAllFields | i386/src/dt/packers.rs:49-60 | after a chain of disjoint assignments, every step's field reads back its source |
| Bitwise.AssignAllPlace | i386/src/dt/packers.rs:49-60 | a chain of disjoint assignments into clear fields is the sum of the fields at their places |
| Descriptors.DescRoundTrip | i386/src/dt/packers.rs:48-61 | decoding `pack_desc` gives back base, 20-bit limit, type, S, DPL, P, attributes and G, each cut to its width |
| Descriptors.NullDesc | i386/src/dt/packers.rs:48-61 | all-zero inputs give the null descriptor 0 |
| Descriptors.DecodeDesc | i386/src/dt/packers.rs:48-61 | reading the fields back from the places `pack_desc` writes them gives a 32-bit base, a 20-bit limit, a 4-bit type, and one-, two- and three-bit S, DPL, attribute and G fields |
| Descriptors.DescComplete | i386/src/dt/packers.rs:48-61 | every 64-bit word is `pack_desc` of its own decoded fields, so the ten fields cover the whole descriptor |
| Descriptors.DecodeInjective | i386/src/dt/packers.rs:48-61 | two words with the same decoded fields are equal |
| Descriptors.TssTypeValue | i386/src/dt/packers.rs:75 | the TSS type is 9, or 11 when busy |
| Descriptors.PackTssDesc | i386/src/dt/packers.rs:74-78 | a TSS descriptor decodes as a system descriptor of type 9, or 11 when busy, with the given base, DPL and P, the limit cut to 20 bits and AVL as its only attribute |
| Descriptors.PackTaskGate | i386/src/dt/packers.rs:96-98 | a task gate decodes as type 5, system, limit 0, with the TSS selector in bits 16..31 and zero in the rest of the base |
| Descriptors.PackCallGate | i386/src/dt/packers.rs:108-120 | decoding a call gate gives back the whole 32-bit entry offset, the selector, the parameter count mod 32, type 12, DPL and P |
| Descriptors.PackSelector | i386/src/dt/packers.rs:129-135 | a selector is index * 8 + table * 4 + RPL, the index taken mod 2^13 |
| Descriptors.SelectorRoundTrip | i386/src/dt/packers.rs:129-135 | decoding a packed selector gives back index mod 2^13, table and RPL |
| Descriptors.SelectorComplete | i386/src/dt/packers.rs:129-135 | every 16-bit selector is the packing of its own decoded fields |
| Tables.Add | i386/src/dt.rs:39-47 | refuses exactly when the cursor has reached LEN - 1 and then changes nothing; otherwise writes the slot at the cursor, touches no other slot, advances the cursor and returns the old cursor |
| Tables.AddAppends | i386/src/dt.rs:39-47 | `add` appends to the entries in use and keeps cursor <= LEN - 1 |
| Tables.Reset | i386/src/dt.rs:24-27 | the slots in use become 0, the others keep their contents, the cursor is 0 |
| Tables.ResetEmpties | i386/src/dt.rs:24-27 | after `reset` no entry is in use |
| Tables.AddAll | i386/src/dt.rs:32-34 | the add loop stops at the first overflow with the overflow message; from a valid table it succeeds iff all entries fit, the entries it added follow the old ones, and later slots are untouched |
| Tables.Replace | i386/src/dt.rs:30-36 | `replace` succeeds iff src fits in LEN - 1 slots and then holds exactly src; on overflow the first LEN - 1 entries of src stay in the table and the error is the overflow message |
| Tables.ReplaceNotAtomic | i386/src/dt.rs:30-36 | a failed replace leaves a table that is neither the old one, nor the new one, nor the reset one |
| Tables.ReplaceAtomicSpec | i386/src/dt.rs:29-36 | the corrected replace holds exactly src, or fails with the overflow message and leaves the table reset and empty |
| GdtCommit.Limit16 | i386/src/mem/dt/gdt.rs:31 | the 16-bit `cur * 8 - 1` is the table's byte size minus one for 1..8192 entries |
| GdtCommit.Update | i386/src/mem/dt/gdt.rs:21-39 | an empty table gives EmptyTable, then a non-null slot 0 gives ErrorReservedEntry, both without loading GDTR; on success GDTR is loaded exactly once with the table as base |
| GdtCommit.UpdateLimit | i386/src/mem/dt/gdt.rs:30-33 | a committed table of at most 8192 entries gets limit cur * 8 - 1 |
| GdtCommit.LimitWraps | i386/src/mem/dt/gdt.rs:31 | 8193 entries wrap the limit to 7 |
| BootGdt.InitGdtSlots | bootloader/shared/src/gdt.rs:38-57 | `init_gdt` has 32 slots: the null descriptor and the code, data and stack descriptors in slots 0..3 |
| BootGdt.InitGdtZeros | bootloader/shared/src/gdt.rs:38-57 | slots 4..31 are zero |
| BootGdt.NullDescriptorZero | bootloader/shared/src/gdt.rs:41-43 | slot 0 is the all-zero descriptor |
| BootGdt.CodeDescriptorDecodes | bootloader/shared/src/gdt.rs:44-47 | the code segment is readable 32-bit ring-0 code with base 0, limit field 0xFFFFE and G = 0 |
| BootGdt.DataDescriptorDecodes | bootloader/shared/src/gdt.rs:48-51 | the data segment is writable 32-bit ring-0 data with base 0, limit field 0xFFFFE and G = 0 |
| BootGdt.StackDescriptorDecodes | bootloader/shared/src/gdt.rs:52-55 | the stack segment is expand-down writable data with limit 0 |
| BootGdt.SelectorValues | bootloader/shared/src/gdt.rs:29-36 | the NULL, CODE, DATA and STACK selectors are 0x00, 0x08, 0x10 and 0x18 |
| BootGdt.SelectorNamesSlot | bootloader/shared/src/gdt.rs:29-36 | each selector names its slot, in the GDT, with RPL 0 |
| BootGdt.StackPrivilegesAgree | bootloader/shared/src/gdt.rs:33-35 | the stack selector's RPL equals the DPL of the slot it names, as loading SS requires |
| BootGdt.MaxLen | bootloader/shared/src/gdt.rs:11 | GDT_MAX_LEN is GDT_SIZE / 8, 32 slots |
| BootGdt.GdtTable | bootloader/shared/src/gdt.rs:67-70 | `GDT_TABLE` has 32 slots and cursor 8 |
| BootGdt.GdtTableStart | bootloader/shared/src/gdt.rs:63-70 | the first `add` lands in slot 8, and a commit loads limit 63 over the whole table |
| BootGdt.FlatSegmentsAsWritten | bootloader/shared/src/gdt.rs:44-51 | the "4G" code and data segments cover bytes 0..0xFFFFE only |
| BootGdt.FlatCodeCovers4G | bootloader/shared/src/gdt.rs:44-47 | the corrected code segment differs only in limit 0xFFFFF and G = 1, and covers every 32-bit offset |
| BootGdt.FlatDataCovers4G | bootloader/shared/src/gdt.rs:48-51 | the same for the data segment |
| LegacyGdt.InitGdtSlots | src/bios/i386/src/dt/gdt.rs:52-100 | slots 0..7 hold null, code, data, stack, video, SWITCH, NORMAL and LDT descriptors |
| LegacyGdt.NullSlot | src/bios/i386/src/dt/gdt.rs:55-57 | slot 0 is the all-zero descriptor |
| LegacyGdt.SelectorValues | src/bios/i386/src/dt/gdt.rs:39-50 | the eight selectors are 0x00..0x38, slot times eight |
| LegacyGdt.GdtTable | src/bios/i386/src/dt/gdt.rs:134-137 | the table starts with cursor 8 |
| LegacyGdt.Update | src/bios/i386/src/dt/gdt.rs:123-129 | `update` always loads GDTR once, with the table as base, without checking the table |
| LegacyGdt.UpdateUnchecked | src/bios/i386/src/dt/gdt.rs:115-129 | the initial limit is 63; `update` loads cur * 8 - 1, or 0xFFFF for an empty table; it agrees with the checked commit whenever that one succeeds |
| LegacyGdt.CodeDecodes | src/bios/i386/src/dt/gdt.rs:58-61 | the code segment is readable 32-bit ring-0 code at base 0 with byte limit 0x7FFFF (512 KiB) |
| LegacyGdt.DataDecodes | src/bios/i386/src/dt/gdt.rs:62-65 | the data segment is writable 32-bit ring-0 data at base 0 with byte limit 0x9BFFF |
| LegacyGdt.StackDecodes | src/bios/i386/src/dt/gdt.rs:66-71 | the stack segment is expand-down writable 32-bit data with limit STACK_START (0x9C000) |
| LegacyGdt.VideoDecodes | src/bios/i386/src/dt/gdt.rs:72-75 | the video segment is writable 32-bit data at 0xB8000 with byte limit 0xF9F |
| LegacyGdt.SwitchDecodes | src/bios/i386/src/dt/gdt.rs:84-86 | SWITCH is readable 16-bit code at base 0 with byte limit 0xFFFF |
| LegacyGdt.NormalDecodes | src/bios/i386/src/dt/gdt.rs:90-92 | NORMAL is writable 16-bit data at base 0 with byte limit 0xFFFF |
| LegacyGdt.LdtDecodes | src/bios/i386/src/dt/gdt.rs:93-98 | the LDT descriptor is a present system segment of type 2 at LDT_START with limit LDT_SIZE - 1 |
| LegacyGdt.SwitchIsRealModeCode | src/bios/i386/src/dt/gdt.rs:76-86 | SWITCH meets the three conditions for returning to real mode: 16-bit readable code, 0xFFFF-byte limit, base 0 |
| LegacyGdt.NormalIsRealModeData | src/bios/i386/src/dt/gdt.rs:87-92 | NORMAL is 16-bit writable data over the same bytes |
| LegacyGdt.StackIsExpandDown | src/bios/i386/src/dt/gdt.rs:66-71 | the stack is 32-bit expand-down writable data whose limit is STACK_START |
| Tasks.New | bootloader/src/bios/stage_3/src/task.rs:49-56 | a new task keeps its arguments and starts with the null selector |
| Tasks.InitLdt | bootloader/src/bios/stage_3/src/task.rs:24-30 | fails exactly when the LDT is full and then changes neither task nor LDT; on success only the selector changes |
| Tasks.InitLdtAdds | bootloader/src/bios/stage_3/src/task.rs:24-30 | on success the LDT gains exactly the code descriptor, and the selector is slot * 8 + 4 |
| Tasks.InitLdtSelector | bootloader/src/bios/stage_3/src/task.rs:27-28 | the selector names the new slot, in the LDT, with RPL 0 |
| Tasks.LastOffset | bootloader/src/bios/stage_3/src/task.rs:25 | `self.size - 1` is size - 1 for a non-empty task and wraps to 0xFFFF_FFFF for size 0 |
| Tasks.CodeDesc | bootloader/src/bios/stage_3/src/task.rs:25-26 | the code descriptor decodes to base offset, limit `size - 1` (wrapped) cut to 20 bits, type 8, ring 0, 32-bit, for every size |
| Tasks.CodeSegmentMeaning | bootloader/src/bios/stage_3/src/task.rs:12-26 | the segment is execute-only 32-bit ring-0 code at `offset`, exactly `size` bytes long for sizes 1 to 2^20, and 1 MiB long for size 0 |
| Layout.RegionsOrdered | bootloader/shared/src/layout.rs:19-45 | stage 1, stage 2, stage 3, the stack and the video buffer lie in that order without overlapping, all below 1 MiB and clear of the kernel |
| Layout.Stage2Tail | bootloader/shared/src/layout.rs:30-37 | MEMINFO and the GDT lie inside stage 2, MEMINFO directly before the GDT, and the GDT ends where stage 2 ends |
| Layout.Contiguous | bootloader/shared/src/layout.rs:27-45 | the stages sit back to back, the stack follows stage 3, and MEMINFO and the GDT end where stage 2 ends |
| Layout.Sizes | bootloader/shared/src/layout.rs:47-55 | stages 1..3 are 512, 33280 and 262144 bytes, all whole sectors; MEMINFO and the GDT are 256 bytes each |
| Pae.NewPte | i386/src/mem/paging/pae.rs:45-53 | a page-table entry has P set; R/W, U/S, PWT, PCD, PAT (bit 7), G (bit 8) and XD (bit 63) from the arguments; every other bit from `page_phys` |
| Pae.PteFrame | i386/src/mem/paging/pae.rs:45-53 | bits 12..62 read back the frame of a 4 KiB-aligned `page_phys` |
| Pae.PteValue | i386/src/mem/paging/pae.rs:34-54 | for an aligned address the entry is the address plus the flags at their places |
| Pae.NewPdePage | i386/src/mem/paging/pae.rs:85-94 | a large-page entry has P and PS set; R/W, U/S, PWT, PCD, G (bit 8), PAT moved to bit 12 and XD (bit 63) from the arguments; every other bit from `page_phys` |
| Pae.PdePageValue | i386/src/mem/paging/pae.rs:74-95 | for a 2 MiB-aligned address the entry is the address plus 0x81 and the flags at their places |
| Pae.NewPdeTable | i386/src/mem/paging/pae.rs:106-113 | a page-table pointer has P set and PS clear; R/W, U/S, PWT, PCD and XD from the arguments; every other bit, G and bit 12 included, from the table address |
| Pae.PdeTableValue | i386/src/mem/paging/pae.rs:99-114 | for an aligned address the entry is the address plus P and the flags |
| Pae.PageOrTable | i386/src/mem/paging/pae.rs:90-111 | no large-page entry equals any page-table pointer: bit 7 tells them apart |
| Pae.NewPdpte | i386/src/mem/paging/pae.rs:133-139 | a directory pointer has P set and PWT, PCD from the memory type; every other bit from `page_dir_phys` |
| Pae.PdpteValue | i386/src/mem/paging/pae.rs:133-139 | for an aligned address the entry is the address plus P, PWT and PCD and nothing else |
| Pae.NewTable | i386/src/mem/paging/pae.rs:162-164 | `new()` is a table of empty (zero) entries |
| Pae.WithEntries | i386/src/mem/paging/pae.rs:166-176 | `with_entries` puts the given entries in slots 0..NUM-1 and leaves the rest empty |
| Pae.AddMap | i386/src/mem/paging/pae.rs:150-156 | `add_map` accepts exactly when the physical length differs from the virtual one by a multiple of 4 GiB, i.e. when it cut to 32 bits equals the virtual length |
| Pae.Enable | i386/src/mem/paging/pae.rs:207-236 | `enable` sets CR4.PAE, loads CR3 with the table and sets CR0.PG |
| Pae.EnableSets | i386/src/mem/paging/pae.rs:207-236 | afterwards paging and PAE are on, CR3 is the table, and every other CR0 and CR4 bit is unchanged |
| Pae.EnableNeverLegacy | i386/src/mem/paging/pae.rs:215-229 | in no intermediate state is paging on without PAE and the new CR3 |
| Pae.Update | i386/src/mem/paging/pae.rs:240-247 | `update` only loads CR3 |
| Pae.UpdateOnlyCr3 | i386/src/mem/paging/pae.rs:240-247 | `update` changes CR3 and nothing else |
| KernelPaging.KernelPage | bootloader/stage_3/src/paging.rs:13-28 | a kernel page entry has P, R/W and PS set, U/S and XD clear, and over a 2 MiB-aligned address is that address plus 0x83 |
| KernelPaging.KernelPdtValues | bootloader/stage_3/src/paging.rs:12-29 | KERNEL_PDT is 0x83, 0x200083 and 510 empty entries |
| KernelPaging.KernelIdentity | bootloader/stage_3/src/paging.rs:11-29 | through KERNEL_PDT every address below 4 MiB maps to itself |
| KernelPaging.KernelOnly4M | bootloader/stage_3/src/paging.rs:11-29 | the rest of the first gigabyte is unmapped |
| KernelPaging.EnablePaging | bootloader/stage_3/src/paging.rs:36-44 | `enable_paging` writes both PDPT entries before any control-register step |
| KernelPaging.WritesAsWritten | bootloader/stage_3/src/paging.rs:37-42 | the writes leave PDPT[0] = directory | 1, PDPT[1] = all ones, the rest empty |
| KernelPaging.OnesNotLoadable | bootloader/stage_3/src/paging.rs:42 | an all-ones PDPTE is present with reserved bits set |
| KernelPaging.DirEntryLoadable | bootloader/stage_3/src/paging.rs:37-40 | PDPT[0] is loadable on any processor |
| KernelPaging.EnableRuns | i386/src/mem/paging/pae.rs:207-236 | `enable` over a loadable table turns PAE paging on with CR3 at the table |
| KernelPaging.EnableFaults | i386/src/mem/paging/pae.rs:207-236 | `enable` over a table with a bad present entry raises #GP when paging is turned on |
| KernelPaging.EnablePagingFaults | bootloader/stage_3/src/paging.rs:36-44 | `enable_paging` as written ends in #GP whatever the processor's MAXPHYADDR |
| KernelPaging.EnablePagingFixed | bootloader/stage_3/src/paging.rs:36-44 | the corrected sequence still writes before it switches |
| KernelPaging.FixedLoadable | bootloader/stage_3/src/paging.rs:37-40 | every entry of the corrected PDPT is loadable |
| KernelPaging.EnablePagingFixedRuns | bootloader/stage_3/src/paging.rs:36-44 | without the all-ones entry, paging comes on with PDPT[0] at KERNEL_PDT and the rest empty |
| KernelPaging.FixedIdentity | bootloader/stage_3/src/paging.rs:11-44 | after the corrected `enable_paging` the first 4 MiB are identity-mapped and the rest of the first gigabyte faults |
| Disk.MaxReadSectors | i386/src/bios/disk.rs:6-7 | MAX_READ_SECTORS is 128, the sectors in MAX_READ_BYTES |
| Disk.SizeToLba | i386/src/utils/disk.rs:5-7 | `size_to_lba` is the whole sectors in `src` bytes (also i386/src/bios/disk.rs:10-12) |
| Disk.LbaToSize | i386/src/utils/disk.rs:10-12 | `lba_to_size` is lba * 512 wrapping at 2^64, exact below 2^55 (also i386/src/bios/disk.rs:15-17) |
| Disk.IsSectorAligned | i386/src/utils/disk.rs:15-17 | true iff the size is a multiple of 512 (also i386/src/bios/disk.rs:20-22) |
| Disk.SizeRoundTrip | i386/src/utils/disk.rs:5-17 | size to sectors and back is exact iff the size is sector-aligned |
| Disk.LbaRoundTrip | i386/src/bios/disk.rs:10-17 | sectors to size and back is exact while the size fits 32 bits |
| Disk.AsChunks | i386/src/utils/disk.rs:24 | `as_chunks::<512>` gives |s| / 512 chunks of 512 bytes and a remainder of |s| % 512 |
| Disk.AsChunksCover | i386/src/utils/disk.rs:24 | the chunks followed by the remainder give back the buffer |
| Disk.SliceAsSectors | i386/src/utils/disk.rs:19-26 | None iff the length is not a whole number of sectors; otherwise the 512-byte sectors that concatenate to the buffer (also i386/src/bios/disk.rs:24-31) |
| Disk.NewDap | i386/src/bios/disk.rs:100-109 | the packet is 0x10 bytes, with sector count (len >> 9) as u16 and the buffer pair, LBA and drive as given |
| Disk.BufferPtr | i386/src/bios/disk.rs:75 | the pair is (dest mod 64 KiB, 64 KiB block mod 16 * 0x1000) |
| Disk.BufferPtrAddress | i386/src/bios/disk.rs:75 | the pair names dest mod 1 MiB, so dest itself below 1 MiB |
| Disk.ReadDiskFields | i386/src/bios/disk.rs:73-78 | the packet `read_disk` builds, field by field |
| Disk.ReadDiskPacket | i386/src/bios/disk.rs:73-78 | the packet reads from the given disk and LBA into the real-mode address that is the buffer's address mod 1 MiB |
| Disk.Ah | i386/src/bios/disk.rs:66 | `res >> 8` is AH |
| Disk.Status | i386/src/bios/disk.rs:66-70 | a call succeeds exactly when AH is 0 |
| Disk.ResetDisk | i386/src/bios/disk.rs:80-94 | `reset_disk` succeeds exactly when AH comes back 0 |
| Disk.Advance | i386/src/bios/disk.rs:113-120 | the next packet has 128 fewer sectors, a segment 0x1000 higher (wrapping at 2^16) and an LBA 128 higher |
| Disk.Chunked | i386/src/bios/disk.rs:112-126 | the calls of a successful read start at the packet's LBA |
| Disk.ChunkedCount | i386/src/bios/disk.rs:112-126 | a read of n sectors makes ceil(n/128) calls, one for n = 0 |
| Disk.ChunkedTotal | i386/src/bios/disk.rs:112-126 | the calls' sector counts add up to the packet's |
| Disk.ChunkedSizes | i386/src/bios/disk.rs:113-124 | every call but the last carries 128 sectors, the last at most 128 |
| Disk.ChunkedLbas | i386/src/bios/disk.rs:119 | call k starts at LBA + 128k |
| Disk.ChunkedSegments | i386/src/bios/disk.rs:118 | call k goes to segment + 0x1000k mod 2^16 |
| Disk.ChunkedKeeps | i386/src/bios/disk.rs:112-126 | offset, drive, size byte and reserved byte never change |
| Disk.Read | i386/src/bios/disk.rs:112-126 | the packets handed over are a non-empty prefix of the plan; every call but the last succeeded; the result is the last call's status; on success all calls were made |
| Disk.ReadDisk | i386/src/bios/disk.rs:73-78 | `read_disk` succeeds iff it made every planned call and each had AH 0 |
| Disk.SectorCountTruncates | i386/src/bios/disk.rs:104 | a 32 MiB buffer gets sector count 0 and one call for nothing |
| Disk.SegmentWraps | i386/src/bios/disk.rs:118 | a buffer over 64 KiB starting at 0xF0000 or above gets its second call at address dest mod 64 KiB |
| Disk.Packet | i386/src/bios/disk.rs:96-109 | the corrected packet for n sectors names the buffer's real address |
| Disk.FixedPlan | i386/src/bios/disk.rs:112-126 | the corrected plan makes ceil(n/128) calls |
| Disk.ReadDiskFixed | i386/src/bios/disk.rs:73-78 | the corrected read refuses exactly the buffers out of real-mode reach |
| Disk.FixedPlanTotal | i386/src/bios/disk.rs:104 | the corrected plan asks for every sector of the buffer |
| Disk.FixedPlanLbas | i386/src/bios/disk.rs:119 | corrected call k reads from lba + 128k |
| Disk.FixedPlanAddresses | i386/src/bios/disk.rs:118 | corrected call k fills memory from dest + 64 KiB * k |
| Disk.AdvanceStep | i386/src/bios/disk.rs:118-120 | below 1 MiB, the code's step between calls is the plan's |
| Disk.FixedMatchesChunked | i386/src/bios/disk.rs:112-126 | where nothing truncates or wraps, the code makes exactly the planned calls |
| Disk.ReadDiskAgrees | i386/src/bios/disk.rs:73-78 | for a reachable buffer the code and the corrected read agree |
| Addr.ToAddr16 | src/bios/i386/src/addr.rs:6-12 | Err iff the address is above 0xFFFF:0xFFFF; otherwise (addr >> 16, addr mod 2^16) |
| Addr.ToAddr32 | src/bios/i386/src/addr.rs:14-16 | `to_addr32` is a.0 * 0x10000 + a.1 |
| Addr.RoundTrip | src/bios/i386/src/addr.rs:6-16 | the pair `to_addr16` returns joins back to the address |
| Addr.RoundTripPair | src/bios/i386/src/addr.rs:6-16 | a pair joins and splits back to itself when its join is accepted |
| Addr.DocExample | src/bios/i386/src/addr.rs:5-10 | 0x10200 gives (0x1, 0x0200), which as segment:offset names 0x210 |
| Addr.ToRealAddr16 | src/bios/i386/src/addr.rs:4-12 | the corrected split fails iff the address is past 0xFFFF:0xFFFF and otherwise names the address in real mode |
| Addr.RealDocExample | src/bios/i386/src/addr.rs:5 | the corrected split gives the documented (0x1000, 0x0200) |
| Addr.ToRealAddr32 | src/bios/i386/src/addr.rs:14-16 | the corrected join is segment * 16 + offset |
| Addr.RealRoundTrip | src/bios/i386/src/addr.rs:4-16 | the corrected pair round-trips and agrees with the code below 64 KiB |
| U8x.Extend | i386/src/utils/u8x.rs:9-23 | `extend` is src followed by zeros up to DEST bytes |
| U8x.CastLe | i386/src/utils/u8x.rs:33-36 | `cast_le` is the little-endian value of the bytes, below 256^len |
| U8x.CastBe | i386/src/utils/u8x.rs:38-41 | `cast_be` is the big-endian value shifted up by the padding |
| U8x.LeZeros | i386/src/utils/u8x.rs:14-20 | trailing zero bytes add nothing to a little-endian value |
| U8x.BeZeros | i386/src/utils/u8x.rs:14-20 | each trailing zero byte multiplies a big-endian value by 256 |
| U8x.LeRoundTrip | i386/src/utils/u8x.rs:33-36 | reading the little-endian bytes of a number that fits gives it back |
| U8x.BeIsReversedLe | i386/src/utils/u8x.rs:33-41 | big-endian is little-endian on the reversed bytes |
| Ata.CommandBlock | i386/src/driver/disk/ata.rs:80-90 | data through command registers sit at io_base + 0..7 |
| Ata.CommandBlocks | i386/src/driver/disk/ata.rs:73-96 | error = feature, status = command, dcr = alt status, dar = dcr + 1; the buses' command blocks do not overlap |
| Ata.SharedControlBlock | i386/src/driver/disk/ata.rs:92-96 | both buses use the control block at 0x376 |
| Ata.CtrlBaseFixed | i386/src/driver/disk/ata.rs:92 | the corrected control base is io_base + 0x206 |
| Ata.ControlBlocksFixed | i386/src/driver/disk/ata.rs:92-96 | corrected control ports are distinct, clear of both command blocks, and unchanged for the secondary bus |
| Ata.StatusBits | i386/src/driver/disk/ata.rs:35-41 | ERR, DRQ, DF, RDY and BSY each test exactly bit 0, 3, 5, 6 and 7 |
| Ata.Decimal | i386/src/driver/disk/ata.rs:56 | a number formats to a non-empty string of digits |
| Ata.DecimalRoundTrip | i386/src/driver/disk/ata.rs:56 | parsing the formatted number gives it back |
| Ata.Message | i386/src/driver/disk/ata.rs:53-64 | every ATA error message starts with "Disk Error: " |
| Ata.MessagesDistinct | i386/src/driver/disk/ata.rs:53-64 | different errors give different messages |
| NoFs.RealNew | i386/src/fs/nofs/real.rs:14-19 | `NoFSReal::new` succeeds iff the reset returns AH 0, keeping the drive |
| NoFs.RealRead | i386/src/fs/nofs/real.rs:39-42 | one `read_disk` of the whole buffer from sector `id` on the drive; success iff every call succeeded, returning the buffer length |
| NoFs.Capacity | i386/src/fs/nofs/protected.rs:30-35 | the sector count is the 48-bit little-endian number in identify bytes 200..205 |
| NoFs.ProtectedNew | i386/src/fs/nofs/protected.rs:26-37 | an identify error is handed on; otherwise the drive and its 48-bit capacity are kept |
| NoFs.ReadCount | i386/src/fs/nofs/protected.rs:58-66 | refused iff the buffer is unaligned; otherwise the buffer's sectors clamped to the sectors left after lba |
| NoFs.ProtectedRead | i386/src/fs/nofs/protected.rs:57-75 | an unaligned buffer asks nothing of the drive; otherwise one transfer (lba, count), its error handed on, or the bytes read, never more than the buffer |
| NoFs.ReadCountBound | i386/src/fs/nofs/protected.rs:74 | the count never exceeds the buffer, so the usize conversion cannot fail |
| NoFs.ProtectedReadSize | i386/src/fs/nofs/protected.rs:57-75 | a read returns the buffer length, or the bytes up to the end of the disk |
| NoFs.ReadPastEnd | i386/src/fs/nofs/protected.rs:62 | an lba past the end wraps the distance and asks for sectors past the end |
| NoFs.ReadCountFixed | i386/src/fs/nofs/protected.rs:58-66 | the corrected count refuses an lba past the end and never reads past it |
| NoFs.ReadCountAgrees | i386/src/fs/nofs/protected.rs:61-66 | where the code does not wrap it asks for the corrected count |
| NoFs.FsMessage | i386/src/fs/nofs/protected.rs:10-17 | a disk error gives its own message, every other error "FS Error" |
| NoFs.FsMessagesDistinct | i386/src/fs/nofs/protected.rs:10-17 | a disk error's message differs from every other error's |
| Loaders.Stage2Packet | bootloader/stage_1/src/img_load.rs:19-24 | stage 2 is one packet: 65 sectors from LBA 1 to 0x0000:0x7E00 |
| Loaders.LoadStage2 | bootloader/stage_1/src/img_load.rs:19-24 | a failed reset reads nothing; otherwise one call for stage 2; success iff both AH are 0 |
| Loaders.Stage3Packet | bootloader/stage_2/src/img_load.rs:20-30 | stage 3 starts at LBA 66, the sectors of stages 1 and 2 |
| Loaders.Stage3Calls | bootloader/stage_2/src/img_load.rs:20-30 | stage 3 arrives in 4 calls of 128 sectors, from LBA 66 + 128k to STAGE3_START + 64 KiB * k |
| Loaders.LoadStage3 | bootloader/stage_2/src/img_load.rs:20-30 | a failed reset reads nothing; otherwise up to 4 planned calls; success iff all 4 were made and succeeded |
| Loaders.KernelLba | bootloader/stage_3/src/load_kernel.rs:25 | the kernel starts at LBA 578 and is 2048 sectors |
| Loaders.LoadKernel | bootloader/stage_3/src/load_kernel.rs:24-34 | asks the drive for min(2048, sectors left) from LBA 578; an error becomes its message |
| Loaders.KernelWhole | bootloader/stage_3/src/load_kernel.rs:24-34 | the whole kernel is asked for when the disk holds it |
| Loaders.KernelPastEnd | bootloader/stage_3/src/load_kernel.rs:31 | a disk shorter than 578 sectors still gets a request for 2048 sectors from LBA 578 |
| E820.New | i386/src/driver/mem/e820.rs:52-61 | `new()` holds MAX slots, each with base 0, length 0 and type Undefined, and len 0, so `get_ranges` gives an empty list |
| E820.GetMemInfo | i386/src/driver/mem/e820.rs:77-124 | at most one call per slot; call i passes Cont(i) and fills slot i; other slots keep their contents; on success the count is the calls that returned a non-zero continuation, or MAX when none returned 0 |
| E820.Step | i386/src/driver/mem/e820.rs:85-122 | one pass makes at most one call per remaining slot, appends each continuation, writes only the slots it calls for, counts at most one per call, and runs off the end only after calling for every slot |
| E820.MemInfoNone | i386/src/driver/mem/e820.rs:85-122 | the result is None exactly when a slot has no 16-bit address or a reply is rejected |
| E820.FinalRangeUncounted | i386/src/driver/mem/e820.rs:114-121 | a BIOS with one range yields Some(0) although slot 0 holds the range |
| E820.CarryIgnored | i386/src/driver/mem/e820.rs:98-110 | a reply with CF set and a good signature is accepted and counted |
| E820.IsFailed | i386/src/driver/mem/e820.rs:98-100 | as written `is_failed` is always 0; corrected, it is 1 iff the carry is set |
| E820.FixedCountsAll | i386/src/driver/mem/e820.rs:114-121 | the corrected loop's count is the number of calls, each an accepted reply's descriptor |
| E820.Query | i386/src/driver/mem/e820.rs:64-67 | `query` keeps the array's size and len <= MAX; len is unchanged on None |
| E820.GetRanges | i386/src/driver/mem/e820.rs:71-73 | `get_ranges` is Some exactly for a valid record, and then is ranges[0..len) |
| E820.QueryRanges | i386/src/driver/mem/e820.rs:64-73 | after a successful query the valid ranges are the descriptors of the calls that went on, in call order |
| E820.MeminfoFits | bootloader/shared/src/mem.rs:10 | MEMINFO_MAX is 9, and in either field order the record fits its 256 bytes and every slot has a 16-bit address |
| Mem.NewRange | i386/src/mem.rs:22-29 | `MemRange::new` has start + len == end |
| MemInfo.Seg | i386/src/mem/info.rs:21-27 | each segment is what `MemRange::new(base, base + len)` builds |
| MemInfo.Picks | i386/src/mem/info.rs:19-21 | the positions of the usable ranges, increasing, every usable position listed |
| MemInfo.SegsArePicks | i386/src/mem/info.rs:19-28 | the j-th segment comes from the j-th usable range |
| MemInfo.FromE820 | i386/src/mem/info.rs:16-30 | there are at most `len` segments |
| MemInfo.FromE820Segs | i386/src/mem/info.rs:16-30 | the segments are exactly the usable ranges among the first `len`, in order, each with start = base, len = len and end = base + len |
| MemInfo.PastLenIgnored | i386/src/mem/info.rs:19 | entries at or past `len` never contribute |

## Left out

- Inline assembly, BIOS interrupts and port I/O are not modelled; their results are parameters. This covers:
  - `extended_read_sectors`, `reset_disk`, the E820 call and `pio_identify`/`pio_read_sectors` (i386/src/hardware/ata/pio.rs is not part of this model);
  - `lgdt`, `lldt` and the CR0/CR3/CR4 moves, which are events.
- `Task::transfer` (an `lldt` and a far return) and `ata_delay_400ns` (port reads) are not modelled.
- The mode switches are not modelled.
- Data bytes moved by the disk and by the ATA driver are not modelled. The model records which transfers are asked for, not what lands in memory.
- Loaders.LoadKernel: the ATA parameter takes only the LBA and the sector count. The kernel buffer address is not passed to it.
- U8x.Extend: requires SRC <= DEST. A wider SRC panics with "Too wide ux value." (i386/src/utils/u8x.rs:10-12), and the model has no panic outcome.
- E820: `Into<&str> for E820MemType` (display names only) is not modelled.
- E820: a type code other than 1 or 2 written by the BIOS is not modelled. It is undefined behaviour for the Rust enum, so the BIOS reply carries the enum directly.
- E820: only BX carries the continuation, as written. The upper half of EBX is not modelled.
- E820: the ES:DI pair of each call is not modelled. A slot counts as reachable when `to_addr16` accepts its address. Above 64 KiB that pair would name another address (see the `to_addr16` finding).
- E820: i386/src/utils/addr.rs is not part of this model. Its `to_addr16` is taken to behave like the one in src/bios/i386/src/addr.rs, with Ok read as Some.
- MemInfo.FromE820: requires a valid record (`len` at most MAX). `len` is a public field, and with `len` > MAX `get_ranges` gives None and the `unwrap` (i386/src/mem/info.rs:19) panics; the model has no panic outcome.
- MemInfo.FromE820: also requires that `base + len` of every usable range fits 64 bits. The source's addition would overflow otherwise.
- Mem.NewRange: requires start <= end, because the source's subtraction would underflow otherwise.
- The `DAP::new` doc comment lists the buffer as (segment, offset). The code passes (offset, segment) in field order, which the model follows.
- The FileSystem operations `alloc`, `extend`, `delete` and `write` of both no-filesystem readers are modelled as `Err(NotImplemented)`. They have no further contract.
- LegacyGdt: `pack_seg` takes the privilege level and the present flag as raw bytes. Every call site passes `Ring0 as u8` and 1, which the model writes as Ring0 and true.
- Pae.AddMap: `add_map` has a TODO body, so only its length check is modelled.
- Disk.ReadDiskPacket: its contract leaves the sector count, `len` / 512 cut to 16 bits, to NewDap and Disk.ReadDiskFields.
- Descriptors.PackDesc: its contract is stated by Descriptors.DescRoundTrip rather than on the function, so that the constant GDT tables stay cheap to reason about.
- LegacyGdt: src/bios/layout/src/lib.rs defines neither LDT_START nor LDT_SIZE (nor GDT_SIZE), so the LDT's place and size and the table length are parameters.
- LegacyGdt.Update: the `lgdt` operand is the static `GDT_DESCRIPTOR` (`sym GDT_DESCRIPTOR`, src/bios/i386/src/dt/gdt.rs:127), whatever `self` is. The model loads the pointer that `update` has just written into `self`, which is what the processor loads only when `self` is `GDT_DESCRIPTOR`, the one instance the code declares.

## Findings

Nothing here was executed. Each row names the member that models the code as written and shows the discrepancy, and the member that proves the evidently intended property of the corrected definition.

| source | as written | input that shows it | evidently intended | confidence | as-written member | corrected member |
|---|---|---|---|---|---|---|
| bootloader/stage_3/src/paging.rs:42 | PDPT[1] is set to all ones | `enable_paging` from an empty PDPT with paging off | PDPT[1] left empty, so the PDPTE load accepts the table (Intel SDM Vol. 3A section 4.4.1) | high, not executed | KernelPaging.EnablePagingFaults | KernelPaging.EnablePagingFixedRuns |
| i386/src/driver/mem/e820.rs:114-121 | the call that returns continuation 0 is not counted, though it wrote a range | a BIOS whose first reply has signature SMAP and continuation 0 gives Some(0) | that call's range is counted | high, not executed | E820.FinalRangeUncounted | E820.FixedCountsAll |
| i386/src/driver/mem/e820.rs:98-100 | `xor dx, dx` clears CF before `setc dl`, so `is_failed` is always 0 | first reply SMAP with CF set and continuation 1, second SMAP with continuation 0, gives Some(1) | a set carry, which section 15.1 of the ACPI Specification defines as an error, gives None | high, not executed | E820.CarryIgnored | E820.MemInfoNone |
| src/bios/i386/src/addr.rs:5-10 | `to_addr16(0x10200)` is (0x1, 0x0200) | 0x10200, whose pair names 0x210 as segment:offset | (0x1000, 0x0200), as the doc comment says | high, not executed | Addr.DocExample | Addr.RealRoundTrip |
| bootloader/shared/src/gdt.rs:44-51 | the "4G" code and data segments have limit field 0xFFFFE with G = 0 | offset 0x100000 in either segment | limit 0xFFFFF with G = 1, covering every 32-bit offset | medium, not executed | BootGdt.FlatSegmentsAsWritten | BootGdt.FlatCodeCovers4G |
| i386/src/driver/disk/ata.rs:92 | `ctrl_base` is 0x376 for both buses | the PRIMARY bus, whose device control register becomes the secondary's | 0x3F6 for PRIMARY and 0x376 for SECONDARY | high, not executed | Ata.SharedControlBlock | Ata.ControlBlocksFixed |
| i386/src/fs/nofs/protected.rs:62 | `self.sector_num - lba` wraps when lba > sector_num | sector_num 100, lba 101, a 512-byte buffer asks for 1 sector at LBA 101 | an lba past the end is refused | high, not executed | NoFs.ReadPastEnd | NoFs.ReadCountFixed |
| i386/src/bios/disk.rs:104 | the sector count is cut to u16 | a 32 MiB buffer gets count 0 and one empty call that succeeds; latent, since real mode cannot address such a buffer | a buffer real mode cannot reach is refused (`ReadDiskFixed` gives None); every reachable buffer gets its exact sector count | medium, not executed | Disk.SectorCountTruncates | Disk.FixedPlanTotal |
| i386/src/bios/disk.rs:118 | the segment `+= 0x1000` wraps at 2^16 | a 128 KiB buffer at 0xF0000, whose second call goes to 0x0000:0000; latent, since such a buffer ends above 1 MiB, beyond real-mode reach | a buffer real mode cannot reach is refused (`ReadDiskFixed` gives None); for a reachable one each call fills the 64 KiB after the previous one | medium, not executed | Disk.SegmentWraps | Disk.FixedPlanAddresses |
| i386/src/dt.rs:30-36 | `replace` resets and then adds, so an overflow leaves a partial table | a 2-slot table replaced by [7, 8] ends as [7, 0] with cursor 1 and an error | a failed replace leaves the table reset, with none of the new entries in use | medium, not executed | Tables.ReplaceNotAtomic | Tables.ReplaceAtomicSpec |
