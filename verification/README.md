# A verified model of the pre-OS loader

Before the operating system starts, the loader brings the hypervisor (xmon) into memory and
hands the machine over to it. This project models the five parts of that path in which a
mistake would be silent, proves them, and joins them:

1. **Application-processor bring-up** (`ApProtocol`, `Ranks`, `ApSafety`, `ApTheorems`,
   `ApLiveness`, `ApTiming`, `ApRestart`, `ApEnumeration`). The bootstrap processor and any number of APs
   are a machine of interleaved steps, one shared access a step; a schedule is any sequence
   of processors. An inductive invariant gives the safety results for every schedule, and a
   measure gives completion for every fair one.
2. **The ELF32/ELF64 loader** (`Bytes`, `ElfFormat`, `ElfSizing`, `ElfSegments`, `ElfPatches`,
   `ElfHeaders`, `ElfRelocation`, `ElfLoad`, `ElfPlacement`, `ElfImage`, `ElfSections`,
   `ElfTables`, `ElfRecords`, `ElfMeaning`, `ElfDynamic`, `ElfSample`). One model for both
   classes. Memory is an array of bytes that the loader changes in place; a loaded image is the
   file's segments plus a list of patched words, each a value plus the relocation offset.
   `ElfMeaning` and `ElfDynamic` say the same again on the bytes of file and image: offsets,
   table entries and numbers.
3. **The memory map and the initrd** (`MemoryMap`, `MapEdit`, `HideMemory`, `Initrd`,
   `MapViews`, `GuestLaunch`). A map means a type for every address, and every operation on
   the map is proved against that meaning.
4. **64-bit page tables** (`PageWalk`, `Paging`), against the four-level walk of section 4.5
   of the Intel SDM, volume 3A.
5. **The bump allocator, the load-time layout and the AP trampoline** (`LoaderHeap`, `Layout`,
   `LoaderBoot`, `Trampoline`).

The parts meet in `LoaderBoot.ApsRunOnHeapStacks` (layout, allocator and protocol: APs run on
disjoint stacks inside the loader heap), `LoaderBoot.SetupMemory` (allocator and paging, with
everything outside the heap unchanged) and `GuestLaunch.InitrdAvoidsXmon` (layout, map edit
and initrd placement).

## What is assumed

- **APs.** APIC ids are distinct, in 1..slots-1 and 8 bits wide (the wake-up code takes the top
  byte of the id register), the APs that respond are at most as many as the stacks, and
  `timely`: the BSP's wait outlasts the marking of every AP that starts.
  `ApTiming.DistinctExactlyWhenTimely` shows that the last cannot be dropped as soon as there are
  two APs. Memory is sequentially consistent: steps interleave, and each sees all writes before it.
- **ELF files.** Addresses, file offsets and table extents do not wrap, table entries have at
  least the standard size, segments are disjoint, the lowest one carries the ELF header and the
  program headers, and relocation targets are apart from each other, from the program headers
  and from the tables being read. The loader checks none of these. The target buffer has the
  size that `get_image_info` reports. Program header counts of 32768 and more are modelled as the
  `int16_t` loop treats them: it does not run. Section header counts are below that.
- **Reads past the file.** A segment or section that begins past the end of the file makes
  `mem_image_read` copy nearly 4 GB before it reports a short read
  (`ElfFormat.ReadOvershootsExactlyWhen`). Loading such a file fails, and only then nothing is
  promised of memory.
- Position independence also assumes that what relocation reads and patches lies in segments;
  copying section tables, that relocation spares the ELF header and that the offset is a multiple
  of the alignments in use, which are powers of two. The files of `ElfSample` meet the first.
- **Relocation tables** are found at `d_ptr` plus the load address, as the code does it, not
  relative to the lowest link address; both agree for images linked at 0.
- **Memory maps** are sorted, disjoint and non-wrapping with `size` fields of 20, and lie
  outside the free part of the loader heap. The hidden range is not empty and does not wrap; where the
  launch is concerned it does not begin below an entry it meets, unless hiding fails.
- The layouts of ELF structures, page-table entries and e820 tables are declared in headers
  that are not in the repository; they are taken from the System V gABI, the i386 and AMD64
  psABI and the Intel SDM.
- A failed `XMON_LOADER_ASSERT` hangs the loader; here it is a result `ok == false`.

## Where the code and its comments differ

The model follows the code.

- `startap_main` takes the error value -1 of `ap_procs_startup` for a count: without a low page
  it reports 0 processors (`ApTheorems.ProcessorCount`), although the BSP does enter the image.
- `load_image` documents its size argument as the size of the target buffer
  (common/ld/elf_ld/elf_ld.c:189-204); it is used as the size of the file, and the target is not checked.
- pre_os/starter/xmon_desc.h:59 shows a loader heap of 512 KB; the constant is 0xa0000, 640 KB.
- `get_e820_table_from_multiboot` tests bits 0 and 1 of the multiboot flags, not the bit that
  says that there is a memory map; `hide_runtime_memory` tests the right one.
- `load_primary_guest_kernel` ignores the result of `hide_runtime_memory`
  (`Initrd.FailedHidingIsNotNoticed`).
- `elf32_load_executable` overwrites the status of copying the section header table by that of
  copying the sections; `ElfTables.CopyTables` shows that after sizing there is no failure to lose.
- Several checks are done on wrapped sums or leave a case out. For each there is a lemma that says
  exactly when the check means what it should, and one at a concrete input for which it does not:
  allocation, views and reads of the file, the layout macros, alignment masks, the map edit,
  initrd_addr_max, and the overlap of initrd and kernel.

## Model

| member | source | states |
|---|---|---|
| `ApSafety.InitInv` | startap/ap_procs_init.c:644-650 | The invariant of the protocol holds at power-on for every admissible configuration. |
| `ApSafety.BspStepInv` | startap/startap.c:40-77 | Every step of the BSP, from entry to launch, keeps the invariant, including single iterations of the enumeration. |
| `ApSafety.ApStepInv` | startap/wakeup_init64.S:23-57 | Every step of every AP, from the trampoline into the image, keeps the invariant. |
| `ApSafety.RunInv` | startap/ap_procs_init.c:557-621 | The invariant holds in every state of every run, whatever the interleaving. |
| `ApSafety.ReadyBound` | startap/ap_procs_init.c:286-295 | The number of APs in C never exceeds the enumerated count, and equals it only when every enumerated AP is in C. |
| `ApTheorems.OrdinalsDistinct` | startap/wakeup_init64.S:33-52 | In no reachable state do two APs hold the same ordinal. |
| `ApTheorems.StacksDisjoint` | startap/wakeup_init64.S:42-56 | In every reachable state APs past stage 2 own disjoint 8 KB stacks inside the given range. |
| `ApTheorems.ReleaseSafety` | startap/ap_procs_init.c:607-621 | An AP is past the spin loop only when enumeration is complete (every slot holds its rank or 0), and function, data, parameters, init64, init32 and the processor count are published; no AP ever goes through an unset pointer. |
| `ApTheorems.ReadySafety` | startap/ap_procs_init.c:615-620 | g_ready_counter never exceeds g_aps_counter, and the BSP is past its wait only when every started AP is in C on the stack of its own rank. |
| `ApTheorems.CompleteRun` | startap/startap.c:57-76 | In a complete run the entry point is called exactly once on each processor with the published arguments; the cpu ids are exactly 0..n, the BSP having 0 and the APs theirs in the order of APIC ids. |
| `ApTheorems.ProcessorCount` | startap/startap.c:45-63 | The reported processor count equals the number of processors that entered the image if and only if start-up was not refused for want of a low page; then it is 0 and one processor entered. |
| `ApLiveness.StepDescends` | startap/wakeup_init64.S:34-56 | A step of any processor either waits and changes nothing or strictly decreases the remaining work. |
| `ApLiveness.SomeoneMoves` | startap/ap_procs_init.c:612-620 | In every state of the invariant that is not final some processor can do more than wait: no deadlock. |
| `ApLiveness.FairRunCompletes` | startap/ap_procs_init.c:612-620 | From any such state a schedule of enough fair rounds ends with every processor in the image. |
| `ApLiveness.BringUpCompletes` | startap/startap.c:40-77 | From power-on, 15 + 9 * slots fair rounds bring every processor into the image. |
| `ApTiming.LateArrivalCollides` | startap/ap_procs_init.c:587-591 | Without the timeout, for any two responders there is a run in which both hold ordinal 1. |
| `ApTiming.DistinctExactlyWhenTimely` | startap/ap_procs_init.c:587-591 | Ordinals are distinct in all runs if and only if the timeout outlasts every AP's marking or at most one AP responds. |
| `ApRestart.LeftOversDoNotMatter` | startap/ap_procs_init.c:644-650 | Whatever an earlier run left in the bootstrap state, the ready counter, the function and its data, every schedule leads to the state of a clean start as soon as the BSP is past the clearing, which is before any AP is woken. |
| `ApEnumeration.EnumeratedRanks` | startap/ap_procs_init.c:631-642 | Enumeration of any array gives every marked slot the low byte of its rank among the marked ones and leaves the others alone. |
| `ApEnumeration.CountsEveryApExactlyWhen` | startap/ap_procs_init.c:631-642 | The 8-bit count is the number of marked slots if and only if there are at most 255. |
| `ApEnumeration.ByteIdsAreEnumerated` | startap/wakeup_init64.S:28-33 | Ids of 8 bits mark no slot past 255, so count and ordinals are the number and the ranks, whatever the length of the array. |
| `ApEnumeration.BspEnumerateAps` | startap/ap_procs_init.c:631-642 | The loop over the array leaves the array and the count that the protocol's single iterations add up to. |
| `Ranks.RankTotal` | startap/ap_procs_init.c:631-642 | The last rank is the number of processors. |
| `Ranks.RankOnto` | startap/ap_procs_init.c:631-642 | Every ordinal from 1 to the count belongs to some processor. |
| `ElfFormat.MapsExactlyWhenInside` | common/ld/image_accessors/image_access_mem.c:42-56 | A view accepted by the 32-bit check lies in the file if and only if its end does not wrap. |
| `ElfFormat.WrappedViewIsAccepted` | common/ld/image_accessors/image_access_mem.c:48-50 | A view that starts past the file is accepted when its end wraps. |
| `ElfFormat.MapsIsFullCount` | common/ld/image_accessors/image_access_mem.c:42-56 | A view is accepted if and only if the 32-bit count returned is the one asked for. |
| `ElfFormat.ReadInsideExactlyWhen` | common/ld/image_accessors/image_access_mem.c:29-40 | A read stays in the file if and only if it begins in it and its end does not wrap. |
| `ElfFormat.ReadOvershootsExactlyWhen` | common/ld/image_accessors/image_access_mem.c:34-36 | A read copies more than was asked for if and only if it begins past the file and its end does not wrap. |
| `ElfFormat.ReadPastEnd` | common/ld/image_accessors/image_access_mem.c:34-36 | One byte asked for one byte past the end: 4 GB less one are copied. |
| `ElfSizing.TightBounds` | common/ld/elf_ld/elf32_ld.c:92-115 | The computed low and high addresses bound all loadable segments and are attained by segments. |
| `ElfSizing.SegmentBounds` | common/ld/elf_ld/elf64_ld.c:93-116 | The loop over the program headers computes those bounds for the headers in the file. |
| `ElfSizing.AlignUpAligned` | common/ld/elf_ld/elf32_ld.c:158-163 | For a power of two the mask (x + (a - 1)) & ~(a - 1), modelled bit by bit, is a multiple of a (with the bounds in `AlignUp`, the next one). |
| `ElfSizing.AlignsExactlyForPowersOfTwo` | common/ld/elf_ld/elf32_ld.c:158-163 | The mask rounds every x to a multiple of a if and only if a is a power of two. |
| `ElfSizing.MaskIsNotRounding` | common/ld/elf_ld/elf32_ld.c:158-163 | With an alignment of 3 the mask leaves 1 as it is. |
| `ElfSizing.AndNotBits` | common/ld/elf_ld/elf32_ld.c:158-163 | The masking used for alignment has exactly the bits set in the one and not in the other number. |
| `ElfSizing.SectionRoom` | common/ld/elf_ld/elf32_ld.c:145-167 | The sizing loop over the sections ends where a layout of the unplaced, non-empty sections ends, by the masks and for all alignments. |
| `ElfSizing.GetLoadInfo` | common/ld/elf_ld/elf32_ld.c:45-177 | Sizing succeeds if and only if the file is an executable or shared object with mapped tables and a page-aligned low address; then it reports bounds, entry and section room, for both classes. Section header fields matter only if tables are asked for. |
| `ElfMeaning.SizesExactlyWhen` | common/ld/elf_ld/elf32_ld.c:59-122 | On bytes: sizing succeeds if and only if the type is 2 or 3, the program headers are in the file and fewer than 32768, the lowest PT_LOAD address is on a page, and the section headers are in the file if asked for. |
| `ElfMeaning.SizedMeaning` | common/ld/elf_ld/elf64_ld.c:93-176 | On bytes: every one of the e_phnum headers that is PT_LOAD with a memory size lies between the reported bounds, both bounds are attained, the entry is e_entry, and the section table is on the next multiple of 16 with the end behind it. |
| `ElfSegments.ReadImage` | common/ld/image_accessors/image_access_mem.c:29-40 | Reports the 32-bit count, which is the one asked for exactly when the file holds the stretch; a read that begins in the file copies what the file holds of it and changes nothing else. |
| `ElfSegments.SegmentByte` | common/ld/elf_ld/elf32_ld.c:227-261 | After the segment loop byte j of each of the disjoint segments is file byte p_offset+j below min(filesz, memsz), and 0 up to memsz. |
| `ElfSegments.GapByte` | common/ld/elf_ld/elf64_ld.c:225-271 | A byte of the target in no segment is as it was. |
| `ElfMeaning.CopiedMeaning` | common/ld/elf_ld/elf32_ld.c:227-261 | On bytes, for every PT_LOAD header of the file: byte j of its segment is file byte p_offset+j below p_filesz and 0 behind it. |
| `ElfMeaning.GapMeaning` | common/ld/elf_ld/elf32_ld.c:227-261 | On bytes: what is in no PT_LOAD segment is as the target held it. |
| `ElfSegments.HeadersArrive` | common/ld/elf_ld/elf32_ld.c:263-267 | If the lowest segment carries the headers, the target begins with the file's own headers. |
| `ElfSegments.CopySegment` | common/ld/elf_ld/elf32_ld.c:237-260 | One segment is copied and its BSS zeroed if and only if the file holds all of its file part; if that begins in the file, nothing outside the target changes in either case. |
| `ElfSegments.CopySegments` | common/ld/elf_ld/elf64_ld.c:225-271 | The loop succeeds if and only if all segments are in the file, leaves exactly the copied image in the target and nothing else changed (on failure too, if all begin in the file), and finds the last PT_DYNAMIC. |
| `ElfPatches.PatchedWord` | common/ld/elf_ld/elf32_ld.c:364-437 | Each patched word reads as its value plus the relocation offset, modulo the word. |
| `ElfPatches.PlacedWords` | common/ld/elf_ld/elf_ld.c:78-86 | In two placements of the same patches, over any memories, a patched word differs by exactly the distance of the targets. |
| `ElfPatches.PlacedBytes` | common/ld/elf_ld/elf_ld.c:78-86 | Bytes outside patched words stay as they were. |
| `ElfHeaders.RebaseHeaders` | common/ld/elf_ld/elf32_ld.c:263-275 | Although the loop re-reads the headers it is changing, it adds the offset to p_paddr and p_vaddr of exactly the headers with a memory size, once, and changes nothing else. |
| `ElfHeaders.RebaseByZero` | common/ld/elf_ld/elf32_ld.c:263-275 | An image loaded at its link address keeps the program headers of its file, byte for byte. |
| `ElfRelocation.ReadDynamic` | common/ld/elf_ld/elf32_ld.c:317-378 | The loop over the dynamic section finds, for each tag, its last value, and from them the one table that is fully described: RELA first, then, in 32-bit files, REL. |
| `ElfRelocation.RelocStep` | common/ld/elf_ld/elf32_ld.c:370-436 | An entry handled in turn, on memory that earlier entries have changed, writes the patch it asked for at the start. |
| `ElfRelocation.RelocateEntry` | common/ld/elf_ld/elf32_ld.c:376-390 | The two-stage store of an addend and then a symbol amounts to one store of their sum with the offset. |
| `ElfRelocation.Relocate` | common/ld/elf_ld/elf64_ld.c:363-385 | The table is processed if and only if all its types are supported; then exactly its patches are written, and on failure nothing outside the target has changed. |
| `ElfRelocation.DoRelocation` | common/ld/elf_ld/elf32_ld.c:284-440 | Relocation succeeds if and only if the dynamic section is in the file, a table is described and all types are known, with the patches as its whole effect. |
| `ElfDynamic.TagFound` | common/ld/elf_ld/elf32_ld.c:317-362 | The loop over the dynamic section finds exactly what the last entry with a tag gives, and nothing if there is none. |
| `ElfDynamic.TableChosen` | common/ld/elf_ld/elf32_ld.c:364-406 | A fully described RELA table is used, otherwise in a 32-bit file a described REL table, with as many entries as its size holds; a size of 2 GB and more counts as negative. |
| `ElfDynamic.TableMissing` | common/ld/elf_ld/elf32_ld.c:436-438 | Relocation has no table if and only if neither is described. |
| `ElfDynamic.RelaMeaning` | common/ld/elf_ld/elf32_ld.c:364-395 | On bytes: every RELA entry within DT_RELASZ has been applied. A word of type 8 holds r_addend plus the offset, one of type 1 also st_value of its symbol, modulo the word; there are no other types but 0. |
| `ElfDynamic.RelMeaning` | common/ld/elf_ld/elf32_ld.c:397-435 | On bytes: every REL entry within DT_RELSZ has been applied to the word found in place. |
| `ElfDynamic.HeaderMeaning` | common/ld/elf_ld/elf64_ld.c:273-284 | On bytes: p_paddr and p_vaddr of every header with a memory size hold what the file says plus the offset. |
| `ElfDynamic.RestMeaning` | common/ld/elf_ld/elf32_ld.c:263-282 | On bytes: what is in no address field of a header and in no word that an entry of the described table relocates is as it was copied. |
| `ElfDynamic.StaticMeaning` | common/ld/elf_ld/elf32_ld.c:263-282 | The same for an image without PT_DYNAMIC. |
| `ElfDynamic.LoadsExactlyWhen` | common/ld/elf_ld/elf64_ld.c:306-388 | On bytes: an image with a dynamic section loads if and only if that is in the file, describes a table, and the table has known types only. |
| `ElfLoad.TableKept` | common/ld/elf_ld/elf32_ld.c:263-282 | Rebasing the headers first changes neither what relocation reads nor what it writes. |
| `ElfLoad.TargetWordsPlaced` | common/ld/elf_ld/elf32_ld.c:263-282 | All words that depend on the target lie in it and apart from each other. |
| `ElfPlacement.LoadsAnywhere` | common/ld/elf_ld/elf_ld.c:72-106 | If what relocation reads and patches lies in segments, then whether an image loads and which words it patches does not depend on what the target held before. |
| `ElfPlacement.PositionIndependence` | common/ld/elf_ld/elf_ld.c:72-106 | For any two targets, whatever each held before: the loaded images have the same target-dependent words, which differ by exactly the distance modulo the word; all other bytes of segments agree; bytes in no segment are as each target held them. |
| `ElfLoad.RelocationReady` | common/ld/elf_ld/elf32_ld.c:277-282 | After rebasing, relocation can run, and will succeed if and only if the image loads. |
| `ElfLoad.RelocationCompletes` | common/ld/elf_ld/elf32_ld.c:277-282 | Relocating the rebased image gives the loaded image of the closed form. |
| `ElfLoad.LoadExecutable` | common/ld/elf_ld/elf32_ld.c:191-282 | The second pass succeeds if and only if the image loads; then the target holds the loaded image and all other memory is unchanged, which also holds of a failure half-way unless a segment begins past the end of the file. |
| `ElfRecords.EhdrReadBack` | common/ld/elf_ld/elf_info.c:50-82 | An ELF header written field by field as the gABI lists them, of either class, is read back as it was. |
| `ElfRecords.WrittenHeaderIsValid` | common/ld/elf_ld/elf_info.c:50-82 | Written for a class, it is valid for that class. |
| `ElfRecords.PhdrReadBack` | common/ld/elf_ld/elf32_ld.c:92-97 | So is a program header, in the different field orders of the classes. |
| `ElfRecords.ShdrReadBack` | common/ld/elf_ld/elf32_ld.c:145-151 | So is a section header. |
| `ElfRecords.DynReadBack` | common/ld/elf_ld/elf32_ld.c:317-323 | So is a dynamic entry. |
| `ElfRecords.RelocationReadBack` | common/ld/elf_ld/elf32_ld.c:369-377 | So is a relocation entry, by its index in a table. |
| `ElfRecords.SymReadBack` | common/ld/elf_ld/elf64_ld.c:363-385 | So is the value of a symbol, which the classes keep in different places. |
| `ElfSample.SampleExists` | common/ld/elf_ld/elf_ld.c:35-59 | There is a file of each class with two program headers, a dynamic section and a relocation, written with these structures. |
| `ElfSample.SampleLoads` | common/ld/elf_ld/elf32_ld.c:191-282 | It meets the assumptions on files and those of position independence together, and loads over any memory, with five words that depend on the target. |
| `ElfSample.SampleIsSized` | common/ld/elf_ld/elf_ld.c:152-213 | It is recognised as its class and sized by the exported functions: 200 bytes for the 32-bit file, 316 for the 64-bit one. |
| `ElfImage.Classify` | common/ld/elf_ld/elf_ld.c:35-59 | On bytes: a file is 32-bit if and only if it has 64 bytes, begins 7F 45 4C 46 01 01 01 and has machine 3 and version 1; 64-bit if it begins 7F 45 4C 46 02 01 with machine 62 and version 1. At most one class fits, so the order of the tests does not matter. |
| `ElfImage.SizedInOrder` | common/ld/elf_ld/elf_ld.c:152-187 | A file that passes sizing has a loadable segment, so its reported size is positive. |
| `ElfImage.ReportedSizeSuffices` | common/ld/elf_ld/elf_ld.c:176 | Every segment fits a buffer of the reported size at its place. |
| `ElfImage.GetImageInfo` | common/ld/elf_ld/elf_ld.c:152-187 | Reports class and size exactly for the files that can be sized. |
| `ElfImage.LoadImage` | common/ld/elf_ld/elf_ld.c:108-213 | Loading succeeds if and only if the image loads, writes only the reported size from the target on (also on failure, unless a segment begins past the end of the file), and returns the entry point moved with the image. |
| `ElfSections.PassesAgree` | common/ld/elf_ld/elf32_ld.c:145-167 | If alignments are powers of two and the offset is a multiple of each, both passes' cursors stay the offset apart. |
| `ElfSections.PassesAgreeExactlyWhenAligned` | common/ld/elf_ld/elf32_ld.c:488-536 | Every section is placed the offset away from where it was sized if and only if the offset is a multiple of every alignment in use. |
| `ElfSections.PassesDisagree` | common/ld/elf_ld/elf32_ld.c:513-518 | An 8 KB alignment and an offset of 4 KB make the copying pass end elsewhere than was sized. |
| `ElfSections.PlacesDisjoint` | common/ld/elf_ld/elf64_ld.c:435-484 | Placed sections are behind the table and pairwise disjoint in file order, for all alignments. |
| `ElfSections.PlacesAligned` | common/ld/elf_ld/elf64_ld.c:435-484 | Every placed section is where its alignment, a power of two, asks. |
| `ElfSections.CursorMoves` | common/ld/elf_ld/elf32_ld.c:145-167 | The cursor moves for sections that are not empty and have no address, and no others: to the end of the section, from the next multiple of its alignment. |
| `ElfSections.CopySectionHeaderTable` | common/ld/elf_ld/elf32_ld.c:450-486 | Succeeds if and only if the target begins with a valid header and the table is in the file; then the table is in place and e_shoff points to it. Without a valid header nothing changes, and a short read changes nothing outside the table's place if it begins in the file. |
| `ElfSections.SectionByte` | common/ld/elf_ld/elf32_ld.c:520-533 | Each placed section's bytes at its place are its file bytes, also after later sections were placed. |
| `ElfSections.SectionAddress` | common/ld/elf_ld/elf32_ld.c:500-532 | Every copied header ends up with the address of its section: its own plus the offset modulo the word, or its place, or 0 if empty. |
| `ElfSections.CopySections` | common/ld/elf_ld/elf32_ld.c:488-536 | Succeeds if and only if all placed sections are in the file, with the layout as its whole effect and the cursor at its end; if all begin in the file, nothing outside the table and the room behind it changes even on failure. |
| `ElfSections.TwoPassLayout` | common/ld/elf_ld/elf64_ld.c:127-168 | The copying pass sees exactly the sections the sizing pass saw and ends at the sized end plus the offset. |
| `ElfTables.TableInMemory` | common/ld/elf_ld/elf32_ld.c:470-484 | After the table was copied the loaded header differs in e_shoff alone, and the table reads as the file's. |
| `ElfTables.LayoutReady` | common/ld/elf_ld/elf64_ld.c:435-484 | In the target that sizing asked for, the copied table describes the file's sections and their layout ends exactly at the sized end, moved. |
| `ElfTables.CopyTables` | common/ld/elf_ld/elf32_ld.c:284-292 | The optional tables are copied if and only if they are in the file; when both are asked for the first status, which is overwritten, is always a success. |
| `ElfTables.LoadWithTables` | common/ld/elf_ld/elf64_ld.c:190-303 | The whole second pass: image, then table, then sections up to the sized end, each the specified function of the memory before it, if and only if the image loads and the tables are in the file. |
| `Bytes.LeRoundTrip` | common/ld/elf_ld/elf32_ld.c:376-383 | A stored little-endian word is read back as it was. |
| `Bytes.LeInverse` | common/ld/elf_ld/elf32_ld.c:376-383 | Storing a word that was read changes no byte. |
| `Bytes.ZeroFill` | pre_os/xmon_loader/utils/memory/memory.c:25-32 | The stretch is zero and nothing else has changed. |
| `Bytes.CopyIn` | pre_os/xmon_loader/utils/memory/memory.c:69-76 | The stretch holds the data and nothing else has changed. |
| `MemoryMap.EntryRoundTrip` | pre_os/common/include/multiboot1.h:128-135 | A map entry written to memory reads back as it was. |
| `MemoryMap.EntryOnBytes` | pre_os/common/include/multiboot1.h:128-135 | An entry given byte by byte is read as size, base, length and type in this order; AVAILABLE is 1, RESERVED 2, BAD 5. |
| `MemoryMap.TableRoundTrip` | pre_os/xmon_loader/e820.c:235-291 | So does a whole table. |
| `MemoryMap.TypeOfCovered` | pre_os/xmon_loader/e820.c:235-291 | In a valid map the entry that covers an address decides its type. |
| `MapEdit.EditMeaning` | pre_os/xmon_loader/e820.c:211-294 | If an AVAILABLE entry contains the range, the edit succeeds, every hidden address becomes RESERVED, every other keeps its type, the total length is conserved and one or two entries are added. |
| `MapEdit.EditCorrectExactlyWhenContained` | pre_os/xmon_loader/e820.c:235-291 | The edit reports success with the wanted map if and only if one AVAILABLE entry contains the range. |
| `MapEdit.UnmetRangeIsNotHidden` | pre_os/xmon_loader/e820.c:239-244 | A range that no entry meets is reported as hidden and has no type afterwards. |
| `MapEdit.RangeFromBelowIsOffered` | pre_os/xmon_loader/e820.c:253-256 | A range that begins below its entry is reported as hidden while the entry's first address is still offered. |
| `MapEdit.HiddenIsNotOffered` | pre_os/xmon_loader/e820.c:235-291 | After any success on a range that does not begin below an entry it meets, the map is valid and offers no hidden address. |
| `MapEdit.EditGrowth` | pre_os/xmon_loader/e820.c:226-232 | Room for two more entries is always enough, and all entries written fit their fields. |
| `HideMemory.PutPieces` | pre_os/xmon_loader/e820.c:248-284 | The pieces of a split entry are appended to the new table, or the range is found to end outside the entry. |
| `HideMemory.BuildMap` | pre_os/xmon_loader/e820.c:235-286 | The stride walk over the old table writes the edited map into the new one, within its room, or fails exactly when the edit does. |
| `HideMemory.BuildTable` | pre_os/xmon_loader/e820.c:235-286 | The new table reads back as the edited map, the old one as it did, and only the new one's room has changed. |
| `HideMemory.MapFlag` | pre_os/xmon_loader/e820.c:218-221 | Bit 6 of the flags, and no other, decides whether there is a map. |
| `HideMemory.HideRuntimeMemory` | pre_os/xmon_loader/e820.c:211-294 | Returns TRUE if and only if there is a map, the heap has room and the edit is defined; then the published table reads as the edited map. On FALSE the published fields and the old table are unchanged. Nothing outside the free part of the heap changes. |
| `Initrd.GetHighestSizedRam` | pre_os/xmon_loader/linux_loader.c:54-89 | Stopping early, it returns what an exhaustive search does: the greatest base of all AVAILABLE entries ending at or below the limit with the length, or 0 if there is none. |
| `Initrd.InsideExactlyWhenRoom` | pre_os/xmon_loader/linux_loader.c:300-306 | The place chosen in a region is the highest page from which the initrd ends in the region, and begins in it if and only if the region has room after rounding its base up to a page. |
| `Initrd.LoweredIsHighest` | pre_os/xmon_loader/linux_loader.c:308-313 | A lowered place is the highest page from which the initrd ends within initrd_addr_max. |
| `Initrd.PlaceMeaning` | pre_os/xmon_loader/linux_loader.c:300-313 | The place in full: the former if it respects the maximum or ends at 4 GB, otherwise the latter. |
| `Initrd.UsualKernelIsServed` | pre_os/xmon_loader/linux_loader.c:289-349 | A 16 MB initrd on a 2 GB machine with initrd_addr_max 0x37FF_FFFF goes to 0x36FF_F000. |
| `Initrd.AlignedHasRoom` | pre_os/xmon_loader/linux_loader.c:300-306 | Page-aligned regions always have. |
| `Initrd.UnalignedRegionIsLeft` | pre_os/xmon_loader/linux_loader.c:300-306 | A region that is not aligned can be left at its lower end. |
| `Initrd.ChoosePlace` | pre_os/xmon_loader/linux_loader.c:281-340 | The place is that of the exhaustive search, or refused in the same cases. |
| `Initrd.PlaceInitrd` | pre_os/xmon_loader/linux_loader.c:246-349 | Allocates, chooses and copies: unless the place crosses 4 GB, which needs an initrd longer than initrd_addr_max, the initrd is in place and nothing but the free heap and that place has changed. |
| `Initrd.KernelBelowExactlyWhen` | pre_os/xmon_loader/linux_loader.c:335-341 | A placed initrd begins past the end of the kernel's memory if and only if that end, in whole pages, is below 4 GB. |
| `Initrd.PlacedExactlyWhenKernelFits` | pre_os/xmon_loader/linux_loader.c:316-341 | With a region, a kernel that ends below 4 GB gets a place if and only if it is relocatable and its pages end at or below the place. |
| `Initrd.NoRegionNoPlace` | pre_os/xmon_loader/linux_loader.c:289-298 | Without an AVAILABLE region of the size that ends by 4 GB and does not begin at 0 there is no place. |
| `Initrd.InitrdInKernel` | pre_os/xmon_loader/linux_loader.c:335-341 | A header with an init_size of 0xFF00_0000 gets the initrd placed inside the kernel's memory. |
| `Initrd.MaxRespectedExactlyWhen` | pre_os/xmon_loader/linux_loader.c:308-313 | The initrd ends within initrd_addr_max if and only if it is not longer than that and its first place does not end exactly at 4 GB. |
| `Initrd.MaxExceeded` | pre_os/xmon_loader/linux_loader.c:308-313 | A region that ends at 4 GB gets the initrd placed at 0xFFFF_F000, past an initrd_addr_max of 0x37FF_FFFF. |
| `Initrd.PlacedAvoidsHidden` | pre_os/xmon_loader/linux_loader.c:300-306 | Whatever is placed in an AVAILABLE entry of the edited map is apart from the hidden range. |
| `Initrd.InitrdSafety` | pre_os/xmon_loader/primary_guest.c:50-54 | After hiding, an initrd that was placed without lowering in a region with room lies in one AVAILABLE entry, apart from the hidden range. |
| `Initrd.LaunchAvoidsHidden` | pre_os/xmon_loader/primary_guest.c:50-54 | The same for the launch as a whole: if it hid the range, the initrd it places is apart from it. |
| `Initrd.BootParamsNeedRoom` | pre_os/xmon_loader/linux_loader.c:246-251 | A heap with less than 4096 bytes and the command line left places nothing. |
| `Initrd.FailedHidingIsNotNoticed` | pre_os/xmon_loader/primary_guest.c:50-54 | With a range that crosses two AVAILABLE entries hiding fails, for all flags and heaps with two pages left, and the launch places the initrd in the range. |
| `Initrd.LoadPrimaryGuest` | pre_os/xmon_loader/primary_guest.c:40-58 | Hide, then place: says exactly when hiding takes effect and where the initrd then goes, by the edited map or, if hiding failed, by the old one; nothing else outside the free heap changes. |
| `MapViews.BuildE820` | pre_os/xmon_loader/e820.c:47-87 | The stride walk builds a table with exactly the entries the indexed loops see; it fails exactly for the flags, the length or the heap, takes one page and changes nothing outside the free heap. |
| `MapViews.FillBootParams` | pre_os/xmon_loader/linux_loader.c:103-123 | The indexed loop counts all entries and copies base, length and type of the first 128, with 2 for type 5, leaving the rest of the table alone. |
| `MapViews.BootParamsMeaning` | pre_os/xmon_loader/linux_loader.c:103-123 | Linux is told RESERVED for an address the map calls BAD, nothing for one it does not cover, and otherwise exactly what the map says. |
| `MapViews.HideAndTell` | pre_os/xmon_loader/primary_guest.c:50-54 | After a successful hide that leaves at most 128 entries, boot_params offers no address of the hidden range; if one AVAILABLE entry contained it, all of it is RESERVED and every other address that is not BAD is told as before. |
| `GuestLaunch.XmonIsReserved` | pre_os/xmon_loader/primary_guest.c:51 | If the loader's block lies in one AVAILABLE entry, hiding succeeds and reserves exactly the memory of startap and xmon. |
| `GuestLaunch.InitrdAvoidsXmon` | pre_os/xmon_loader/primary_guest.c:50-54 | End to end, the initrd is in AVAILABLE memory and apart from startap and from xmon. |
| `Paging.IdentityBelow` | pre_os/xmon_loader/utils/x64/x32_pt64.c:50-127 | Walking the finished tables maps every 32-bit address to itself, writable, for the supervisor only, and cached. |
| `Paging.NothingAbove` | pre_os/xmon_loader/utils/x64/x32_pt64.c:72-83 | Every address from 4 GB to 2^47 hits a non-present entry. |
| `Paging.FillDirectory` | pre_os/xmon_loader/utils/x64/x32_pt64.c:106-121 | The inner loop fills one directory with the 2 MB pages of its gigabyte, in this page only, and leaves the running 32-bit address at the next. |
| `Paging.FreshTable` | pre_os/xmon_loader/utils/x64/x32_pt64.c:68-74 | A page from the heap, holding 512 empty entries, with all other memory unchanged. |
| `Paging.AddDirectory` | pre_os/xmon_loader/utils/x64/x32_pt64.c:89-122 | One turn of the outer loop adds a directory without disturbing the tables built before. |
| `Paging.SetupPaging` | pre_os/xmon_loader/utils/x64/x32_pt64.c:50-137 | For every heap: succeeds if and only if six pages are left, and then the walk from the returned CR3, a bare page address, is the identity on 32-bit space with write access for the supervisor and ordinary caching, and faults above; memory outside the free heap is unchanged. |
| `LoaderHeap.GrantedInsideExactlyWhenNoWrap` | pre_os/xmon_loader/utils/memory/memory.c:36-53 | A granted block lies in the free heap if and only if no sum wrapped. |
| `LoaderHeap.WrappedRequestIsGranted` | pre_os/xmon_loader/utils/memory/memory.c:40-51 | A request of nearly 4 GB is granted and moves the heap backwards. |
| `LoaderHeap.ServedDisjoint` | pre_os/xmon_loader/utils/memory/memory.c:36-53 | Over any sequence of byte and page requests without wrap the blocks granted are pairwise disjoint and inside the heap. |
| `LoaderHeap.EarlierBlockKept` | pre_os/xmon_loader/utils/memory/memory.c:90-108 | Later grants leave the contents of every earlier block alone. |
| `LoaderHeap.GrantedBlocksZero` | pre_os/xmon_loader/utils/memory/memory.c:25-53 | After any run of grants every block is zero until its owner writes to it. |
| `LoaderHeap.PagesFit` | pre_os/xmon_loader/utils/memory/memory.c:90-108 | From a page-aligned heap a sequence of page requests is granted in full if and only if they fit together. |
| `LoaderHeap.MemoryManager.constructor` | pre_os/xmon_loader/utils/memory/memory.c:60-64 | The whole range is free. |
| `LoaderHeap.MemoryManager.AllocateMemory` | pre_os/xmon_loader/utils/memory/memory.c:36-53 | Every request moves the counters as 32-bit arithmetic does; without wrap it returns a zeroed block at the current position; a refusal changes nothing. |
| `LoaderHeap.MemoryManager.PageAlloc` | pre_os/xmon_loader/utils/memory/memory.c:90-108 | Likewise for pages, aligned; a refusal changes nothing, not even the alignment. |
| `Layout.LayoutOrdered` | pre_os/starter/xmon_desc.h:71-89 | For descriptors that fit, package, guest state, loader, heap, startap and xmon follow one another without overlap up to the top of the block, and the hidden range is startap and xmon. |
| `Layout.InOrderExactlyWhenFits` | pre_os/starter/xmon_desc.h:71-89 | In a block below 4 GB the parts are in order if and only if there is room for what lies below xmon. |
| `Layout.ShortBlockWraps` | pre_os/starter/xmon_desc.h:88-89 | A block without room gets an xmon size near 4 GB. |
| `LoaderBoot.AllocateStacks` | pre_os/xmon_loader/xmon_loader.c:171-179 | Succeeds if and only if two pages an AP are left, and stores the tops of consecutive stacks; memory outside the free heap is unchanged. |
| `LoaderBoot.SetupMemory` | pre_os/xmon_loader/xmon_loader.c:101-185 | The loader's allocations succeed if and only if 8 + 2n pages are left; then the stacks are consecutive, paging is the identity, and everything outside the heap, such as the loaded images, is unchanged. |
| `LoaderBoot.HeapBudget` | pre_os/xmon_loader/xmon_loader.c:101-185 | In the loader's own heap all allocations succeed if and only if 8 + 2n <= 160, and the blocks are then disjoint and in the heap. |
| `LoaderBoot.StacksInHeap` | pre_os/xmon_loader/xmon_loader.c:171-179 | The stack tops stored are those of disjoint stacks in the loader heap. |
| `LoaderBoot.ApsRunOnHeapStacks` | startap/wakeup_init64.S:33-56 | In every interleaving of a boot within the budget, APs past stage 2 run on disjoint 8 KB stacks between the heap's base and startap. |
| `Trampoline.FillGivesPatched` | startap/ap_procs_init.c:228-251 | The ten stores, one after another, give every operand its value and leave every opcode byte alone. |
| `Trampoline.PatchedDecodes` | startap/ap_procs_init.c:120-152 | Decoding patched code, first as 16-bit and after the far jump as 32-bit code, yields exactly the intended instructions and operands. |
| `Trampoline.NarrowEffect` | startap/ap_procs_init.c:124-134 | Executing the 16-bit part loads GDTR from the page, sets bit 0 of CR0 alone, and goes on at the 32-bit part with the BSP's code selector. |
| `Trampoline.WideEffect` | startap/ap_procs_init.c:135-149 | Executing the 32-bit part turns interrupts off, gives ds, es, gs, fs and ss the BSP's selectors, and goes on in the wake-up code. |
| `Trampoline.PageLayout` | startap/ap_procs_init.c:170-172 | GDTR is at the next multiple of 8 behind the code and the GDT 8 bytes on. |
| `Trampoline.SetupLowMemory` | startap/ap_procs_init.c:186-267 | The page decodes to the intended start-up code, GDTR names a byte-identical copy of the GDT, and memory outside the page is unchanged. |
| `Trampoline.StartupAddress` | startap/ap_procs_init.c:482-488 | The IPI vector fits a byte, and vector * 4096 and segment * 16 are both the page's address. |

## Left out

- Timing: TSC calibration and stalls; the wait before enumeration is the assumption `timely`.
- APIC register access, IPI delivery, MSRs, the selection of APs for a targeted post-OS start, the switch to 64-bit mode, GDT64, IDT, screen output and the UNIPROC build.
- An AP with APIC id 0, and APs beyond the stacks, which would read past `i32_esp`; the model stops such an AP as faulted.
- A user function that returns: the entry point of the image is taken not to.
- SFI and EFI sources of the memory map, which are not used, and the file-backed image accessor, which is not built.
- The kernel command line, video mode, header defaults and module lookup of the Linux loader; an absent initrd; boot protocols below 2.10.
- Disjointness of the initrd from the loader heap, and membership in a region after the lowering to initrd_addr_max: the code does not establish them.
- Overlap of the mapped file with the load target: the file is a value in the model.
- Dynamic tables at address 0, which the code takes for absent.
- ElfSegments.ReadImage: says nothing of memory after a read that begins past the end of the file, which copies nearly 4 GB.
- ElfTables.LoadWithTables: says nothing of memory after a failure; the members it calls do.
- LoaderHeap.MemoryManager.AllocateMemory: says nothing of the memory cleared by a request that wraps.
- LoaderHeap.MemoryManager.PageAlloc: as AllocateMemory.
- MapViews.BuildE820: returns the entries as a sequence, because the byte layout of the xmon e820 table is not declared in the repository.
- MapViews.FillBootParams: entries past the 128th, which the code writes behind the table, are counted and not stored.
- Initrd.PlaceInitrd: says nothing of memory if the place crosses 4 GB.
- Initrd.LoadPrimaryGuest: as PlaceInitrd.
