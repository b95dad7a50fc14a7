# Boot-time memory, video and boot-option logic, verified

This project models three parts of an EDK II tree and proves what they promise. Each part keeps the
form of the C code: tables, buffers and registers that are updated in place are classes and arrays
whose methods are proved against mathematical functions, and the properties are lemmas about those
functions.

## What is modelled

**The DUET loader's memory pipeline.** `MemoryMap.dfy` is the table of page descriptors with its two
operations, carving a region and allocating from the top; `E820.dfy` turns a BIOS memory list into that
table with 64-bit rounding and the ceiling pass. `PageViews.dfy` gives the table a meaning, how many
entries give a page each type and attribute, and shows that carving is a point update of it;
`Allocation.dfy` does the same for allocation and for runs of allocations, `FreePages.dfy` relates
the free pages to the bytes of the BIOS list, and `MemoryMarks.dfy` gives the whole finished table in the
numbers of the list. `PeRelocation.dfy` runs relocation blocks over the bytes
of an image and logs every fixup; `RelocationGroup.dfy` shows that relocating is adding, up to the
width of each field, and `NarrowLog.dfy` which directories outgrow their log in a build with 4-byte
words. `EfiLoader.dfy` is the sequence of allocations, `HobGeneration.dfy` and
`DxeInit.dfy` derive the hand-off blocks, and `EndToEnd.dfy` carries one theorem from the BIOS list to
the finished blocks; `Witness.dfy` gives boots that meet its premises. Memory types follow section
6.2 of UEFI 2.4, the BIOS list section 14.1 of ACPI 2.0, relocations section 5.6 of the PE/COFF
specification, revision 8.

**The block-transfer engine.** `Bits.dfy` and `Frames.dfy` are bytes as bits and the painting of
rectangles of rows; `Colours.dfy` packs and unpacks pixels by the fields of a mode; `VideoMemory.dfy`,
`VbeBlt.dfy` and `VbeDevice.dfy` are the VESA path, whose working buffer shadows video memory, and
`VbeBytes.dfy` says what it does to the bytes of both memories;
`VgaPlanar.dfy`, `VgaBlt.dfy` and `VgaLines.dfy` are the VGA path, which writes four bit planes
through latches and a bit mask register, and `VgaColours.dfy` its colours in bits and numbers. `Blt()` is section 11.9 of UEFI 2.4, `CopyMem` section 6.5.

**The ARM boot-option store.** `BootLists.dfy`, `BootStore.dfy` and `BootMenu.dfy` are the Boot####
variables, the BootOrder variable and the list in memory, changed together by creating, updating,
deleting and reordering; `LoadOption.dfy` is the byte form of a load option (section 3.1.3 of
UEFI 2.4), its parser and the reader of Linux arguments. `MemoryInitPei.dfy` splits the system-memory
block around the firmware device.

`Words.dfy` and `Cells.dfy` hold machine words, page arithmetic and little-endian cells.

## Where the code does less than it seems to promise

Each of these is proved, with the exact condition under which the code does what is expected.

- The rounding of the BIOS list subtracts without a check: a misaligned usable entry that ends before
  the next page boundary wraps around. The free pages of the table of the whole list are the usable ones
  if and only if there is no such entry; with one, the last page of the address space ends up free
  whatever entries follow (`FreePages.ExactIffAllReach`).
- Relocating by A and then by B is relocating by A + B if and only if no HIGH field loses a carry
  (`RelocationGroup.AdjustmentsAddUp`).
- The fixup log is sized by the width of UINTN. With 4-byte words, and behind any image header, the pages
  reserved hold the log of every well-formed directory of an even size if and only if the size is at most
  1032 bytes or between 2050 and 2056; one block of DIR64 entries of any other size outgrows them
  (`NarrowLog.NarrowLogFitsIff`).
- The firmware volume header's checksum is right if and only if its field was zero before
  (`HobGeneration.ChecksumIffFieldZero`); the header is a static variable.
- The block list is copied to CONSUMED_MEMORY below the memory top, which lies inside the memory above
  1 MB if and only if that memory is at least CONSUMED_MEMORY long (`DxeInit.BottomInsideIff`). Boots
  with less meet every other promise (`Witness.SmallMemoryMissesList`).
- The bounds checks of a block transfer add in 64 bits. An accepted rectangle lies on the screen if and
  only if neither sum wraps around (`VbeDevice.AcceptedOnScreenIff`); one whose sums wrap is accepted
  (`VbeDevice.WrappedAccepted`). A fill from a line of the screen whose vertical sum wraps writes that
  line to the working buffer and shows nothing: an accepted fill keeps buffer and screen equal for
  every frame and colour if and only if that sum does not wrap (`VbeDevice.FillKeepsCoherentIff`).
- The loops of a write and of a read count places of the client's buffer, whose 64-bit ends are not
  checked: when such an end wraps around the transfer succeeds and does nothing (`VbeDevice.BiosVideo.Blt`).
- A VGA fill that starts at a multiple of eight and is eight pixels wide paints nothing
  (`VgaBlt.VideoFill`).
- Light grey and three pure colours change when what is read from a VGA screen is written again: a colour
  shows the same if and only if its number is none of 7, 9, 10 and 12 (`VgaColours.ShownAgainIff`).
- A device path of 64 KB or more is cut to its size modulo 64 KB (`LoadOption.SerialisedLaidOut`).
- When the BIOS refuses a mode, the working buffer has already been replaced by unread memory for the new
  mode while the old mode stays current: the device is coherent if and only if that memory happens to
  equal the old mode's frame. After a mode change that succeeds it is coherent if and only if the
  bytes behind the last whole word of the frame do (`VbeDevice.BiosVideo.SetMode`).
- With all 65536 boot indices taken, a new option overwrites option 0 and BootOrder lists it twice
  (`BootStore.Store.Create`); deleting an index that BootOrder does not list drops its last entry
  (`BootStore.Store.DeleteOption`); an input error in the middle of a move leaves the list moved while
  BootOrder is not (`BootMenu.Reorder`).
- A variable of fewer than twelve bytes is left out of the list of boot options: the list read from sound
  variables agrees with them if and only if there is none (`BootMenu.LoadList`).
- A Linux option hands over its command line as a pointer. What is read there is the command line
  that was written if and only if its first zero byte is its last (`LoadOption.CmdLineReadBack`); an empty
  one, as the default entry may have, becomes the bytes of the initrd path
  (`LoadOption.EmptyCmdLineReadsInitrd`).
- Raw optional data is taken for Linux arguments if and only if it begins, together with the memory
  after it, with their signature (`LoadOption.RawRoundTrip`).
- More than the firmware device is marked non-present if and only if the device starts the block found
  and ends at the top of system memory while the block reaches further
  (`MemoryInitPei.OnlyDeviceIffExact`).

The drawing in `DuetPkg/DxeIpl/DxeInit.c` calls CONSUMED_MEMORY 4 MB; the constant is 80 MB
(`DuetPkg/DxeIpl/HobGeneration.h`), and the model follows the constant.

## Model

| member | source | states |
|---|---|---|
| MemoryMap.DescriptorTable.Add | DuetPkg/EfiLdr/Support.c:22-88 | the table after the call is the carving function of the old table, entry by entry, with the count raised by the entries added and the slots beyond untouched |
| MemoryMap.DescriptorTable.HighestEligible | DuetPkg/EfiLdr/Support.c:104-129 | the scan finds the highest-starting eligible entry before the first runtime entry above 1 MB, or that there is none |
| MemoryMap.DescriptorTable.FindSpace | DuetPkg/EfiLdr/Support.c:90-149 | zero and the table unchanged when nothing is eligible, otherwise the top pages of the picked entry and no others |
| PageViews.AddIsPointUpdate | DuetPkg/EfiLdr/Support.c:44-85 | for every page and mark: a page of the region loses its free entry and gains the new mark, every other page keeps its counts |
| PageViews.AddKeepsExclusive | DuetPkg/EfiLdr/Support.c:44-87 | free entries stay disjoint from every other entry, and the table grows by at most 2 |
| PageViews.RegionTakenIffCarvable | DuetPkg/EfiLdr/Support.c:51-84 | after the call no page of the region is free if and only if the region is inside one free entry or touches none |
| PageViews.LastWriterWins | DuetPkg/EfiLdr/Support.c:166-223 | over any run of clean regions each page has the mark of the last region that covers it |
| PageViews.AddAllUnmapped | DuetPkg/EfiLdr/Support.c:51-87 | no run of additions gives a descriptor a virtual address |
| Allocation.FindSpaceDeterministic | DuetPkg/EfiLdr/Support.c:107-148 | table and address after an allocation are determined by the table before |
| Allocation.FailsIffNoneEligible | DuetPkg/EfiLdr/Support.c:131-133 | the call returns zero exactly when no eligible entry precedes the horizon |
| Allocation.AllocationIsPointUpdate | DuetPkg/EfiLdr/Support.c:135-148 | exactly the pages returned change from free to the new type and attribute, and the range ends at or below 4 GB |
| Allocation.HighestCandidate | DuetPkg/EfiLdr/Support.c:104-148 | on a placed table the result is the top of the highest conventional entry (type 7) of the size that ends above 1 MB and at or below 4 GB, before the first runtime entry (types 5 and 6) that ends above 1 MB; zero if and only if there is none |
| Allocation.AllocationMarks | DuetPkg/EfiLdr/Support.c:135-146 | every page handed out has the type and attribute asked for |
| Allocation.AllocationKeepsMarks | DuetPkg/EfiLdr/Support.c:135-146 | no page loses a mark that is not conventional, and no descriptor gets a virtual address |
| Allocation.AllocationKeepsExclusive | DuetPkg/EfiLdr/Support.c:135-146 | disjointness and placement of the table survive every allocation |
| Allocation.FreeOnlyShrinks | DuetPkg/EfiLdr/Support.c:135-146 | no page becomes free by an allocation |
| Allocation.AllocatedWasFree | DuetPkg/EfiLdr/Support.c:111-119 | every page returned was free before and is not free after |
| Allocation.StackDownward | DuetPkg/EfiLdr/Support.c:135-148 | over a run of allocations from one entry, each result plus its size is the result before it |
| E820.RoundEntry | DuetPkg/EfiLdr/Support.c:168-214 | the region and the ceiling of one BIOS entry, with 64-bit wrap-around |
| E820.LowerToCeiling | DuetPkg/EfiLdr/Support.c:225-236 | the ceiling pass over the whole table |
| E820.GenMemoryMap | DuetPkg/EfiLdr/Support.c:151-237 | the table is the lowered table of all rounded regions, in the order of the list; MemoryMarks.TableMarks says what it holds in numbers |
| E820.RoundsInwardIffReaches | DuetPkg/EfiLdr/Support.c:192-198 | a usable entry rounds to the pages wholly inside it if and only if it is aligned or reaches the next page boundary |
| E820.Underflow | DuetPkg/EfiLdr/Support.c:195-198 | the region of an entry that does not reach it has a wrapped length |
| E820.RoundsOutward | DuetPkg/EfiLdr/Support.c:199-205 | any other entry rounds from the page of its first byte to pages that cover all its bytes |
| FreePages.OtherPages | DuetPkg/EfiLdr/Support.c:199-205 | it ends at or behind its last byte, and less than a page behind it |
| FreePages.FreeIsUsable | DuetPkg/EfiLdr/Support.c:166-223 | for every list of disjoint entries in any order: a page is free exactly when it lies wholly inside one usable entry |
| FreePages.ExactIffAllReach | DuetPkg/EfiLdr/Support.c:151-223 | in the table of the whole list every page of the address space is free exactly when it is usable, if and only if every misaligned usable entry reaches the next page boundary |
| FreePages.ShortFreesTop | DuetPkg/EfiLdr/Support.c:44-85 | with a short entry anywhere in the list some entry of its table makes the last page of the address space free: no later entry carves that page away |
| FreePages.FreeTouchesNoReservedByte | DuetPkg/EfiLdr/Support.c:166-223 | no byte of a free page belongs to a reserved, ACPI or NVS entry |
| FreePages.FreeAfterCeiling | DuetPkg/EfiLdr/Support.c:151-237 | pages free in the finished table lie wholly inside a usable entry |
| FreePages.CeilingRespected | DuetPkg/EfiLdr/Support.c:206-213 | every free entry that starts strictly between 1 MB and 4 GB ends at or below the lowest rounded base of another entry there |
| FreePages.MemoryMapExclusive | DuetPkg/EfiLdr/Support.c:151-237 | the finished table is well placed and its free entries are disjoint from all others |
| MemoryMarks.CeilingExact | DuetPkg/EfiLdr/Support.c:165-213 | the ceiling is the lowest page base, between 1 MB and 4 GB, of an entry that is not usable, and 4 GB - 1 if and only if there is none |
| MemoryMarks.TableMarks | DuetPkg/EfiLdr/Support.c:168-236 | for every list of disjoint entries that reach their page boundaries, and every page, type and attribute: the finished table gives the page that mark if and only if an entry that speaks for the page does, a usable one for the pages inside it (7, or 0 behind an obstruction below 4 GB, write-back), any other for the pages it touches (type 3 gives 9 and write-back, type 4 gives 10, all others 0, uncached) |
| MemoryMarks.UsableMarkedOnce | DuetPkg/EfiLdr/Support.c:168-236 | a page inside a usable entry has one mark only |
| PeRelocation.PatchAndLog | DuetPkg/EfiLdr/PeLoader.c:463-516 | one entry: the cell of its type moves by its part of the adjustment, and its new value is logged at the aligned place |
| PeRelocation.RelocateBlock | DuetPkg/EfiLdr/PeLoader.c:449-520 | one block: the entries applied in order, or the error of the first that is not supported |
| PeRelocation.RelocateBlocks | DuetPkg/EfiLdr/PeLoader.c:447-524 | all blocks: the loop ends, and the image holds every entry's patch in order |
| PeRelocation.Relocate | DuetPkg/EfiLdr/PeLoader.c:404-534 | the whole run for every well-formed directory |
| PeRelocation.HeaderBytes | DuetPkg/EfiLdr/PeLoader.c:447-455 | the page and the size of a block, byte by byte |
| PeRelocation.FirstBlock | DuetPkg/EfiLdr/PeLoader.c:447-466 | the entries of a directory, byte by byte: those of the first block, kind in the upper four bits and offset in the lower twelve, then those of the other blocks; none when the block leaves the image |
| PeRelocation.HangsIff | DuetPkg/EfiLdr/PeLoader.c:466-516 | the loops hang if and only if an entry has another kind than 0, 1, 2, 3 and 10 |
| PeRelocation.SlotInNumbers | DuetPkg/EfiLdr/PeLoader.c:471-504 | eight bytes are logged at the next multiple of eight, four at the next multiple of four, two where the log ends |
| PeRelocation.LogInNumbers | DuetPkg/EfiLdr/PeLoader.c:471-504 | the log holds the new value of every entry in the width of its kind, one behind the other |
| PeRelocation.LogBound | DuetPkg/EfiLdr/PeLoader.c:466-505 | after n entries in any mix, with alignment padding, the log offset is at most n words |
| PeRelocation.LogFits | DuetPkg/EfiLdr/PeLoader.c:436-440 | blocks that tile the directory never outgrow the pages reserved for the log |
| Cells.CellOfEight | DuetPkg/EfiLdr/PeLoader.c:497-505 | a field of eight bytes is its lower four, lowest byte first, and its upper four |
| RelocationGroup.TargetMoves | DuetPkg/EfiLdr/PeLoader.c:466-505 | each target cell moves by its own entry alone, whatever the others do |
| RelocationGroup.TargetValue | DuetPkg/EfiLdr/PeLoader.c:466-505 | what the run leaves in each target: kind 10 the old eight bytes plus the adjustment, kind 3 four bytes and kind 2 two bytes of that sum, kind 1 two bytes plus the upper half of the low 32 bits, each modulo its width |
| RelocationGroup.OthersKept | DuetPkg/EfiLdr/PeLoader.c:466-505 | no byte changes that no entry points at by its kind |
| RelocationGroup.AdjustmentsAddUp | DuetPkg/EfiLdr/PeLoader.c:466-505 | patching by A then B equals patching by A + B if and only if no HIGH target loses a carry |
| RelocationGroup.RelocationsAddUp | DuetPkg/EfiLdr/PeLoader.c:447-524 | the same for the whole directory, read again by the second run |
| RelocationGroup.RelocationUndone | DuetPkg/EfiLdr/PeLoader.c:447-524 | relocating by A and then by -A restores the image if and only if no HIGH entry is present or A is a multiple of 64 KB |
| NarrowLog.WideEnough | DuetPkg/EfiLdr/PeLoader.c:466-505 | any entries at all of a tiled directory of a given size take at most 4 bytes of log for each byte behind a first header |
| NarrowLog.OneBlockLog | DuetPkg/EfiLdr/PeLoader.c:447-524 | one block of DIR64 entries behind any image header is a directory that meets the loop's own conditions and is run to its end, and takes eight bytes of log for each entry |
| NarrowLog.WideOverflows | DuetPkg/EfiLdr/PeLoader.c:436-505 | behind any image header and for every other even size some such directory outgrows its pages |
| NarrowLog.NarrowLogFitsIff | DuetPkg/EfiLdr/PeLoader.c:436-524 | with 4-byte words, and for any image header, the logs of all well-formed directories of a size that are run to their end fit their pages if and only if 8 bytes for each entry behind one block header do, that is for the sizes listed |
| EfiLoader.LoadedImage.AddressInsideIff | DuetPkg/EfiLdr/PeLoader.c:549-573 | an image address is accepted exactly when it lies inside the image, and is then the sum |
| EfiLoader.LoadPeRelocate | DuetPkg/EfiLdr/PeLoader.c:404-534 | the status for every image: a directory that ends outside, no pages for the log, and each way the loops end; on success log pages are allocated, the image is relocated, and pages and base of the image cover the log |
| EfiLoader.LoadPeImage | DuetPkg/EfiLdr/PeLoader.c:223-402 | image pages, then log pages when the base differs from the linked one; the status by what was found; on success the bytes are relocated by the difference, and the entry point is base plus the offset in the header, null when that lies outside the image |
| EfiLoader.PointersMove | DuetPkg/EfiLdr/PeLoader.c:404-534 | where a 64-bit field of kind 10 held linked base plus x it holds loaded base plus x after a load, for every x modulo 2^64; for kind 3 the same in 32 bits |
| EfiLoader.ImagePages | DuetPkg/EfiLdr/PeLoader.c:223-224 | the fewest pages that hold the image and its alignment, added in 32 bits, and the debug information |
| EfiLoader.FixupPages | DuetPkg/EfiLdr/PeLoader.c:436 | the fewest pages that hold eight bytes for every two bytes of the directory |
| EfiLoader.RelocateFails | DuetPkg/EfiLdr/PeLoader.c:421-524 | which status each failure has: directory outside, no log pages, an entry of a strange kind, a block that leaves the image |
| EfiLoader.LoadSucceedsIff | DuetPkg/EfiLdr/PeLoader.c:223-402 | a load succeeds if and only if some entry is eligible for the image and, when it is not where the image was linked to, one is for the log and the directory lies inside the image with blocks inside it and entries of known types |
| EfiLoader.LoadImages | DuetPkg/EfiLdr/EfiLoader.c:164-263 | the two images in order and the fields handed to the next phase, among them the entry point of the second image; reached if and only if both loads succeed and the first image has its entry point inside |
| EfiLoader.EfiLoader | DuetPkg/EfiLdr/EfiLoader.c:68-263 | memory map, volume and images on one table, with the trace of every allocation, whether the next phase is reached or not, and exactly when it is |
| EfiLoader.RunMarks | DuetPkg/EfiLdr/EfiLoader.c:115-263 | in the last table of a run the pages of the firmware volume and of the logs are runtime data (type 6) and those of both images runtime code (type 5), all write-back |
| HobGeneration.Hob.PrepareHobMemory | DuetPkg/DxeIpl/HobGeneration.c:587-678 | the three memory ranges as functions of the table, and the end of the one above 1 MB |
| HobGeneration.Above1MBIsChain | DuetPkg/DxeIpl/HobGeneration.c:617-649 | for any table order the range above 1 MB is a chain of adjacent free entries before the first runtime one |
| HobGeneration.Above4GBIsChain | DuetPkg/DxeIpl/HobGeneration.c:650-664 | the same for the range above 4 GB |
| HobGeneration.Above1MBMaximal | DuetPkg/DxeIpl/HobGeneration.c:613-649 | for an ascending disjoint table it is the whole contiguous run from the first such entry: every other candidate lies inside it or behind a gap |
| HobGeneration.Above4GBMaximal | DuetPkg/DxeIpl/HobGeneration.c:650-664 | the same for the range above 4 GB, with its second test |
| HobGeneration.Hob.PrepareHobNvStorage | DuetPkg/DxeIpl/HobGeneration.c:880-933 | storage and fault-tolerant-write volumes below the top, page aligned and adjacent, with their areas at fixed offsets |
| HobGeneration.Hob.PrepareHobStack | DuetPkg/DxeIpl/HobGeneration.c:680-689 | the stack of 128 KB ends at its top |
| HobGeneration.Hob.PrepareHobMemoryDescriptor | DuetPkg/DxeIpl/HobGeneration.c:691-708 | the copy of the table, 40 bytes an entry, starts at the highest page boundary that leaves room for it |
| HobGeneration.Hob.PrepareHobPhit | DuetPkg/DxeIpl/HobGeneration.c:936-945 | memory top, free top, and the bottom 80 MB below the top |
| HobGeneration.PageTableInNumbers | DuetPkg/DxeIpl/X64/Paging.c:184-235 | page tables take a directory for every started 1 GB, a table of these for every started 512 GB and two pages more; none below 2 MB and above 256 TB |
| HobGeneration.Hob.CompleteHobGeneration | DuetPkg/DxeIpl/HobGeneration.c:972-989 | the allocation fills the space between free top and stack, and memory above 1 MB is cut at the memory top |
| HobGeneration.FixHeaderChecksum | DuetPkg/DxeIpl/HobGeneration.c:871-879 | the checksum field becomes the negated 16-bit sum of the header |
| HobGeneration.ChecksumIffFieldZero | DuetPkg/DxeIpl/HobGeneration.c:871-879 | the header sums to zero if and only if the field was zero before |
| DxeInit.PlaceBelowTop | DuetPkg/DxeIpl/DxeInit.c:178-195 | storage, stack, page table and descriptors are placed below one another |
| DxeInit.DxeInit | DuetPkg/DxeIpl/DxeInit.c:115-211 | all ranges and addresses of the finished blocks and the entry point they carry, from the hand-off and the table; Witness.LayoutInNumbers gives them in numbers |
| DxeInit.ResourcesDisjoint | DuetPkg/DxeIpl/DxeInit.c:158-211 | the resource ranges are pairwise disjoint when volume and core are taken pages and memory suffices |
| DxeInit.AllocationTiles | DuetPkg/DxeIpl/HobGeneration.c:972-989 | allocation and stack tile the range from free top to memory top inside the memory above 1 MB |
| DxeInit.ReportedMemoryIsFree | DuetPkg/DxeIpl/HobGeneration.c:613-665 | every page reported above 1 MB or 4 GB is a free page of the table |
| DxeInit.ConsumedMemorySuffices | DuetPkg/DxeIpl/HobGeneration.c:936-945 | the block list copied to the memory bottom ends below the free top if and only if the memory top is at least CONSUMED_MEMORY and list, stack, page table and descriptors together fit |
| DxeInit.BottomInsideIff | DuetPkg/DxeIpl/DxeInit.c:66-80 | the memory bottom lies inside the memory above 1 MB, as it is drawn, if and only if that memory is at least CONSUMED_MEMORY long |
| EndToEnd.DxeCoreLengthExact | DuetPkg/DxeIpl/DxeInit.c:201-205 | the length computed for the core is exactly the two images with their fixups |
| EndToEnd.ResourcesFromMemoryList | DuetPkg/DxeIpl/DxeInit.c:158-211 | from a well-formed BIOS list to pairwise disjoint resources, an exact tiling of allocation and stack, an entry point that lies in the memory of the core exactly when its offset lies in the image, and the condition for the memory bottom |
| EndToEnd.EntryFromMemoryList | DuetPkg/EfiLdr/EfiLoader.c:263 | the entry point in the finished blocks is where the core image was loaded plus the offset in its header, and it lies in the memory of the core if and only if the offset lies in the image |
| EndToEnd.ReportedMemoryIsUsable | DuetPkg/DxeIpl/HobGeneration.c:613-665 | every page reported as memory lies wholly inside one usable entry of the BIOS list |
| EndToEnd.Boot | DuetPkg/EfiLdr/EfiLoader.c:68-268 | the loader and the first step of the next phase, run one after the other, establish that theorem, the entry point included; with the exact condition for the loader to get there |
| Witness.PremisesMet | DuetPkg/EfiLdr/EfiLoader.c:68-263 | for every memory size from 16 MB to 256 MB some boot meets all premises of the end-to-end theorem at once |
| Witness.LayoutInNumbers | DuetPkg/DxeIpl/DxeInit.c:115-211 | every range, address and bound of the finished blocks of these boots, in numbers |
| Witness.SmallMemoryMissesList | DuetPkg/DxeIpl/HobGeneration.c:936-948 | among these boots the block list lies inside the memory above 1 MB if and only if there are at least 0x5034 pages |
| Frames.PaintUnique | DuetPkg/BiosVideoThunkDxe/BiosVideo.c:2020-2159 | a frame is the painted one when its rectangle holds the rows and every other byte is unchanged |
| Frames.SourceIntact | DuetPkg/BiosVideoThunkDxe/BiosVideo.c:2042-2049 | the choice of direction keeps each source row intact until it is copied |
| Frames.CopyIsSimultaneous | DuetPkg/BiosVideoThunkDxe/BiosVideo.c:2041-2074 | copying row by row in place is a simultaneous copy for every overlap of the two rectangles |
| Colours.UnpackPack | DuetPkg/BiosVideoThunkDxe/BiosVideo.c:2032-2035 | a packed pixel is read back with each colour masked by its field, whatever the bytes after it |
| Colours.ExactIffGoodFields | DuetPkg/BiosVideoThunkDxe/BiosVideo.c:2032-2035 | with 24-bit and 32-bit pixels that holds for all colours if and only if the fields are disjoint and fit the bytes of the pixel |
| Colours.RowBack | DuetPkg/BiosVideoThunkDxe/BiosVideo.c:2130-2144 | a whole row of packed pixels is read back masked |
| VideoMemory.CopyMem | MdePkg/Library/BaseMemoryLib/CopyMem.c:32-63 | a copy of the old source bytes for every overlap of source and destination |
| VideoMemory.PutAligned | DuetPkg/BiosVideoThunkDxe/BiosVideo.c:1828-1896 | head, blocks of four and tail are one copy of all the bytes for every alignment |
| VideoMemory.CopyVideoBuffer | DuetPkg/BiosVideoThunkDxe/BiosVideo.c:1808-1897 | the bytes arrive at the place of the pixel in the physical frame, and nothing else changes |
| VbeBlt.VideoToVideo | DuetPkg/BiosVideoThunkDxe/BiosVideo.c:2041-2074 | the frame is the old one with the old source rows painted in the destination, in memory and on the screen |
| VbeBlt.VideoFill | DuetPkg/BiosVideoThunkDxe/BiosVideo.c:2076-2121 | the rows that loops to a 64-bit end go through are filled with the packed colour, in memory and on the screen: all of them, or when the end wraps around the first in memory and none on the screen |
| VbeBlt.BufferToVideo | DuetPkg/BiosVideoThunkDxe/BiosVideo.c:2123-2159 | the packed rows are painted, in memory and on the screen; nothing when the 64-bit end of the rows read wraps around |
| VbeBlt.VideoToBltBuffer | DuetPkg/BiosVideoThunkDxe/BiosVideo.c:2020-2039 | the rectangle's pixels, unpacked, are painted in the buffer and nothing else there changes; nothing when the 64-bit end of the rows or pixels stored wraps around |
| VbeBlt.WrittenReadsBack | DuetPkg/BiosVideoThunkDxe/BiosVideo.c:2020-2159 | each row written is read back masked by the fields |
| VbeBlt.FilledReadsBack | DuetPkg/BiosVideoThunkDxe/BiosVideo.c:2076-2096 | a filled row is read back as the masked colour |
| VbeDevice.RoundTrip | DuetPkg/BiosVideoThunkDxe/BiosVideo.c:2020-2159 | writing a rectangle and reading the same one stores the masked pixels in the second buffer and nothing else; nothing for a read that goes through no pixel, the old frame after a write that goes through none; VbeBytes.BytesReadBack says it of bytes |
| VbeDevice.AcceptedOnScreenIff | DuetPkg/BiosVideoThunkDxe/BiosVideo.c:1982-2006 | an accepted rectangle lies on the screen if and only if neither 64-bit sum wraps around |
| VbeDevice.AcceptedIff | DuetPkg/BiosVideoThunkDxe/BiosVideo.c:1978-2006 | without a sum that wraps, exactly the four operations on rectangles that are not empty and lie on the screen are accepted, the source of a read and the destination of anything else |
| VbeDevice.WrappedAccepted | DuetPkg/BiosVideoThunkDxe/BiosVideo.c:1997-2005 | a rectangle one pixel wide, from line 1 on and 2^64 - 1 lines high, is accepted in every mode |
| VbeDevice.FillKeepsCoherentIff | DuetPkg/BiosVideoThunkDxe/BiosVideo.c:1997-2121 | an accepted fill inside its buffer leaves buffer and screen equal for every frame and colour if and only if its vertical sum does not wrap around |
| VbeDevice.BiosVideo.Blt | DuetPkg/BiosVideoThunkDxe/BiosVideo.c:1926-2166 | accepted exactly when the 64-bit checks say so, unchanged otherwise; the working buffer, the screen and the client's buffer after each operation; working buffer and screen stay equal byte for byte exactly when both end with the same frame, so always but after a fill that wraps |
| VbeDevice.BiosVideo.SetMode | DuetPkg/BiosVideoThunkDxe/BiosVideo.c:1657-1790 | the exact buffer after a mode change and after a refusal, and in both cases exactly when it equals the screen |
| VbeDevice.WholeWordsHeld | DuetPkg/BiosVideoThunkDxe/BiosVideo.c:1755-1766 | a mode change reads every byte of a frame that is a whole number of words |
| VbeDevice.Run | DuetPkg/BiosVideoThunkDxe/BiosVideo.c:1657-2166 | over every run of mode changes, refused ones included, and of transfers that the mode of the moment can answer, made where the last change was completed and no fill has wrapped since, the buffer equals the screen in every such state |
| VbeBytes.PlacesInNumbers | DuetPkg/BiosVideoThunkDxe/BiosVideo.c:2077-2124 | the size of a frame and the place of every pixel in the frame and in the buffer of the client |
| VbeBytes.WrittenPixel | DuetPkg/BiosVideoThunkDxe/BiosVideo.c:2123-2144 | on bytes: each field of a pixel of the frame holds the first, second or third byte of the client's pixel for blue, green and red, under its mask, and all other bits are zero |
| VbeBytes.FilledPixel | DuetPkg/BiosVideoThunkDxe/BiosVideo.c:2076-2121 | the same for every pixel of a fill and the first pixel of the buffer, in memory and on the screen |
| VbeBytes.ReadPixel | DuetPkg/BiosVideoThunkDxe/BiosVideo.c:2020-2037 | the four bytes stored for a pixel are its blue, green and red field, moved down and masked, and zero |
| VbeBytes.BytesReadBack | DuetPkg/BiosVideoThunkDxe/BiosVideo.c:2020-2159 | writing and reading back stores the client's blue, green and red bytes masked by the mode, and zero |
| VbeBytes.CopiedByte | DuetPkg/BiosVideoThunkDxe/BiosVideo.c:2041-2074 | every byte of the destination is the old byte at the same place of the source |
| VbeBytes.FrameKept | DuetPkg/BiosVideoThunkDxe/BiosVideo.c:2041-2159 | no request changes a byte of the frame outside the rows of its rectangle |
| VbeBytes.BufferKept | DuetPkg/BiosVideoThunkDxe/BiosVideo.c:2020-2039 | nor a byte of the client's buffer outside the rows of a rectangle that is read |
| VgaPlanar.WritePaints | DuetPkg/BiosVideoThunkDxe/BiosVideo.c:2589-2612 | a masked write through the latches of its address paints the enabled pixels and no others |
| VgaPlanar.MaskShifts | DuetPkg/BiosVideoThunkDxe/BiosVideo.c:2727-2731 | shifting the mask of a pixel moves it to the next and wraps to the first |
| VgaBlt.PassesCover | DuetPkg/BiosVideoThunkDxe/BiosVideo.c:2534-2553 | the left, middle and right passes lie side by side and make up the width, except for eight aligned pixels |
| VgaBlt.VideoFill | DuetPkg/BiosVideoThunkDxe/BiosVideo.c:2533-2667 | exactly the rectangle is painted, except that eight aligned pixels paint nothing |
| VgaLines.PaintLine | DuetPkg/BiosVideoThunkDxe/BiosVideo.c:2695-2732 | eight passes with a moving mask write each pixel of the line once, and the mask comes back |
| VgaLines.BufferToVideo | DuetPkg/BiosVideoThunkDxe/BiosVideo.c:2669-2736 | every pixel of the rectangle takes its converted colour and no other changes, for every column and width |
| VgaLines.ReadBitPlanes | DuetPkg/BiosVideoThunkDxe/BiosVideo.c:2214-2262 | the bytes of every plane that the rectangle touches are copied to their places |
| VgaLines.ConvertPixel | DuetPkg/BiosVideoThunkDxe/BiosVideo.c:2280-2300 | the bits of the four planes give the pixel's colour number and its entry of the table |
| VgaLines.VideoToBltBuffer | DuetPkg/BiosVideoThunkDxe/BiosVideo.c:2457-2485 | every pixel of the rectangle is stored as the table entry of its colour number, and nothing else changes |
| VgaLines.PictureReadsBack | DuetPkg/BiosVideoThunkDxe/BiosVideo.c:2457-2736 | a rectangle written is read back as the table entries of the converted colours |
| VgaColours.ConvertedNumber | DuetPkg/BiosVideoThunkDxe/BiosVideo.c:2314-2325 | the number of a colour from the values of its components: bits for blue, green and red from 0x80 on, and one when they add up to more than 0x180; 8 is never given, and 7 only to the grey of 0x80 |
| VgaColours.TableEntry | DuetPkg/BiosVideoThunkDxe/BiosVideo.c:42-60 | the entries of the table follow the bits of their numbers, but for the blue of number 13 |
| VgaColours.EntryConverted | DuetPkg/BiosVideoThunkDxe/BiosVideo.c:42-60 | which number each entry of the table is converted back to |
| VgaColours.ShownAgainIff | DuetPkg/BiosVideoThunkDxe/BiosVideo.c:2280-2325 | a colour read from the screen and written again shows the same if and only if its number is none of 7, 9, 10 and 12 |
| VgaColours.WrittenBits | DuetPkg/BiosVideoThunkDxe/BiosVideo.c:2669-2732 | the bit of each plane at a pixel written, from the values of the client's pixel |
| VgaColours.PlaneBytes | DuetPkg/BiosVideoThunkDxe/BiosVideo.c:2232-2261 | the bytes of the four planes in the working buffer |
| VgaColours.ReadBits | DuetPkg/BiosVideoThunkDxe/BiosVideo.c:2457-2485 | the pixel stored is the table entry whose number the four planes spell |
| VgaColours.FilledPicture | DuetPkg/BiosVideoThunkDxe/BiosVideo.c:2533-2667 | a pixel of the picture has the colour of a fill if and only if it lies in the rectangle |
| BootLists.SwapExchanges | MdePkg/Library/BaseLib/LinkedList.c:472-516 | removing and inserting exchanges the two nodes and leaves every other in its place |
| BootLists.MovedFurther | ArmPlatformPkg/Bds/BootMenu.c:746-754 | one key moves the entry by one place, and the list without it never changes |
| BootLists.MovedPlaces | ArmPlatformPkg/Bds/BootMenu.c:746-754 | the moved entry is at its new place, those between close the gap, all others stay |
| BootLists.PutBack | ArmPlatformPkg/Bds/BootMenu.c:799-805 | taking the entry out and inserting it after its old predecessor restores the list after any moves |
| BootStore.Store.AllocateBootIndex | ArmPkg/Library/BdsLib/BdsLoadOption.c:239-270 | the first index that BootOrder does not list, 0 only when there is none or it is free |
| BootStore.Store.Create | ArmPlatformPkg/Bds/BootOption.c:257-328 | variable, order and list grow by the new option; the store stays coherent if and only if an index was free |
| BootStore.Store.Update | ArmPlatformPkg/Bds/BootOption.c:330-359 | the option keeps its index and place, and its variable and entry take the new contents |
| BootStore.Store.DeleteOption | ArmPlatformPkg/Bds/BootOption.c:361-416 | the index leaves the order, or the last one does when it is not there; its variable goes |
| BootStore.Store.Delete | ArmPlatformPkg/Bds/BootMenu.c:411-435 | the option leaves list, order and variables, and the store stays coherent |
| BootStore.Shift | ArmPlatformPkg/Bds/BootOption.c:377-399 | the order without the first occurrence of the index, the later ones shifted down |
| BootMenu.LoadList | ArmPlatformPkg/Bds/BootOption.c:116-148 | the list of the readable variables in the order of BootOrder, whatever they hold; from sound variables it is coherent if and only if every one has at least twelve bytes |
| BootMenu.ListedAllIff | ArmPlatformPkg/Bds/BootOption.c:136-143 | the list is as long as the order if and only if every variable is readable, and then has its indices |
| BootMenu.FollowKeys | ArmPlatformPkg/Bds/BootMenu.c:718-765 | the keys move the entry to where walking says, and the move ends as it says |
| BootMenu.KeysInNumbers | ArmPlatformPkg/Bds/BootMenu.c:718-765 | keys up and then down carry the entry by as many places, as far as the list goes, and the key behind them saves, cancels or does nothing |
| BootMenu.Reorder | ArmPlatformPkg/Bds/BootMenu.c:704-818 | saving writes a permutation of the order, cancelling restores the list exactly, an interruption leaves both as they stand |
| BootMenu.Run | ArmPlatformPkg/Bds/BootOption.c:246-416 | after every sequence of actions the store is coherent (BootOrder without duplicates, listing exactly the existing variables, and the list agreeing) if and only if no action found all indices taken or was a move interrupted away from its start; the run stops at the first such action |
| BootMenu.EndedRunsKeep | ArmPlatformPkg/Bds/BootMenu.c:718-818 | while indices last, sequences whose moves all end by a save or a cancel break nothing |
| LoadOption.SetFields | ArmPlatformPkg/Bds/BootOption.c:150-255 | the fields, written in order, exactly fill the computed buffer: attributes, size of the path, the characters of the description and zero, the path up to its size modulo 64 KB, and the signature, loader type and arguments or the raw data |
| LoadOption.EmitArguments | ArmPlatformPkg/Bds/BootOption.c:224-238 | sizes, command line and initrd path are copied as they are given |
| LoadOption.ArgumentsMatch | ArmPlatformPkg/Bds/BootMenu.c:349-359 | the arguments built by the menu are the two sizes, which match their data, the command line and the initrd path |
| LoadOption.ParsesBack | ArmPkg/Library/BdsLib/BdsLoadOption.c:17-67 | parsing what was written gives back attributes, description, optional data and the path, whole when it is shorter than 64 KB |
| LoadOption.SerialisedLaidOut | ArmPlatformPkg/Bds/BootOption.c:196-243 | every field of the option at its place in the bytes |
| LoadOption.StartsByType | ArmPlatformPkg/Bds/BootOption.c:36-104 | data that begins with the signature is started by the loader type behind it: 0, 1 and 2, or not at all; other data goes to the application |
| LoadOption.LinuxRoundTrip | ArmPlatformPkg/Bds/BootOption.c:36-61 | every Linux option with 16-bit sizes is started with its loader type and initrd path, and with the string that starts at its command line: the one written if and only if the first zero byte of that is its last |
| LoadOption.CmdLineReadBack | ArmPkg/Library/BdsLib/BdsLinuxFdt.c:385-386 | the string read from the pointer handed over is the command line if and only if the first zero byte of that is its last |
| LoadOption.EmptyCmdLineReadsInitrd | ArmPlatformPkg/Bds/Bds.c:276-320 | an option with an empty command line and an initrd hands over the string that starts with the bytes of the initrd path |
| LoadOption.RawRoundTrip | ArmPlatformPkg/Bds/BootOption.c:93-104 | any other option is started with its raw data if and only if the data does not begin with the signature |
| MemoryInitPei.HobList.MemoryPeim | ArmPlatformPkg/MemoryInitPei/MemoryInitPeiLib.c:67-163 | the block for system memory is added, tested and present; a device inside system memory is always found, in the first block that contains it, and that block is split |
| MemoryInitPei.SplitConserves | ArmPlatformPkg/MemoryInitPei/MemoryInitPeiLib.c:113-156 | every byte is covered by as many blocks as before, with the same total length |
| MemoryInitPei.OnlyDeviceIffExact | ArmPlatformPkg/MemoryInitPei/MemoryInitPeiLib.c:113-156 | the bytes that become non-present are exactly the device's if and only if the block does not reach beyond it in the one case that rewrites it whole |
| MemoryInitPei.InsideIsExact | ArmPlatformPkg/MemoryInitPei/MemoryInitPeiLib.c:122-124 | blocks that lie inside system memory never reach beyond it |
| MemoryInitPei.PieceAttributes | ArmPlatformPkg/MemoryInitPei/MemoryInitPeiLib.c:113-156 | every piece keeps the attributes of the block, except that the device is not present |
| MemoryInitPei.OthersUntouched | ArmPlatformPkg/MemoryInitPei/MemoryInitPeiLib.c:113-156 | all other blocks keep place and contents |

## Left out

- Screen and serial output, BIOS calls, CPUID, MMU and cache set-up, LZMA decompression: input, output or hardware without logic of its own; sizes, addresses and BIOS results are parameters.
- MemoryMap.DescriptorTable.Add: the table of 64 descriptors is not checked by the code; a caller must leave room, which the growth bound gives.
- EfiLoader.EfiLoader: the method is stated for BIOS lists of disjoint entries that reach their page boundaries, the condition `FreePages.ExactIffAllReach` shows to be needed; the decompressed sizes are parameters.
- EfiLoader.LoadPeImage: the copying of headers, directories and sections is not modelled; the bytes of the image are those after it, and UINTN is 64 bits wide there.
- PeRelocation.Relocate: relocation type HIGHADJ and unknown types stop in a dead loop, which is an outcome here; blocks of size zero, on which the loop would not end, are excluded by well-formed directories, and each read of an entry must lie in the image.
- EndToEnd.ResourcesFromMemoryList: all allocations come from one descriptor and memory suffices, as the design assumes.
- HobGeneration.Hob.PrepareHobPhit: the copy of the block list, its end pointer and the free bottom are not modelled, nor are the contents of the page tables.
- HobGeneration.Hob.PrepareHobNvStorage: the bytes of the volumes and their fixed sub-areas are not modelled, only the ranges and the header checksum.
- VbeDevice.BiosVideo.Blt: excluded are accepted requests with a wrapped vertical sum whose loops go on past the frame (any but a fill from a line of the screen), copies inside the frame from a source outside it, which the code does not check, and accepted requests with a wrapped horizontal sum whose loops go through rows: their byte counts, reduced modulo 2^64 in the code, are not modelled.
- VbeDevice.BiosVideo.SetMode: failures to allocate a buffer and devices that mix VESA and VGA modes are not modelled.
- VgaLines.BufferToVideo: the argument checks of the VGA path are those of the VESA path and are not repeated; rectangles are inside the screen.
- The VGA copy inside the screen: its unaligned branch only reads planes and its aligned branch always copies top down, so no general copy theorem holds.
- EDID timings and the choice of VESA modes: finite tables.
- BootStore.Store.Create: variable writes succeed, as they do for updating and deleting; only the write of a reordered BootOrder may fail.
- BootMenu.Reorder: the doubly linked list is a sequence of entries, so pointer surgery is modelled by its effect on the order of the nodes.
- BootMenu.Run: what further actions make of a store that one of them has broken is not modelled.
- LoadOption.EmptyCmdLineReadsInitrd: what the kernel makes of such a command line is not part of this model.
- LoadOption.LinuxRoundTrip: the initrd is the bytes of its stored size; the code uses that size only to see whether there is an initrd and then walks the device path to its end node, which is the same for one whole path and nothing behind it.
- LoadOption.ParsesBack: a string or path that does not end inside the buffer makes the parser read on after it, which is one outcome here; device paths are byte strings, cut to 16 bits as the writer does.
- MemoryInitPei.HobList.MemoryPeim: ends of blocks that wrap around 2^64 are not modelled.
- Build scripts, tools, cryptography wrappers and the rest of the tree: not part of this model.
