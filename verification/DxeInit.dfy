/** The DXE initial program loader: the order of the hand-off steps, and what the resulting memory
    layout guarantees (DuetPkg/DxeIpl/DxeInit.c). */
module DxeInit {
  import opened Words
  import opened MemoryMap
  import opened PageViews
  import opened HobGeneration

  /** EFILDRHANDOFF, without the descriptor table. */
  datatype Handoff = Handoff(
    BfvBase: u64, BfvSize: u64,
    DxeIplImageBase: u64, DxeIplImageSize: u64,
    DxeCoreImageBase: u64, DxeCoreImageSize: u64,
    DxeCoreEntryPoint: u64)

  /** The ranges and bounds of the finished hand-off block list. */
  datatype Layout = Layout(
    BfvResource: Range,
    MemoryDxeCore: Range,
    DxeCore: Range,
    MemoryFreeUnder1MB: Range,
    MemoryAbove1MB: Range,
    MemoryAbove4GB: Range,
    NvStorageFvResource: Range,
    NvFtwFvResource: Range,
    Stack: Range,
    MemoryAllocation: Range,
    EfiMemoryTop: u64,
    EfiMemoryBottom: u64,
    EfiFreeMemoryTop: u64,
    DxeCoreEntryPoint: u64,
    Bfv: Range,
    SizeOfMemorySpace: u8,
    MemDesc: u64,
    MemDescCount: nat)

  function LayoutOf(gHob: Hob): Layout
    reads gHob
  {
    Layout(gHob.BfvResource, gHob.MemoryDxeCore, gHob.DxeCore, gHob.MemoryFreeUnder1MB, gHob.MemoryAbove1MB,
           gHob.MemoryAbove4GB, gHob.NvStorageFvResource, gHob.NvFtwFvResource, gHob.Stack,
           gHob.MemoryAllocation, gHob.EfiMemoryTop, gHob.EfiMemoryBottom, gHob.EfiFreeMemoryTop,
           gHob.DxeCoreEntryPoint, gHob.Bfv, gHob.SizeOfMemorySpace, gHob.MemDesc, gHob.MemDescCount)
  }

  /** The width of the address space PrepareHobCpu reports, from the two CPUID answers. */
  function MemorySpaceBits(maxExtendedFunction: u32, addressSizes: u32): u8 {
    if maxExtendedFunction >= 0x8000_0008 then addressSizes % 0x100 else 36
  }

  /** The memory found above 1 MB, before it is cut down. */
  function FoundAbove1MB(s: seq<Descriptor>): Range { Above1MB(s, HobHorizon(s)) }

  /** The memory of the DXE core: both images, registered together. */
  function CoreRange(handoff: Handoff): Range {
    Range(handoff.DxeCoreImageBase,
          Sub64(Add64(handoff.DxeIplImageBase, handoff.DxeIplImageSize), handoff.DxeCoreImageBase))
  }

  /** The layout as a function of the handoff, the descriptor table and the address width. */
  function DxeLayout(handoff: Handoff, s: seq<Descriptor>, bits: u8): Layout {
    var found := FoundAbove1MB(s);
    var nv := NvStorageBase(RangeEnd(found));
    var stackBottom := Sub64(nv, STACK_SIZE);
    var freeTop := MemoryDescriptorBase(PageTableBase(stackBottom, bits), |s|);
    Layout(
      Range(handoff.BfvBase, handoff.BfvSize),
      CoreRange(handoff),
      CoreRange(handoff),
      Range(EFI_MEMORY_BELOW_1MB_START, EFI_MEMORY_BELOW_1MB_END - EFI_MEMORY_BELOW_1MB_START),
      Truncated(found, nv),
      Above4GB(s, HobHorizon(s)),
      Range(nv, NV_STORAGE_FVB_SIZE),
      Range(Add64(nv, NV_STORAGE_FVB_SIZE), NV_FTW_FVB_SIZE),
      Range(stackBottom, STACK_SIZE),
      Range(freeTop, Sub64(stackBottom, freeTop)),
      nv,
      Sub64(nv, CONSUMED_MEMORY),
      freeTop,
      handoff.DxeCoreEntryPoint,
      Range(handoff.BfvBase, handoff.BfvSize),
      bits,
      freeTop,
      |s|)
  }

  /** Step 3 of DxeInit: variable storage, stack, page table, descriptor copy and list, one below
      the other from the top of free memory. */
  method PlaceBelowTop(gHob: Hob, MemoryTopOnDescriptor: u64, count: nat)
    modifies gHob`NvStorageFvResource, gHob`NvStorageFvb, gHob`NvStorage, gHob`NvFtwFvResource, gHob`NvFtwFvb,
             gHob`NvFtwWorking, gHob`NvFtwSpare, gHob`Stack, gHob`MemDescCount, gHob`MemDesc,
             gHob`EfiMemoryTop, gHob`EfiMemoryBottom, gHob`EfiFreeMemoryTop
    ensures gHob.EfiMemoryTop == NvStorageBase(MemoryTopOnDescriptor)
    ensures gHob.NvStorageFvResource == Range(gHob.EfiMemoryTop, old(gHob.NvStorageFvResource.Length))
    ensures gHob.NvFtwFvResource == Range(Add64(gHob.EfiMemoryTop, NV_STORAGE_FVB_SIZE), old(gHob.NvFtwFvResource.Length))
    ensures gHob.Stack == Range(Sub64(gHob.EfiMemoryTop, STACK_SIZE), STACK_SIZE)
    ensures gHob.MemDescCount == count
    ensures gHob.MemDesc == gHob.EfiFreeMemoryTop
    ensures gHob.EfiFreeMemoryTop == MemoryDescriptorBase(PageTableBase(gHob.Stack.Start, gHob.SizeOfMemorySpace), count)
    ensures gHob.EfiMemoryBottom == Sub64(gHob.EfiMemoryTop, CONSUMED_MEMORY)
  {
    var NvStorage := gHob.PrepareHobNvStorage(MemoryTopOnDescriptor);
    var StackTop := NvStorage;
    var StackBottom := gHob.PrepareHobStack(StackTop);
    var PageTable := PageTableBase(StackBottom, gHob.SizeOfMemorySpace);
    var MemoryDescriptor := gHob.PrepareHobMemoryDescriptor(PageTable, count);
    gHob.PrepareHobPhit(StackTop, MemoryDescriptor);
  }

  /** Steps 1 to 3 of DxeInit: the boot firmware volume, the memory found, and what goes below its top. */
  method PlaceMemory(gHob: Hob, handoff: Handoff, table: DescriptorTable, ghost s: seq<Descriptor>)
    requires table.Valid() && s == table.Contents()
    modifies gHob
    ensures gHob.SizeOfMemorySpace == old(gHob.SizeOfMemorySpace)
    ensures gHob.Bfv == gHob.BfvResource == Range(handoff.BfvBase, handoff.BfvSize)
    ensures gHob.MemDescCount == |s| && gHob.MemDesc == gHob.EfiFreeMemoryTop
    ensures gHob.MemoryFreeUnder1MB == Range(EFI_MEMORY_BELOW_1MB_START, EFI_MEMORY_BELOW_1MB_END - EFI_MEMORY_BELOW_1MB_START)
    ensures gHob.MemoryAbove1MB == FoundAbove1MB(s) && gHob.MemoryAbove4GB == Above4GB(s, HobHorizon(s))
    ensures gHob.EfiMemoryTop == NvStorageBase(RangeEnd(FoundAbove1MB(s)))
    ensures gHob.NvStorageFvResource == Range(gHob.EfiMemoryTop, old(gHob.NvStorageFvResource.Length))
    ensures gHob.NvFtwFvResource == Range(Add64(gHob.EfiMemoryTop, NV_STORAGE_FVB_SIZE), old(gHob.NvFtwFvResource.Length))
    ensures gHob.Stack == Range(Sub64(gHob.EfiMemoryTop, STACK_SIZE), STACK_SIZE)
    ensures gHob.EfiFreeMemoryTop == MemoryDescriptorBase(PageTableBase(gHob.Stack.Start, gHob.SizeOfMemorySpace), |s|)
    ensures gHob.EfiMemoryBottom == Sub64(gHob.EfiMemoryTop, CONSUMED_MEMORY)
  {
    gHob.PrepareHobBfv(handoff.BfvBase, handoff.BfvSize);
    var MemoryTopOnDescriptor := gHob.PrepareHobMemory(table);
    PlaceBelowTop(gHob, MemoryTopOnDescriptor, table.NoDesc);
  }

  lemma LayoutFields(handoff: Handoff, s: seq<Descriptor>, bits: u8, l: Layout, nv: u64, stackBottom: u64, freeTop: u64)
    requires nv == NvStorageBase(RangeEnd(FoundAbove1MB(s))) && stackBottom == Sub64(nv, STACK_SIZE)
    requires freeTop == MemoryDescriptorBase(PageTableBase(stackBottom, bits), |s|)
    requires l.Bfv == l.BfvResource == Range(handoff.BfvBase, handoff.BfvSize)
    requires l.DxeCoreEntryPoint == handoff.DxeCoreEntryPoint && l.SizeOfMemorySpace == bits
    requires l.MemDesc == freeTop && l.MemDescCount == |s|
    requires l.MemoryDxeCore == l.DxeCore == CoreRange(handoff)
    requires l.MemoryFreeUnder1MB == Range(EFI_MEMORY_BELOW_1MB_START, EFI_MEMORY_BELOW_1MB_END - EFI_MEMORY_BELOW_1MB_START)
    requires l.MemoryAbove1MB == Truncated(FoundAbove1MB(s), nv) && l.MemoryAbove4GB == Above4GB(s, HobHorizon(s))
    requires l.NvStorageFvResource == Range(nv, NV_STORAGE_FVB_SIZE)
    requires l.NvFtwFvResource == Range(Add64(nv, NV_STORAGE_FVB_SIZE), NV_FTW_FVB_SIZE)
    requires l.Stack == Range(stackBottom, STACK_SIZE)
    requires l.MemoryAllocation == Range(freeTop, Sub64(stackBottom, freeTop))
    requires l.EfiMemoryTop == nv && l.EfiMemoryBottom == Sub64(nv, CONSUMED_MEMORY) && l.EfiFreeMemoryTop == freeTop
    ensures l == DxeLayout(handoff, s, bits)
  {
  }

  /** DxeInit, up to the jump to the DXE core. */
  method DxeInit(handoff: Handoff, table: DescriptorTable, maxExtendedFunction: u32, addressSizes: u32)
    returns (gHob: Hob)
    requires table.Valid()
    ensures LayoutOf(gHob) == DxeLayout(handoff, old(table.Contents()), MemorySpaceBits(maxExtendedFunction, addressSizes))
    ensures gHob.SizeOfMemorySpace == if maxExtendedFunction >= 0x8000_0008 then addressSizes % 0x100 else 36
  {
    ghost var s := table.Contents();
    gHob := new Hob();
    gHob.SizeOfMemorySpace := MemorySpaceBits(maxExtendedFunction, addressSizes);
    PlaceMemory(gHob, handoff, table, s);
    gHob.PrepareHobDxeCore(
      handoff.DxeCoreEntryPoint,
      handoff.DxeCoreImageBase,
      Sub64(Add64(handoff.DxeIplImageBase, handoff.DxeIplImageSize), handoff.DxeCoreImageBase));
    gHob.CompleteHobGeneration();
    LayoutFields(handoff, s, gHob.SizeOfMemorySpace, LayoutOf(gHob), gHob.EfiMemoryTop, gHob.Stack.Start, gHob.EfiFreeMemoryTop);
  }

  // ---------------------------------------------------------------------
  // What the layout guarantees
  // ---------------------------------------------------------------------

  /** Two ranges share no byte. */
  predicate RangesDisjoint(a: Range, b: Range) {
    a.Start + a.Length <= b.Start || b.Start + b.Length <= a.Start || a.Length == 0 || b.Length == 0
  }

  ghost predicate PairwiseDisjoint(rs: seq<Range>) {
    forall i, j :: 0 <= i < j < |rs| ==> RangesDisjoint(rs[i], rs[j])
  }

  /** Pages the loader has taken: above 1 MB, below 4 GB, and free no more. */
  ghost predicate Taken(s: seq<Descriptor>, r: Range) {
    && r.Start % PAGE_SIZE == 0
    && r.Length % PAGE_SIZE == 0
    && ONE_MB <= r.Start
    && r.Start + r.Length <= FOUR_GB
    && forall p :: r.Start <= p * PAGE_SIZE < r.Start + r.Length ==> !Free(s, p)
  }

  /** What goes between the free memory and the firmware volumes. */
  function Overhead(s: seq<Descriptor>, bits: u8): nat {
    NV_STORAGE_FVB_SIZE + NV_FTW_FVB_SIZE + STACK_SIZE + PageTablePages(bits) * PAGE_SIZE
    + SizeToPages(|s| * MEMORY_DESCRIPTOR_SIZE) * PAGE_SIZE
  }

  /** The run of free memory above 1 MB ends below 4 GB and has room for everything put at its top. */
  ghost predicate MemorySuffices(s: seq<Descriptor>, bits: u8) {
    && PageTablePages(bits) > 0
    && FoundAbove1MB(s).Start + FoundAbove1MB(s).Length <= FOUR_GB
    && Overhead(s, bits) <= FoundAbove1MB(s).Length
  }

  lemma FlashSizes()
    ensures NV_STORAGE_FVB_SIZE == 0x1_0000 && NV_FTW_FVB_SIZE == 0x2_0000
  {
  }

  /** The free run is page aligned, and long enough for everything put at its top. */
  lemma FoundRun(s: seq<Descriptor>, bits: u8)
    requires PlacedTable(s) && MemorySuffices(s, bits)
    ensures var found := FoundAbove1MB(s);
            var top := found.Start + found.Length;
            && ONE_MB <= found.Start
            && found.Start % PAGE_SIZE == 0 && top % PAGE_SIZE == 0
            && RangeEnd(found) == top
            && found.Start + 0x3_0000 + STACK_SIZE + PageTablePages(bits) * PAGE_SIZE
               + SizeToPages(|s| * MEMORY_DESCRIPTOR_SIZE) * PAGE_SIZE <= top
  {
    FlashSizes();
    FoundStart(s, HobHorizon(s));
    var ids := Above1MBIsChain(s, HobHorizon(s));
    assert Placed(s[ids[0]]);
  }

  /** The addresses below the top of the free run, when memory suffices. */
  lemma Addresses(handoff: Handoff, s: seq<Descriptor>, bits: u8)
    requires PlacedTable(s) && MemorySuffices(s, bits)
    ensures var l, found := DxeLayout(handoff, s, bits), FoundAbove1MB(s);
            var top := found.Start + found.Length;
            && ONE_MB <= found.Start
            && found.Start % PAGE_SIZE == 0 && top % PAGE_SIZE == 0
            && l.EfiMemoryTop == top - 0x3_0000
            && l.NvStorageFvResource == Range(top - 0x3_0000, 0x1_0000)
            && l.NvFtwFvResource == Range(top - 0x2_0000, 0x2_0000)
            && l.Stack.Start == l.EfiMemoryTop - STACK_SIZE
            && l.EfiFreeMemoryTop == l.Stack.Start - PageTablePages(bits) * PAGE_SIZE
                                     - SizeToPages(|s| * MEMORY_DESCRIPTOR_SIZE) * PAGE_SIZE
            && found.Start <= l.EfiFreeMemoryTop
            && l.MemoryAbove1MB == Range(found.Start, l.EfiMemoryTop - found.Start)
  {
    FlashSizes();
    FoundRun(s, bits);
    var found := FoundAbove1MB(s);
    var top := found.Start + found.Length;
    TopAddresses(top, bits, |s|);
    var nv := top - 0x3_0000;
    assert Truncated(found, nv) == Range(found.Start, nv - found.Start);
  }

  lemma VolumesAt(top: u64)
    requires top % PAGE_SIZE == 0 && 0x3_0000 <= top
    ensures NvStorageBase(top) == top - 0x3_0000
    ensures Add64(top - 0x3_0000, 0x1_0000) == top - 0x2_0000
  {
    FlashSizes();
    assert Sub64(Sub64(top, 0x1_0000), 0x2_0000) == top - 0x3_0000;
    AlignedBelow(top, 0x30);
  }

  lemma AlignedBelow(top: nat, pages: nat)
    requires top % PAGE_SIZE == 0
    ensures (top - pages * PAGE_SIZE) % PAGE_SIZE == 0
  {
    assert top - pages * PAGE_SIZE == (top / PAGE_SIZE - pages) * PAGE_SIZE;
  }

  /** Subtracting what is there needs no wrap-around. */
  lemma NoBorrow(x: u64, y: nat)
    requires y <= x
    ensures Sub64(x, y) == x - y
  {
  }

  lemma TopAddresses(top: u64, bits: u8, count: nat)
    requires top % PAGE_SIZE == 0 && PageTablePages(bits) > 0
    requires 0x3_0000 + STACK_SIZE + PageTablePages(bits) * PAGE_SIZE
             + SizeToPages(count * MEMORY_DESCRIPTOR_SIZE) * PAGE_SIZE <= top
    ensures NvStorageBase(top) == top - 0x3_0000
    ensures Add64(top - 0x3_0000, 0x1_0000) == top - 0x2_0000
    ensures var stackBottom := Sub64(top - 0x3_0000, STACK_SIZE);
            && stackBottom == top - 0x3_0000 - STACK_SIZE
            && MemoryDescriptorBase(PageTableBase(stackBottom, bits), count)
               == stackBottom - PageTablePages(bits) * PAGE_SIZE - SizeToPages(count * MEMORY_DESCRIPTOR_SIZE) * PAGE_SIZE
  {
    VolumesAt(top);
    var pages := PageTablePages(bits);
    var nv: u64, stackBottom: u64 := top - 0x3_0000, top - 0x3_0000 - STACK_SIZE;
    NoBorrow(nv, STACK_SIZE);
    NoBorrow(stackBottom, pages * PAGE_SIZE);
    AlignedBelow(top, 0x50 + pages);
    DescriptorRoom(stackBottom - pages * PAGE_SIZE, count);
  }

  lemma {:induction false} FoundStart(s: seq<Descriptor>, n: nat)
    requires n <= |s|
    ensures Above1MB(s, n).Start == 0 ==> Above1MB(s, n).Length == 0
  {
    if n > 0 {
      FoundStart(s, n - 1);
    }
  }

  /** Rounding down costs the descriptor copy at most the pages it is rounded up to. */
  lemma DescriptorRoom(top: u64, count: nat)
    requires top % PAGE_SIZE == 0 && SizeToPages(count * MEMORY_DESCRIPTOR_SIZE) * PAGE_SIZE <= top
    ensures MemoryDescriptorBase(top, count) == top - SizeToPages(count * MEMORY_DESCRIPTOR_SIZE) * PAGE_SIZE
  {
    var size := count * MEMORY_DESCRIPTOR_SIZE;
    NoBorrow(top, size);
    FloorBelow(top, size);
  }

  lemma FloorBelow(top: nat, size: nat)
    requires top % PAGE_SIZE == 0 && size <= top
    ensures top - size - (top - size) % PAGE_SIZE == top - SizeToPages(size) * PAGE_SIZE
    ensures size <= SizeToPages(size) * PAGE_SIZE
  {
  }

  /** A range the loader has taken misses every chain of Conventional descriptors. */
  lemma TakenMissesChain(s: seq<Descriptor>, n: nat, ids: seq<nat>, low: nat, chain: Range, taken: Range)
    requires n <= |s| && PlacedTable(s) && Chain(s, n, ids, low, chain) && Taken(s, taken)
    ensures RangesDisjoint(chain, taken)
  {
    assert Placed(s[ids[0]]);
    if !RangesDisjoint(chain, taken) {
      var start := if chain.Start <= taken.Start then taken.Start else chain.Start;
      var p := start / PAGE_SIZE;
      ChainPagesFree(s, n, ids, low, chain, p);
      assert Free(s, p);
    }
  }

  /** The part of the free run the layout hands out misses what the loader has taken. */
  lemma RunMissesTaken(handoff: Handoff, s: seq<Descriptor>, bits: u8, taken: Range)
    requires PlacedTable(s) && MemorySuffices(s, bits) && Taken(s, taken)
    ensures RangesDisjoint(FoundAbove1MB(s), taken)
  {
    FoundStart(s, HobHorizon(s));
    FlashSizes();
    var ids := Above1MBIsChain(s, HobHorizon(s));
    TakenMissesChain(s, HobHorizon(s), ids, ONE_MB, FoundAbove1MB(s), taken);
  }

  lemma {:induction false} Found4GBStart(s: seq<Descriptor>, n: nat)
    requires n <= |s|
    ensures Above4GB(s, n) == Range(0, 0) || Above4GB(s, n).Start >= FOUR_GB
  {
    if n > 0 {
      Found4GBStart(s, n - 1);
    }
  }

  ghost predicate MissesAll(a: Range, rs: seq<Range>) { forall i :: 0 <= i < |rs| ==> RangesDisjoint(a, rs[i]) }

  lemma OneMoreRange(a: Range, rs: seq<Range>)
    requires PairwiseDisjoint(rs) && MissesAll(a, rs)
    ensures PairwiseDisjoint([a] + rs)
  {
    var all := [a] + rs;
    forall i, j | 0 <= i < j < |all|
      ensures RangesDisjoint(all[i], all[j])
    {
      assert all[j] == rs[j - 1];
      if i > 0 {
        assert all[i] == rs[i - 1];
      }
    }
  }

  /** The memory kept and the two volumes split the run, between the low and the high memory. */
  lemma FiveDisjoint(kept: Range, nv: Range, ftw: Range, low: Range, high: Range)
    requires kept.Start + kept.Length == nv.Start && nv.Start + nv.Length == ftw.Start
    requires ftw.Start + ftw.Length <= FOUR_GB && low.Start + low.Length <= ONE_MB <= kept.Start
    requires high.Length == 0 || high.Start >= FOUR_GB
    ensures PairwiseDisjoint([kept, nv, ftw, low, high])
  {
  }

  /** What lies outside the run, above 1 MB and below 4 GB, misses all five. */
  lemma MissesFive(a: Range, kept: Range, nv: Range, ftw: Range, low: Range, high: Range, run: Range)
    requires RangesDisjoint(run, a) && ONE_MB <= a.Start && a.Start + a.Length <= FOUR_GB
    requires run.Length > 0 && kept.Start == run.Start && kept.Start + kept.Length == nv.Start
    requires nv.Start + nv.Length == ftw.Start && ftw.Start + ftw.Length == run.Start + run.Length
    requires low.Start + low.Length <= ONE_MB && (high.Length == 0 || high.Start >= FOUR_GB)
    ensures MissesAll(a, [kept, nv, ftw, low, high])
  {
  }

  lemma SevenDisjoint(bfv: Range, core: Range, kept: Range, nv: Range, ftw: Range, low: Range, high: Range, run: Range)
    requires RangesDisjoint(run, bfv) && RangesDisjoint(run, core) && RangesDisjoint(bfv, core)
    requires run.Length > 0 && kept.Start == run.Start && kept.Start + kept.Length == nv.Start
    requires nv.Start + nv.Length == ftw.Start && ftw.Start + ftw.Length == run.Start + run.Length <= FOUR_GB
    requires low.Start + low.Length <= ONE_MB <= run.Start
    requires ONE_MB <= bfv.Start && bfv.Start + bfv.Length <= FOUR_GB
    requires ONE_MB <= core.Start && core.Start + core.Length <= FOUR_GB
    requires high.Length == 0 || high.Start >= FOUR_GB
    ensures PairwiseDisjoint([bfv, core, kept, nv, ftw, low, high])
  {
    var five := [kept, nv, ftw, low, high];
    FiveDisjoint(kept, nv, ftw, low, high);
    MissesFive(core, kept, nv, ftw, low, high, run);
    MissesFive(bfv, kept, nv, ftw, low, high, run);
    OneMoreRange(core, five);
    OneMoreRange(bfv, [core] + five);
    assert [bfv] + ([core] + five) == [bfv, core, kept, nv, ftw, low, high];
  }

  /** The resource hand-off blocks do not overlap, which is the goal the source states for them:
      the boot firmware volume, the DXE core, the memory above 1 MB, the two variable volumes, the
      memory below 1 MB and the memory above 4 GB. */
  lemma ResourcesDisjoint(handoff: Handoff, s: seq<Descriptor>, bits: u8)
    requires PlacedTable(s) && MemorySuffices(s, bits)
    requires var l := DxeLayout(handoff, s, bits);
             Taken(s, l.BfvResource) && Taken(s, l.MemoryDxeCore) && RangesDisjoint(l.BfvResource, l.MemoryDxeCore)
    ensures var l := DxeLayout(handoff, s, bits);
            PairwiseDisjoint([l.BfvResource, l.MemoryDxeCore, l.MemoryAbove1MB, l.NvStorageFvResource,
                              l.NvFtwFvResource, l.MemoryFreeUnder1MB, l.MemoryAbove4GB])
  {
    var l := DxeLayout(handoff, s, bits);
    Addresses(handoff, s, bits);
    RunMissesTaken(handoff, s, bits, l.BfvResource);
    RunMissesTaken(handoff, s, bits, l.MemoryDxeCore);
    Found4GBStart(s, HobHorizon(s));
    SevenDisjoint(l.BfvResource, l.MemoryDxeCore, l.MemoryAbove1MB, l.NvStorageFvResource, l.NvFtwFvResource,
                  l.MemoryFreeUnder1MB, l.MemoryAbove4GB, FoundAbove1MB(s));
  }

  /** The boot-services allocation and the stack exactly tile [EfiFreeMemoryTop, EfiMemoryTop),
      at the end of the memory above 1 MB. */
  lemma AllocationTiles(handoff: Handoff, s: seq<Descriptor>, bits: u8)
    requires PlacedTable(s) && MemorySuffices(s, bits)
    ensures var l := DxeLayout(handoff, s, bits);
            && l.MemoryAbove1MB.Start <= l.EfiFreeMemoryTop == l.MemoryAllocation.Start
            && l.MemoryAllocation.Start + l.MemoryAllocation.Length == l.Stack.Start
            && l.Stack.Start + l.Stack.Length == l.EfiMemoryTop
            && l.EfiMemoryTop == l.MemoryAbove1MB.Start + l.MemoryAbove1MB.Length
  {
    Addresses(handoff, s, bits);
  }

  /** Every page of the memory above 1 MB and above 4 GB is free in the loader's table. */
  lemma ReportedMemoryIsFree(handoff: Handoff, s: seq<Descriptor>, bits: u8, p: int)
    requires PlacedTable(s) && MemorySuffices(s, bits)
    requires var l := DxeLayout(handoff, s, bits);
             || l.MemoryAbove1MB.Start <= p * PAGE_SIZE < l.MemoryAbove1MB.Start + l.MemoryAbove1MB.Length
             || l.MemoryAbove4GB.Start <= p * PAGE_SIZE < l.MemoryAbove4GB.Start + l.MemoryAbove4GB.Length
    ensures Free(s, p)
  {
    var h := HobHorizon(s);
    Addresses(handoff, s, bits);
    if p * PAGE_SIZE < FoundAbove1MB(s).Start + FoundAbove1MB(s).Length {
      var ids := Above1MBIsChain(s, h);
      Found4GBStart(s, h);
      ChainPagesFree(s, h, ids, ONE_MB, FoundAbove1MB(s), p);
    } else {
      Found4GBStart(s, h);
      var ids := Above4GBIsChain(s, h);
      ChainPagesFree(s, h, ids, FOUR_GB, Above4GB(s, h), p);
    }
  }

  /** The memory bottom wraps around below 80 MB. */
  lemma BottomOf(top: u64)
    ensures Sub64(top, CONSUMED_MEMORY) == if top >= CONSUMED_MEMORY then top - CONSUMED_MEMORY else top - CONSUMED_MEMORY + TWO_64
  {
  }

  /** The block list is copied to CONSUMED_MEMORY below the memory top. It ends below the free top
      exactly when the memory top is that high at all, and list, stack, page table and descriptor copy
      together need no more than what is set aside. */
  lemma ConsumedMemorySuffices(handoff: Handoff, s: seq<Descriptor>, bits: u8, listSize: nat)
    requires PlacedTable(s) && MemorySuffices(s, bits)
    ensures var l := DxeLayout(handoff, s, bits);
            l.EfiMemoryBottom + listSize <= l.EfiFreeMemoryTop
            <==> l.EfiMemoryTop >= CONSUMED_MEMORY
                 && listSize + Overhead(s, bits) <= CONSUMED_MEMORY + NV_STORAGE_FVB_SIZE + NV_FTW_FVB_SIZE
  {
    Addresses(handoff, s, bits);
    FlashSizes();
    BottomOf(DxeLayout(handoff, s, bits).EfiMemoryTop);
  }

  /** The memory the phase hand-off block describes lies inside the memory above 1 MB. */
  predicate BottomInside(l: Layout) {
    l.MemoryAbove1MB.Start <= l.EfiMemoryBottom <= l.EfiMemoryTop
  }

  /** It does exactly when the memory above 1 MB, as reported, is at least CONSUMED_MEMORY long. */
  lemma BottomInsideIff(handoff: Handoff, s: seq<Descriptor>, bits: u8)
    requires PlacedTable(s) && MemorySuffices(s, bits)
    ensures var l := DxeLayout(handoff, s, bits);
            BottomInside(l) <==> l.MemoryAbove1MB.Length >= CONSUMED_MEMORY
  {
    Addresses(handoff, s, bits);
    BottomOf(DxeLayout(handoff, s, bits).EfiMemoryTop);
  }
}
