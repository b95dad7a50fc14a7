/** From the BIOS memory list to the finished hand-off block list: what the loader and the DXE
    initial program loader guarantee together. */
module EndToEnd {
  import opened Words
  import opened MemoryMap
  import opened PageViews
  import opened Allocation
  import opened E820
  import opened FreePages
  import opened HobGeneration
  import opened DxeInit
  import opened EfiLoader

  /** All allocations of the loader, in order. */
  function AllRequests(bfvPages: nat, ipl: PeHeader, core: PeHeader, tr: LoadTrace): seq<Request> {
    [Request(bfvPages, EfiRuntimeServicesData, EFI_MEMORY_WB)]
    + ImageRequests(ipl, tr.ipl != ipl.ImageBase)
    + ImageRequests(core, tr.core != core.ImageBase)
  }

  lemma PagesBelow(base: u64, n: nat)
    requires n < TWO_32 && n * PAGE_SIZE <= base
    ensures Sub64(base, PagesToBytes(n)) == base - n * PAGE_SIZE
  {
  }

  /** An image with its fixups takes the next pages below `used`, in one piece: the fixups lie just
      below their image. */
  lemma ImageStacks(s0: seq<Descriptor>, k: nat, used: nat, rs: seq<Request>, i: nat, h: PeHeader,
                    before: seq<Descriptor>, middle: seq<Descriptor>, after: seq<Descriptor>,
                    base: u64, fixups: u64, basePage: u64)
    requires PlacedTable(s0) && StaysHighest(s0, k, rs)
    requires ImageLoaded(h, before, middle, after, base, fixups, basePage)
    requires used + LoadedPages(h, base) < s0[k].NumberOfPages
    requires TakenFrom(s0, k, used, before)
    requires i < |rs| && rs[i] == Request(ImagePages(h), EfiRuntimeServicesCode, EFI_MEMORY_WB)
    requires base != h.ImageBase ==>
               i + 1 < |rs| && rs[i + 1] == Request(FixupPages(h), EfiRuntimeServicesData, EFI_MEMORY_WB)
    ensures TakenFrom(s0, k, used + LoadedPages(h, base), after)
    ensures basePage == (PageEnd(s0[k]) - used - LoadedPages(h, base)) * PAGE_SIZE
    ensures base != h.ImageBase ==> basePage == fixups
  {
    TakeNext(s0, k, used, before, rs, i, middle, base);
    if base != h.ImageBase {
      TakeNext(s0, k, used + ImagePages(h), middle, rs, i + 1, after, fixups);
      PagesBelow(base, FixupPages(h));
    }
  }

  /** Everything the loader allocates comes from entry k of the first table, which keeps some pages. */
  ghost predicate OneSource(tr: LoadTrace, bfvPages: nat, ipl: PeHeader, core: PeHeader, k: nat) {
    && StaysHighest(tr.first, k, AllRequests(bfvPages, ipl, core, tr))
    && bfvPages + LoadedPages(ipl, tr.ipl) + LoadedPages(core, tr.core) < tr.first[k].NumberOfPages
  }

  lemma RequestPositions(bfvPages: nat, ipl: PeHeader, core: PeHeader, tr: LoadTrace)
    ensures var rs, i := AllRequests(bfvPages, ipl, core, tr), 1 + |ImageRequests(ipl, tr.ipl != ipl.ImageBase)|;
            && |rs| > 1 && i < |rs|
            && rs[0] == Request(bfvPages, EfiRuntimeServicesData, EFI_MEMORY_WB)
            && rs[1] == Request(ImagePages(ipl), EfiRuntimeServicesCode, EFI_MEMORY_WB)
            && (tr.ipl != ipl.ImageBase ==> rs[2] == Request(FixupPages(ipl), EfiRuntimeServicesData, EFI_MEMORY_WB))
            && rs[i] == Request(ImagePages(core), EfiRuntimeServicesCode, EFI_MEMORY_WB)
            && (tr.core != core.ImageBase ==>
                  i + 1 < |rs| && rs[i + 1] == Request(FixupPages(core), EfiRuntimeServicesData, EFI_MEMORY_WB))
  {
  }

  /** The loader's three parts are stacked downward from the end of entry k, without gaps. */
  ghost predicate Stacked(bfvPages: nat, ipl: PeHeader, core: PeHeader, tr: LoadTrace, handoff: Handoff, top: nat) {
    && handoff.BfvBase == (top - bfvPages) * PAGE_SIZE
    && handoff.DxeIplImageBase + LoadedPages(ipl, tr.ipl) * PAGE_SIZE == handoff.BfvBase
    && handoff.DxeCoreImageBase + LoadedPages(core, tr.core) * PAGE_SIZE == handoff.DxeIplImageBase
  }

  lemma PartsStack(es: seq<BiosEntry>, bfvPages: nat, ipl: PeHeader, core: PeHeader, tr: LoadTrace,
                   handoff: Handoff, k: nat)
    requires WellFormed(es) && AllReach(es)
    requires Loaded(es, bfvPages, ipl, core, tr, handoff) && OneSource(tr, bfvPages, ipl, core, k)
    ensures TakenFrom(tr.first, k, bfvPages + LoadedPages(ipl, tr.ipl) + LoadedPages(core, tr.core), tr.afterCore)
    ensures Stacked(bfvPages, ipl, core, tr, handoff, PageEnd(tr.first[k]))
  {
    FirstTable(es);
    RequestPositions(bfvPages, ipl, core, tr);
    var s, rs := tr.first, AllRequests(bfvPages, ipl, core, tr);
    TakeNext(s, k, 0, s, rs, 0, tr.afterBfv, handoff.BfvBase);
    ImageStacks(s, k, bfvPages, rs, 1, ipl, tr.afterBfv, tr.iplMiddle, tr.afterIpl, tr.ipl, tr.iplFixups,
                handoff.DxeIplImageBase);
    ImageStacks(s, k, bfvPages + LoadedPages(ipl, tr.ipl), rs, 1 + |ImageRequests(ipl, tr.ipl != ipl.ImageBase)|, core,
                tr.afterIpl, tr.coreMiddle, tr.afterCore, tr.core, tr.coreFixups, handoff.DxeCoreImageBase);
  }

  /** The sizes in the handoff are the pages taken. */
  lemma HandoffSizes(es: seq<BiosEntry>, bfvPages: nat, ipl: PeHeader, core: PeHeader, tr: LoadTrace,
                     handoff: Handoff, k: nat)
    requires WellFormed(es) && AllReach(es)
    requires Loaded(es, bfvPages, ipl, core, tr, handoff) && OneSource(tr, bfvPages, ipl, core, k)
    ensures handoff.BfvSize == bfvPages * PAGE_SIZE
    ensures handoff.DxeIplImageSize == LoadedPages(ipl, tr.ipl) * PAGE_SIZE
    ensures handoff.DxeCoreImageSize == LoadedPages(core, tr.core) * PAGE_SIZE
    ensures PageEnd(tr.first[k]) * PAGE_SIZE <= FOUR_GB
    ensures handoff.BfvBase == (PageEnd(tr.first[k]) - bfvPages) * PAGE_SIZE
    ensures handoff.DxeCoreImageBase >= ONE_MB
    ensures handoff.DxeIplImageBase + handoff.DxeIplImageSize == handoff.BfvBase
    ensures handoff.DxeCoreImageBase + handoff.DxeCoreImageSize == handoff.DxeIplImageBase
  {
    PartsStack(es, bfvPages, ipl, core, tr, handoff, k);
    FirstTable(es);
    var top := PageEnd(tr.first[k]);
    assert Placed(tr.first[k]);
    SmallSizes(bfvPages, LoadedPages(ipl, tr.ipl), LoadedPages(core, tr.core), tr.first[k].NumberOfPages);
  }

  lemma SmallSizes(a: nat, b: nat, c: nat, pages: nat)
    requires a + b + c < pages <= TWO_32 / PAGE_SIZE
    ensures BytesOfPages(a) == a * PAGE_SIZE && BytesOfPages(b) == b * PAGE_SIZE && BytesOfPages(c) == c * PAGE_SIZE
  {
  }

  /** The pages taken off entry k are free no more. */
  lemma TakenPagesNotFree(s0: seq<Descriptor>, k: nat, used: nat, s: seq<Descriptor>, p: int)
    requires PlacedTable(s0) && Exclusive(s0) && k < |s0| && IsConventional(s0[k])
    requires used <= s0[k].NumberOfPages && TakenFrom(s0, k, used, s)
    requires PageEnd(s0[k]) - used <= p < PageEnd(s0[k])
    ensures !Free(s, p)
  {
    forall i | 0 <= i < |s| && IsConventional(s[i])
      ensures !Covers(s[i], p)
    {
      if i != k {
        assert s[i] == s0[i] && Apart(s0[i], s0[k]);
      }
    }
  }

  /** A page free after the allocations was free before them. */
  lemma StillFreeWasFree(s0: seq<Descriptor>, k: nat, used: nat, s: seq<Descriptor>, p: int)
    requires k < |s0| && IsConventional(s0[k]) && used <= s0[k].NumberOfPages && TakenFrom(s0, k, used, s) && Free(s, p)
    ensures Free(s0, p)
  {
    var i :| 0 <= i < |s| && IsConventional(s[i]) && Covers(s[i], p);
    assert i < |s0| && IsConventional(s0[i]) && Covers(s0[i], p);
  }

  /** The loader's final table is placed. */
  lemma AfterCorePlaced(es: seq<BiosEntry>, bfvPages: nat, ipl: PeHeader, core: PeHeader, tr: LoadTrace, handoff: Handoff)
    requires WellFormed(es) && AllReach(es) && Loaded(es, bfvPages, ipl, core, tr, handoff)
    ensures PlacedTable(tr.afterCore) && Exclusive(tr.afterCore)
  {
    AfterIplPlaced(es, bfvPages, ipl, core, tr, handoff);
    ImageKeepsExclusive(core, tr.afterIpl, tr.coreMiddle, tr.afterCore, tr.core, tr.coreFixups, handoff.DxeCoreImageBase);
  }

  lemma AfterIplPlaced(es: seq<BiosEntry>, bfvPages: nat, ipl: PeHeader, core: PeHeader, tr: LoadTrace, handoff: Handoff)
    requires WellFormed(es) && AllReach(es) && Loaded(es, bfvPages, ipl, core, tr, handoff)
    ensures PlacedTable(tr.afterIpl) && Exclusive(tr.afterIpl)
  {
    FirstTable(es);
    AllocationKeepsExclusive(tr.first, bfvPages, EfiRuntimeServicesData, EFI_MEMORY_WB, tr.afterBfv, handoff.BfvBase);
    ImageKeepsExclusive(ipl, tr.afterBfv, tr.iplMiddle, tr.afterIpl, tr.ipl, tr.iplFixups, handoff.DxeIplImageBase);
  }

  lemma CoreRangeExact(handoff: Handoff)
    requires handoff.DxeIplImageBase + handoff.DxeIplImageSize == handoff.BfvBase
    requires handoff.DxeCoreImageBase + handoff.DxeCoreImageSize == handoff.DxeIplImageBase
    ensures var r := CoreRange(handoff);
            && r.Start == handoff.DxeCoreImageBase
            && r.Length == handoff.DxeCoreImageSize + handoff.DxeIplImageSize
            && r.Start + r.Length == handoff.BfvBase
  {
    assert Add64(handoff.DxeIplImageBase, handoff.DxeIplImageSize) == handoff.BfvBase;
  }

  /** The length DxeInit computes for the DXE core is exactly that of the two images with their
      fixups, and the firmware volume follows it. */
  lemma DxeCoreLengthExact(es: seq<BiosEntry>, bfvPages: nat, ipl: PeHeader, core: PeHeader, tr: LoadTrace,
                           handoff: Handoff, k: nat)
    requires WellFormed(es) && AllReach(es)
    requires Loaded(es, bfvPages, ipl, core, tr, handoff) && OneSource(tr, bfvPages, ipl, core, k)
    ensures CoreRange(handoff).Length == (LoadedPages(ipl, tr.ipl) + LoadedPages(core, tr.core)) * PAGE_SIZE
    ensures CoreRange(handoff).Start + CoreRange(handoff).Length == handoff.BfvBase
  {
    HandoffSizes(es, bfvPages, ipl, core, tr, handoff, k);
    CoreRangeExact(handoff);
  }

  /** Neither the firmware volume nor the DXE core occupies a page that is still free. */
  lemma PartsTaken(es: seq<BiosEntry>, bfvPages: nat, ipl: PeHeader, core: PeHeader, tr: LoadTrace,
                   handoff: Handoff, k: nat)
    requires WellFormed(es) && AllReach(es)
    requires Loaded(es, bfvPages, ipl, core, tr, handoff) && OneSource(tr, bfvPages, ipl, core, k)
    ensures Taken(tr.afterCore, Range(handoff.BfvBase, handoff.BfvSize)) && Taken(tr.afterCore, CoreRange(handoff))
  {
    PartsStack(es, bfvPages, ipl, core, tr, handoff, k);
    HandoffSizes(es, bfvPages, ipl, core, tr, handoff, k);
    FirstTable(es);
    BothTaken(tr.first, k, bfvPages, LoadedPages(ipl, tr.ipl), LoadedPages(core, tr.core), tr.afterCore, handoff);
  }

  lemma BothTaken(s0: seq<Descriptor>, k: nat, n0: nat, n1: nat, n2: nat, s: seq<Descriptor>, handoff: Handoff)
    requires PlacedTable(s0) && Exclusive(s0) && k < |s0| && IsConventional(s0[k])
    requires n0 + n1 + n2 <= s0[k].NumberOfPages && TakenFrom(s0, k, n0 + n1 + n2, s)
    requires PageEnd(s0[k]) * PAGE_SIZE <= FOUR_GB && ONE_MB <= handoff.DxeCoreImageBase
    requires handoff.BfvBase == (PageEnd(s0[k]) - n0) * PAGE_SIZE && handoff.BfvSize == n0 * PAGE_SIZE
    requires handoff.DxeIplImageBase == (PageEnd(s0[k]) - n0 - n1) * PAGE_SIZE && handoff.DxeIplImageSize == n1 * PAGE_SIZE
    requires handoff.DxeCoreImageBase == (PageEnd(s0[k]) - n0 - n1 - n2) * PAGE_SIZE && handoff.DxeCoreImageSize == n2 * PAGE_SIZE
    ensures Taken(s, Range(handoff.BfvBase, handoff.BfvSize)) && Taken(s, CoreRange(handoff))
  {
    CoreRangeExact(handoff);
    RangeTaken(s0, k, n0 + n1 + n2, s, Range(handoff.BfvBase, handoff.BfvSize));
    RangeTaken(s0, k, n0 + n1 + n2, s, CoreRange(handoff));
  }

  /** A page-aligned range among the pages taken off entry k. */
  lemma RangeTaken(s0: seq<Descriptor>, k: nat, used: nat, s: seq<Descriptor>, r: Range)
    requires PlacedTable(s0) && Exclusive(s0) && k < |s0| && IsConventional(s0[k])
    requires used <= s0[k].NumberOfPages && TakenFrom(s0, k, used, s)
    requires r.Start % PAGE_SIZE == 0 && r.Length % PAGE_SIZE == 0 && r.Start >= ONE_MB
    requires (PageEnd(s0[k]) - used) * PAGE_SIZE <= r.Start
    requires r.Start + r.Length <= PageEnd(s0[k]) * PAGE_SIZE <= FOUR_GB
    ensures Taken(s, r)
  {
    forall p | r.Start <= p * PAGE_SIZE < r.Start + r.Length
      ensures !Free(s, p)
    {
      TakenPagesNotFree(s0, k, used, s, p);
    }
  }

  /** What the end-to-end theorem says of a layout: the resource ranges are pairwise disjoint,
      allocation and stack exactly tile the range from the free top to the memory top, at the end of
      the memory above 1 MB, and the memory bottom lies in that memory exactly when it is at least
      CONSUMED_MEMORY long. */
  ghost predicate ResourcesSound(l: Layout) {
    && PairwiseDisjoint([l.BfvResource, l.MemoryDxeCore, l.MemoryAbove1MB, l.NvStorageFvResource,
                         l.NvFtwFvResource, l.MemoryFreeUnder1MB, l.MemoryAbove4GB])
    && l.MemoryAbove1MB.Start <= l.EfiFreeMemoryTop == l.MemoryAllocation.Start
    && l.MemoryAllocation.Start + l.MemoryAllocation.Length == l.Stack.Start
    && l.Stack.Start + l.Stack.Length == l.EfiMemoryTop == l.MemoryAbove1MB.Start + l.MemoryAbove1MB.Length
    && (BottomInside(l) <==> l.MemoryAbove1MB.Length >= CONSUMED_MEMORY)
  }

  /** The entry point in the finished blocks: that of the core image where it was loaded, and inside the
      memory registered for the core exactly when the header's offset lies inside the image. */
  ghost predicate EntrySound(core: PeHeader, base: u64, l: Layout) {
    && (core.AddressOfEntryPoint < ImagePages(core) * PAGE_SIZE
        ==> l.DxeCoreEntryPoint == base + core.AddressOfEntryPoint)
    && (l.MemoryDxeCore.Start <= l.DxeCoreEntryPoint < l.MemoryDxeCore.Start + l.MemoryDxeCore.Length
        <==> core.AddressOfEntryPoint < ImagePages(core) * PAGE_SIZE)
  }

  /** Below 4 GB the base of an image is its base page with the log pages added. */
  lemma FixupsBelow(h: PeHeader, base: u64, basePage: u64)
    requires basePage <= FOUR_GB && base <= FOUR_GB
    requires basePage == if base == h.ImageBase then base else Sub64(base, PagesToBytes(FixupPages(h)))
    ensures base + ImagePages(h) * PAGE_SIZE == basePage + LoadedPages(h, base) * PAGE_SIZE
  {
    if base != h.ImageBase {
      var n := FixupPages(h);
      assert PagesToBytes(n) == n * PAGE_SIZE;
      assert basePage == base - n * PAGE_SIZE || basePage == base - n * PAGE_SIZE + TWO_64;
    }
  }

  /** The core image lies in the memory registered for the core, above its log pages. */
  lemma CoreInside(es: seq<BiosEntry>, bfvPages: nat, ipl: PeHeader, core: PeHeader, tr: LoadTrace,
                   handoff: Handoff, k: nat)
    requires WellFormed(es) && AllReach(es)
    requires Loaded(es, bfvPages, ipl, core, tr, handoff) && OneSource(tr, bfvPages, ipl, core, k)
    ensures ONE_MB <= handoff.DxeCoreImageBase <= tr.core
    ensures tr.core + ImagePages(core) * PAGE_SIZE
            == handoff.DxeCoreImageBase + LoadedPages(core, tr.core) * PAGE_SIZE
  {
    HandoffSizes(es, bfvPages, ipl, core, tr, handoff, k);
    AfterIplPlaced(es, bfvPages, ipl, core, tr, handoff);
    InsideFourGB(tr.afterIpl, ImagePages(core), EfiRuntimeServicesCode, EFI_MEMORY_WB, tr.coreMiddle, tr.core);
    FixupsBelow(core, tr.core, handoff.DxeCoreImageBase);
  }

  /** The entry point in the finished blocks, from the header of the core image. */
  lemma EntryFromMemoryList(es: seq<BiosEntry>, bfvPages: nat, ipl: PeHeader, core: PeHeader, tr: LoadTrace,
                            handoff: Handoff, k: nat, bits: u8)
    requires WellFormed(es) && AllReach(es)
    requires Loaded(es, bfvPages, ipl, core, tr, handoff) && OneSource(tr, bfvPages, ipl, core, k)
    ensures EntrySound(core, tr.core, DxeLayout(handoff, tr.afterCore, bits))
  {
    CoreInside(es, bfvPages, ipl, core, tr, handoff, k);
    DxeCoreLengthExact(es, bfvPages, ipl, core, tr, handoff, k);
    EntryInside(core, tr.core, handoff.DxeCoreImageBase, CoreRange(handoff), handoff.DxeCoreEntryPoint, LoadedPages(ipl, tr.ipl));
  }

  lemma EntryInside(core: PeHeader, base: u64, basePage: u64, r: Range, entry: int, others: nat)
    requires 0 < basePage <= base && entry == EntryPoint(core, base) && r.Start == basePage
    requires base + ImagePages(core) * PAGE_SIZE == basePage + LoadedPages(core, base) * PAGE_SIZE
    requires r.Length == (others + LoadedPages(core, base)) * PAGE_SIZE
    ensures core.AddressOfEntryPoint < ImagePages(core) * PAGE_SIZE ==> entry == base + core.AddressOfEntryPoint
    ensures r.Start <= entry < r.Start + r.Length <==> core.AddressOfEntryPoint < ImagePages(core) * PAGE_SIZE
  {
    assert r.Length == others * PAGE_SIZE + LoadedPages(core, base) * PAGE_SIZE;
  }

  /** The end-to-end theorem. For a well-formed memory list whose allocations come from one
      descriptor, and when memory suffices: the resource blocks are pairwise disjoint, allocation and
      stack exactly tile the range below the memory top inside the memory above 1 MB, and the memory
      bottom lies there too exactly when that memory is at least CONSUMED_MEMORY long. */
  lemma ResourcesFromMemoryList(es: seq<BiosEntry>, bfvPages: nat, ipl: PeHeader, core: PeHeader, tr: LoadTrace,
                                handoff: Handoff, k: nat, bits: u8)
    requires WellFormed(es) && AllReach(es)
    requires Loaded(es, bfvPages, ipl, core, tr, handoff) && OneSource(tr, bfvPages, ipl, core, k)
    requires MemorySuffices(tr.afterCore, bits)
    ensures ResourcesSound(DxeLayout(handoff, tr.afterCore, bits))
    ensures EntrySound(core, tr.core, DxeLayout(handoff, tr.afterCore, bits))
  {
    AfterCorePlaced(es, bfvPages, ipl, core, tr, handoff);
    PartsTaken(es, bfvPages, ipl, core, tr, handoff, k);
    DxeCoreLengthExact(es, bfvPages, ipl, core, tr, handoff, k);
    ResourcesDisjoint(handoff, tr.afterCore, bits);
    AllocationTiles(handoff, tr.afterCore, bits);
    BottomInsideIff(handoff, tr.afterCore, bits);
    EntryFromMemoryList(es, bfvPages, ipl, core, tr, handoff, k, bits);
  }

  /** A page still free after the loads lies wholly inside one usable entry of the BIOS list. */
  lemma StillFreeIsUsable(es: seq<BiosEntry>, bfvPages: nat, ipl: PeHeader, core: PeHeader, tr: LoadTrace,
                          handoff: Handoff, k: nat, p: int)
    requires WellFormed(es) && AllReach(es)
    requires Loaded(es, bfvPages, ipl, core, tr, handoff) && OneSource(tr, bfvPages, ipl, core, k)
    requires Free(tr.afterCore, p)
    ensures InUsable(es, p)
  {
    PartsStack(es, bfvPages, ipl, core, tr, handoff, k);
    StillFreeWasFree(tr.first, k, bfvPages + LoadedPages(ipl, tr.ipl) + LoadedPages(core, tr.core), tr.afterCore, p);
    FreeAfterCeiling(es, p);
  }

  /** Every page reported as memory above 1 MB or above 4 GB lies wholly inside one usable entry of
      the BIOS list. */
  lemma ReportedMemoryIsUsable(es: seq<BiosEntry>, bfvPages: nat, ipl: PeHeader, core: PeHeader, tr: LoadTrace,
                               handoff: Handoff, k: nat, bits: u8, p: int)
    requires WellFormed(es) && AllReach(es)
    requires Loaded(es, bfvPages, ipl, core, tr, handoff) && OneSource(tr, bfvPages, ipl, core, k)
    requires MemorySuffices(tr.afterCore, bits)
    requires var l := DxeLayout(handoff, tr.afterCore, bits);
             || l.MemoryAbove1MB.Start <= p * PAGE_SIZE < l.MemoryAbove1MB.Start + l.MemoryAbove1MB.Length
             || l.MemoryAbove4GB.Start <= p * PAGE_SIZE < l.MemoryAbove4GB.Start + l.MemoryAbove4GB.Length
    ensures InUsable(es, p)
  {
    AfterCorePlaced(es, bfvPages, ipl, core, tr, handoff);
    ReportedMemoryIsFree(handoff, tr.afterCore, bits, p);
    StillFreeIsUsable(es, bfvPages, ipl, core, tr, handoff, k, p);
  }

  /** From the BIOS list to the resource blocks: the loader, then the first step of the DXE phase on
      the table that the loader leaves. */
  method Boot(table: DescriptorTable, es: seq<BiosEntry>, DestinationSize: u32,
              iplHeader: PeHeader, iplBytes: array<u8>, iplLog: array<u8>,
              coreHeader: PeHeader, coreBytes: array<u8>, coreLog: array<u8>,
              maxExtendedFunction: u32, addressSizes: u32)
    returns (reached: bool, gHob: Hob, ghost tr: LoadTrace)
    requires table.Valid() && table.NoDesc == 0
    requires |AddAll([], Regions(es))| + 5 <= table.Desc.Length
    requires WellFormed(es) && AllReach(es)
    requires Loadable(iplHeader, iplBytes, iplLog) && Loadable(coreHeader, coreBytes, coreLog)
    requires {iplBytes, iplLog} !! {coreBytes, coreLog}
    modifies table`NoDesc, table.Desc, iplBytes, iplLog, coreBytes, coreLog
    ensures LoaderRun(es, SizeToPages(DestinationSize), iplHeader, coreHeader, old(iplBytes[..]), old(coreBytes[..]), tr,
                      reached)
    ensures reached ==> gHob.DxeCoreEntryPoint == EntryPoint(coreHeader, tr.core)
    ensures forall k: nat ::
              reached && OneSource(tr, SizeToPages(DestinationSize), iplHeader, coreHeader, k)
              && MemorySuffices(tr.afterCore, MemorySpaceBits(maxExtendedFunction, addressSizes))
              ==> ResourcesSound(LayoutOf(gHob)) && EntrySound(coreHeader, tr.core, LayoutOf(gHob))
  {
    var handoff;
    reached, handoff, tr := EfiLoader.EfiLoader(table, es, DestinationSize, iplHeader, iplBytes, iplLog, coreHeader, coreBytes,
                                                coreLog);
    gHob := DxeInit.DxeInit(handoff, table, maxExtendedFunction, addressSizes);
    ghost var bits := MemorySpaceBits(maxExtendedFunction, addressSizes);
    forall k: nat | reached && OneSource(tr, SizeToPages(DestinationSize), iplHeader, coreHeader, k)
                    && MemorySuffices(tr.afterCore, bits)
      ensures ResourcesSound(LayoutOf(gHob)) && EntrySound(coreHeader, tr.core, LayoutOf(gHob))
    {
      ResourcesFromMemoryList(es, SizeToPages(DestinationSize), iplHeader, coreHeader, tr, handoff, k, bits);
    }
  }
}
