/** Boots that meet the premises of the end-to-end theorem: n pages of memory above 1 MB, a firmware
    volume of one page, and two images of one page, of which the first is relocated. */
module Witness {
  import opened Words
  import opened MemoryMap
  import opened PageViews
  import opened E820
  import opened FreePages
  import opened HobGeneration
  import opened DxeInit
  import opened EfiLoader
  import opened EndToEnd

  predicate Enough(n: nat) { 0x1000 <= n <= 0x1_0000 }

  function Top(n: nat): u64
    requires n <= 0x1_0000
  {
    ONE_MB + n * PAGE_SIZE
  }

  /** The free descriptor with n pages left. */
  function Left(n: nat): Descriptor
    requires n <= 0x1_0000
  {
    Descriptor(EfiConventionalMemory, ONE_MB, 0, n, EFI_MEMORY_WB)
  }

  /** A page taken when n pages are left below it. */
  function Page(t: MemoryType, n: nat): Descriptor
    requires n <= 0x1_0000
  {
    Descriptor(t, Top(n), 0, 1, EFI_MEMORY_WB)
  }

  function Memory(n: nat): seq<BiosEntry>
    requires n <= 0x1_0000
  {
    [BiosEntry(ONE_MB, n * PAGE_SIZE, AddressRangeMemory)]
  }

  function Header(base: u64): PeHeader { PeHeader(0x1000, 0, 0, base, 0x100, 0x10, 0x234) }

  lemma PickLeft(rest: seq<Descriptor>, left: nat, s: seq<Descriptor>)
    requires 1 < left <= 0x1_0000 && s == [Left(left)] + rest
    ensures IsPick(s, 1, 1, 0) && PagesToBytes(left - 1) == (left - 1) * PAGE_SIZE
  {
    assert PagesToBytes(left) == left * PAGE_SIZE && PagesToBytes(left - 1) == (left - 1) * PAGE_SIZE;
    assert s[0] == Left(left);
  }

  /** An allocation of one page from a table that starts with the free descriptor. */
  lemma Allocates(rest: seq<Descriptor>, left: nat, k: nat, t: MemoryType, s: seq<Descriptor>, s': seq<Descriptor>, base: u64)
    requires 1 < left <= 0x1_0000 && IsRuntime(t) && k == 1 && base == Top(left - 1)
    requires rest == [] || EndsScan(rest[0])
    requires s == [Left(left)] + rest && s' == [Left(left - 1)] + (rest + [Page(t, left - 1)])
    ensures FindSpaceResult(s, k, t, EFI_MEMORY_WB, s', base)
  {
    HorizonUnique(s, 1);
    PickLeft(rest, left, s);
    assert s[0 := Left(left - 1)] + [Page(t, left - 1)] == s';
    assert TakeTop(s, 0, 1, t, EFI_MEMORY_WB) == (s', base);
  }

  lemma FirstTableOf(n: nat)
    requires Enough(n)
    ensures WellFormed(Memory(n)) && AllReach(Memory(n)) && MemoryMapOf([], Memory(n)) == [Left(n)]
  {
    var r := RegionOf(Memory(n)[0]);
    assert Regions(Memory(n)) == [r] && Regions(Memory(n))[..0] == [];
    assert AddAll([], []) == [];
    assert AddAll([], [r]) == AddDescriptor([], r) == [AsDescriptor(r)];
  }

  lemma Sizes(base: u64, at: u64)
    ensures ImagePages(Header(base)) == 1 && FixupPages(Header(base)) == 1
    ensures LoadedPages(Header(base), at) == if at == base then 1 else 2
    ensures BytesOfPages(1) == 0x1000 && BytesOfPages(2) == 0x2000
  {
  }

  /** The four allocations: volume, first image, its fixups, second image. */
  lemma Allocations(n: nat, i: nat, f: nat, c: nat)
    returns (t1: seq<Descriptor>, t2: seq<Descriptor>, t3: seq<Descriptor>, t4: seq<Descriptor>)
    requires Enough(n) && i == 1 && f == 1 && c == 1
    ensures FindSpaceResult([Left(n)], 1, EfiRuntimeServicesData, EFI_MEMORY_WB, t1, Top(n - 1))
    ensures FindSpaceResult(t1, i, EfiRuntimeServicesCode, EFI_MEMORY_WB, t2, Top(n - 2))
    ensures FindSpaceResult(t2, f, EfiRuntimeServicesData, EFI_MEMORY_WB, t3, Top(n - 3))
    ensures FindSpaceResult(t3, c, EfiRuntimeServicesCode, EFI_MEMORY_WB, t4, Top(n - 4))
    ensures |t4| == 5 && t4[0] == Left(n - 4) && EndsHobScan(t4[1])
  {
    var r1 := [Page(EfiRuntimeServicesData, n - 1)];
    var r2 := r1 + [Page(EfiRuntimeServicesCode, n - 2)];
    var r3 := r2 + [Page(EfiRuntimeServicesData, n - 3)];
    var r4 := r3 + [Page(EfiRuntimeServicesCode, n - 4)];
    t1, t2, t3, t4 := [Left(n - 1)] + r1, [Left(n - 2)] + r2, [Left(n - 3)] + r3, [Left(n - 4)] + r4;
    FirstAllocation(n, [Left(n)], t1);
    Allocates(r1, n - 1, i, EfiRuntimeServicesCode, t1, t2, Top(n - 2));
    Allocates(r2, n - 2, f, EfiRuntimeServicesData, t2, t3, Top(n - 3));
    Allocates(r3, n - 3, c, EfiRuntimeServicesCode, t3, t4, Top(n - 4));
  }

  function HandoffOf(n: nat): Handoff
    requires Enough(n)
  {
    Handoff(Top(n - 1), 0x1000, Top(n - 3), 0x2000, Top(n - 4), 0x1000, Top(n - 4) + 0x234)
  }

  /** A run of the loader. */
  lemma Run(n: nat, es: seq<BiosEntry>, ipl: PeHeader, core: PeHeader) returns (tr: LoadTrace, handoff: Handoff)
    requires Enough(n) && MemoryMapOf([], es) == [Left(n)] && ipl == Header(0) && core == Header(Top(n - 4))
    ensures Loaded(es, 1, ipl, core, tr, handoff)
    ensures tr.first == [Left(n)] && tr.ipl != 0 && tr.core == Top(n - 4)
    ensures |tr.afterCore| == 5 && tr.afterCore[0] == Left(n - 4) && EndsHobScan(tr.afterCore[1])
    ensures handoff == HandoffOf(n)
  {
    Sizes(0, Top(n - 2));
    Sizes(Top(n - 4), Top(n - 4));
    var t1, t2, t3, t4 := Allocations(n, ImagePages(ipl), FixupPages(ipl), ImagePages(core));
    tr := LoadTrace([Left(n)], Top(n - 1), t1, t2, t3, t4, t4, Top(n - 2), Top(n - 3), Top(n - 4), 0);
    handoff := HandoffOf(n);
    PagesBelow(Top(n - 2), FixupPages(ipl));
    RunOf(es, ipl, core, [Left(n)], t1, t2, t3, t4, Top(n - 1), Top(n - 2), Top(n - 3), Top(n - 4), Top(n - 4) + 0x234,
          tr, handoff);
  }

  /** The parts of a run of the loader put together. */
  lemma RunOf(es: seq<BiosEntry>, ipl: PeHeader, core: PeHeader, t0: seq<Descriptor>, t1: seq<Descriptor>,
              t2: seq<Descriptor>, t3: seq<Descriptor>, t4: seq<Descriptor>, b1: u64, b2: u64, b3: u64, b4: u64,
              entry: u64, tr: LoadTrace, handoff: Handoff)
    requires t0 == MemoryMapOf([], es) && b1 != 0 && b2 != 0 && b3 != 0 && b4 != 0
    requires b2 != ipl.ImageBase && b4 == core.ImageBase && Sub64(b2, PagesToBytes(FixupPages(ipl))) == b3
    requires FindSpaceResult(t0, 1, EfiRuntimeServicesData, EFI_MEMORY_WB, t1, b1)
    requires FindSpaceResult(t1, ImagePages(ipl), EfiRuntimeServicesCode, EFI_MEMORY_WB, t2, b2)
    requires FindSpaceResult(t2, FixupPages(ipl), EfiRuntimeServicesData, EFI_MEMORY_WB, t3, b3)
    requires FindSpaceResult(t3, ImagePages(core), EfiRuntimeServicesCode, EFI_MEMORY_WB, t4, b4)
    requires tr == LoadTrace(t0, b1, t1, t2, t3, t4, t4, b2, b3, b4, 0)
    requires handoff == Handoff(b1, BytesOfPages(1), b3, BytesOfPages(LoadedPages(ipl, b2)), b4,
                                BytesOfPages(LoadedPages(core, b4)), entry) && EntryPoint(core, b4) == entry
    ensures Loaded(es, 1, ipl, core, tr, handoff)
  {
    assert ImageLoaded(ipl, t1, t2, t3, b2, b3, b3);
    assert ImageLoaded(core, t3, t4, t4, b4, 0, b4);
  }

  lemma FirstAllocation(n: nat, s: seq<Descriptor>, s': seq<Descriptor>)
    requires Enough(n) && s == [Left(n)] && s' == [Left(n - 1)] + [Page(EfiRuntimeServicesData, n - 1)]
    ensures FindSpaceResult(s, 1, EfiRuntimeServicesData, EFI_MEMORY_WB, s', Top(n - 1))
  {
    assert s == s + [] && [Page(EfiRuntimeServicesData, n - 1)] == [] + [Page(EfiRuntimeServicesData, n - 1)];
    Allocates([], n, 1, EfiRuntimeServicesData, s, s', Top(n - 1));
  }

  lemma FromOneDescriptor(n: nat, tr: LoadTrace)
    requires Enough(n) && tr.first == [Left(n)] && tr.ipl != 0 && tr.core == Top(n - 4)
    ensures OneSource(tr, 1, Header(0), Header(Top(n - 4)), 0)
  {
    Sizes(0, tr.ipl);
    Sizes(Top(n - 4), tr.core);
    HorizonUnique(tr.first, 1);
  }

  lemma Suffices(s: seq<Descriptor>, n: nat)
    requires 0xF00 <= n <= 0x1_0000 && |s| == 5 && s[0] == Left(n) && EndsHobScan(s[1])
    ensures MemorySuffices(s, 36) && FoundAbove1MB(s) == Range(ONE_MB, n * PAGE_SIZE)
    ensures Above4GB(s, HobHorizon(s)) == Range(0, 0) && PageTablePages(36) == 67
  {
    HobHorizonUnique(s, 1);
    assert Above4GB(s, 0) == Range(0, 0);
    assert Above1MB(s, 0) == Range(0, 0);
    assert Above1MB(s, 1) == Range(ONE_MB, n * PAGE_SIZE);
    assert Power2(6) == 64;
    assert PageTablePages(36) == 67;
    FlashSizes();
  }

  /** The premises of the end-to-end theorem can all be met at once, for every memory size from 16 MB
      to 256 MB. */
  lemma PremisesMet(n: nat) returns (tr: LoadTrace, handoff: Handoff)
    requires Enough(n)
    ensures WellFormed(Memory(n)) && AllReach(Memory(n))
    ensures Loaded(Memory(n), 1, Header(0), Header(Top(n - 4)), tr, handoff)
    ensures OneSource(tr, 1, Header(0), Header(Top(n - 4)), 0) && MemorySuffices(tr.afterCore, 36)
    ensures FoundAbove1MB(tr.afterCore) == Range(ONE_MB, (n - 4) * PAGE_SIZE) && PageTablePages(36) == 67
    ensures handoff == HandoffOf(n) && |tr.afterCore| == 5 && Above4GB(tr.afterCore, HobHorizon(tr.afterCore)) == Range(0, 0)
  {
    FirstTableOf(n);
    tr, handoff := Run(n, Memory(n), Header(0), Header(Top(n - 4)));
    FromOneDescriptor(n, tr);
    Suffices(tr.afterCore, n - 4);
  }

  /** In these boots the block list is put inside the memory above 1 MB exactly from 0x5034 pages on,
      80 MB and what is placed at the top: in smaller ones the theorem's other promises hold, and the
      list goes below 1 MB or wraps around. */
  lemma SmallMemoryMissesList(n: nat) returns (tr: LoadTrace, handoff: Handoff)
    requires Enough(n)
    ensures Loaded(Memory(n), 1, Header(0), Header(Top(n - 4)), tr, handoff)
    ensures BottomInside(DxeLayout(handoff, tr.afterCore, 36)) <==> n >= 0x5034
  {
    tr, handoff := PremisesMet(n);
    AfterCorePlaced(Memory(n), 1, Header(0), Header(Top(n - 4)), tr, handoff);
    BottomInsideIff(handoff, tr.afterCore, 36);
    Addresses(handoff, tr.afterCore, 36);
  }

  /** The finished blocks in numbers, counted from the end of the free memory: volumes of 64 and 128 KB,
      a stack of 128 KB, 67 pages of page tables and one of descriptors. */
  predicate LayoutNumbers(top: nat, l: Layout)
    requires 0x100_0000 <= top <= 0x2000_0000
  {
    && l.BfvResource == l.Bfv == Range(top + 0x3000, 0x1000)
    && l.MemoryDxeCore == l.DxeCore == Range(top, 0x3000) && l.DxeCoreEntryPoint == top + 0x234
    && l.MemoryFreeUnder1MB == Range(0x8_6000, 0x1_9800)
    && l.MemoryAbove1MB == Range(0x10_0000, top - 0x3_0000 - 0x10_0000) && l.MemoryAbove4GB == Range(0, 0)
    && l.NvStorageFvResource == Range(top - 0x3_0000, 0x1_0000)
    && l.NvFtwFvResource == Range(top - 0x2_0000, 0x2_0000)
    && l.Stack == Range(top - 0x5_0000, 0x2_0000)
    && l.MemoryAllocation == Range(top - 0x9_4000, 0x4_4000)
    && l.EfiMemoryTop == top - 0x3_0000 && l.EfiFreeMemoryTop == l.MemDesc == top - 0x9_4000
    && l.EfiMemoryBottom == (top - 0x3_0000 - 0x500_0000) % 0x1_0000_0000_0000_0000
    && l.SizeOfMemorySpace == 36 && l.MemDescCount == 5
  }

  lemma Numbers(n: nat, handoff: Handoff, s: seq<Descriptor>, top: nat, l: Layout)
    requires Enough(n) && handoff == HandoffOf(n) && PlacedTable(s) && MemorySuffices(s, 36) && |s| == 5
    requires FoundAbove1MB(s) == Range(ONE_MB, (n - 4) * PAGE_SIZE) && Above4GB(s, HobHorizon(s)) == Range(0, 0)
    requires PageTablePages(36) == 67 && top == 0x10_0000 + (n - 4) * 0x1000 && l == DxeLayout(handoff, s, 36)
    ensures LayoutNumbers(top, l)
  {
    Addresses(handoff, s, 36);
    FlashSizes();
    assert SizeToPages(5 * MEMORY_DESCRIPTOR_SIZE) == 1;
    CoreRangeExact(handoff);
    assert l.EfiFreeMemoryTop == top - 0x9_4000;
  }

  /** The layout of these boots. */
  lemma LayoutInNumbers(n: nat, top: nat) returns (tr: LoadTrace, handoff: Handoff)
    requires Enough(n) && top == 0x10_0000 + (n - 4) * 0x1000
    ensures Loaded(Memory(n), 1, Header(0), Header(Top(n - 4)), tr, handoff)
    ensures LayoutNumbers(top, DxeLayout(handoff, tr.afterCore, 36))
  {
    tr, handoff := PremisesMet(n);
    AfterCorePlaced(Memory(n), 1, Header(0), Header(Top(n - 4)), tr, handoff);
    var l := DxeLayout(handoff, tr.afterCore, 36);
    Numbers(n, handoff, tr.afterCore, top, l);
  }
}
