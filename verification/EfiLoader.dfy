/** The loader: the memory map, the boot firmware volume and the two images, and the handoff it
    fills in (DuetPkg/EfiLdr/EfiLoader.c, with the allocations of DuetPkg/EfiLdr/PeLoader.c). */
module EfiLoader {
  import opened Words
  import opened MemoryMap
  import opened PageViews
  import opened Allocation
  import opened E820
  import opened FreePages
  import opened Cells
  import opened PeRelocation
  import opened RelocationGroup
  import opened DxeInit
  import opened MemoryMarks

  /** What the loader uses of the headers of a PE image. */
  datatype PeHeader = PeHeader(
    SizeOfImage: u32,
    SectionAlignment: u32,
    CodeViewSize: u32,
    ImageBase: u64,
    RelocVirtualAddress: u32,
    RelocSize: u32,
    AddressOfEntryPoint: u32)

  /** The pages an image takes: the fewest that hold the image, one alignment unit, added up in 32 bits,
      and the debug information. */
  function ImagePages(h: PeHeader): (n: nat)
    ensures (n - 1) * 0x1000 < (h.SizeOfImage + h.SectionAlignment) % 0x1_0000_0000 + h.CodeViewSize <= n * 0x1000
  {
    SizeToPages((h.SizeOfImage + h.SectionAlignment) % TWO_32 + h.CodeViewSize)
  }

  /** The pages of the log: the fewest that hold eight bytes for every two bytes of the directory. */
  function FixupPages(h: PeHeader): (n: nat)
    ensures n < TWO_32
    ensures (n - 1) * 0x1000 < h.RelocSize / 2 * 8 <= n * 0x1000
  {
    LogPages(h.RelocSize, 8)
  }

  /** The allocations of one image: the image, and the fixups when it has to be relocated. */
  function ImageRequests(h: PeHeader, relocated: bool): seq<Request> {
    [Request(ImagePages(h), EfiRuntimeServicesCode, EFI_MEMORY_WB)] +
    if relocated then [Request(FixupPages(h), EfiRuntimeServicesData, EFI_MEMORY_WB)] else []
  }

  /** The pages of an image loaded at `base`, with its fixups. */
  function LoadedPages(h: PeHeader, base: u64): nat {
    ImagePages(h) + if base != h.ImageBase then FixupPages(h) else 0
  }

  datatype Status = Success | OutOfResources | BadImage | Hung

  /** EFILDR_LOADED_IMAGE */
  class LoadedImage {
    var ImageBasePage: u64
    var NoPages: nat
    var ImageBase: u64
    var ImageEof: u64
    var ImageAdjust: u64
    var EntryPoint: u64

    constructor ()
    {
      ImageBasePage, NoPages, ImageBase, ImageEof, ImageAdjust, EntryPoint := 0, 0, 0, 0, 0, 0;
    }

    /** EfiLdrPeCoffImageAddress: zero stands for the null pointer. */
    function ImageAddress(Address: u64): u64
      reads this
    {
      var FixedAddress := Add64(ImageAdjust, Address);
      if FixedAddress < ImageBase || FixedAddress > ImageEof then 0 else FixedAddress
    }

    /** The fields describe an image of `size` bytes loaded at its base. */
    ghost predicate LoadedAt(base: u64, size: nat)
      reads this
    {
      && base > 0
      && base + size <= TWO_64
      && size > 0
      && ImageBase == ImageAdjust == base
      && ImageEof == base + size - 1
    }

    /** The fields of an image whose pages have been found at `base`. */
    method SetBase(base: u64, pages: nat)
      requires pages > 0 && base > 0 && base + pages * PAGE_SIZE <= TWO_64
      modifies this
      ensures ImageBasePage == ImageBase == base && NoPages == pages && LoadedAt(base, pages * PAGE_SIZE)
    {
      ImageBasePage, ImageBase, ImageAdjust := base, base, base;
      ImageEof := base + pages * PAGE_SIZE - 1;
      NoPages := pages;
    }

    /** Exactly the addresses inside the image are translated, each to its place in memory. */
    lemma AddressInsideIff(Address: u64, base: u64, size: nat)
      requires LoadedAt(base, size)
      ensures ImageAddress(Address) == if Address < size then base + Address else 0
    {
    }

    /** The address of the entry point of an image loaded at its base. */
    method SetEntryPoint(Address: u64, ghost base: u64, ghost size: nat)
      requires LoadedAt(base, size)
      modifies this`EntryPoint
      ensures EntryPoint == if Address < size then base + Address else 0
    {
      AddressInsideIff(Address, base, size);
      EntryPoint := ImageAddress(Address);
    }

    /** The two ends of the relocation directory have addresses in the image. */
    predicate DirectoryInside(h: PeHeader)
      reads this
      requires h.RelocVirtualAddress + h.RelocSize < TWO_32
    {
      ImageAddress(h.RelocVirtualAddress) != 0 && ImageAddress(h.RelocVirtualAddress + h.RelocSize) != 0
    }

    lemma DirectoryInsideIff(h: PeHeader, base: u64, size: nat)
      requires LoadedAt(base, size) && h.RelocVirtualAddress + h.RelocSize < TWO_32
      ensures DirectoryInside(h) <==> h.RelocVirtualAddress + h.RelocSize < size
      ensures DirectoryInside(h) ==>
                && ImageAddress(h.RelocVirtualAddress) - base == h.RelocVirtualAddress
                && ImageAddress(h.RelocVirtualAddress + h.RelocSize) - base == h.RelocVirtualAddress + h.RelocSize
    {
      AddressInsideIff(h.RelocVirtualAddress, base, size);
      AddressInsideIff(h.RelocVirtualAddress + h.RelocSize, base, size);
    }
  }

  /** The allocations of one successful image load, and where the image with its fixups starts. */
  ghost predicate ImageLoaded(h: PeHeader, before: seq<Descriptor>, middle: seq<Descriptor>, after: seq<Descriptor>,
                              base: u64, fixups: u64, basePage: u64)
  {
    && FindSpaceResult(before, ImagePages(h), EfiRuntimeServicesCode, EFI_MEMORY_WB, middle, base)
    && base != 0
    && if base == h.ImageBase then after == middle && basePage == base
       else && FindSpaceResult(middle, FixupPages(h), EfiRuntimeServicesData, EFI_MEMORY_WB, after, fixups)
            && fixups != 0
            && basePage == Sub64(base, PagesToBytes(FixupPages(h)))
  }

  /** A successful allocation lies in (0, 4 GB]. */
  lemma InsideFourGB(s: seq<Descriptor>, n: nat, t: MemoryType, a: u64, s': seq<Descriptor>, base: u64)
    requires PlacedTable(s) && FindSpaceResult(s, n, t, a, s', base) && base != 0
    ensures base % PAGE_SIZE == 0 && base + n * PAGE_SIZE <= FOUR_GB
  {
    var k := PickedEntry(s, n, t, a, s', base);
    PagesAligned(PageEnd(s[k]) - n);
  }

  lemma PagesAligned(pages: int)
    ensures pages * PAGE_SIZE % PAGE_SIZE == 0
  {
  }

  /** The relocation directory of a loaded image lies inside it and is well formed. */
  ghost predicate GoodDirectory(h: PeHeader, bytes: seq<u8>) {
    && h.RelocVirtualAddress + h.RelocSize < TWO_32
    && (h.RelocVirtualAddress + h.RelocSize < |bytes| ==>
          Relocatable(bytes, h.RelocVirtualAddress, h.RelocVirtualAddress + h.RelocSize))
  }

  /** The image is the old one relocated by the distance between its base and the one it was
      linked for. */
  ghost predicate RelocatedTo(h: PeHeader, loaded: seq<u8>, base: u64, bytes: seq<u8>) {
    RelocationResult(loaded, h.RelocVirtualAddress, h.RelocVirtualAddress + h.RelocSize,
                     Sub64(base, h.ImageBase), Finished, bytes)
  }

  lemma Distance(base: u64, linked: u64) returns (adjust: u64)
    ensures adjust == Sub64(base, linked)
    ensures linked + adjust == base || linked + adjust == base + TWO_64
  {
    adjust := Sub64(base, linked);
  }

  lemma AllHandled(h: PeHeader, loaded: seq<u8>, base: u64, bytes: seq<u8>, fs: seq<Fixup>, adjust: u64)
    requires RelocatedTo(h, loaded, base, bytes) && adjust == Sub64(base, h.ImageBase)
    requires fs == AllEntries(loaded, h.RelocVirtualAddress, h.RelocVirtualAddress + h.RelocSize)
    ensures AllInImage(fs, |loaded|) && bytes == PatchAll(loaded, fs, adjust)
  {
    assert Handled(fs) == fs;
  }

  /** What relocating means: where a 64-bit pointer (kind 10) to offset x of the image as it was linked
      stood, there is now a pointer to offset x of the image as it was loaded. A 32-bit pointer (kind 3)
      moves in the same way, modulo its width. */
  lemma PointersMove(h: PeHeader, loaded: seq<u8>, base: u64, bytes: seq<u8>, fs: seq<Fixup>, linked: u64,
                     i: nat, o: nat, x: nat)
    requires RelocatedTo(h, loaded, base, bytes) && linked == h.ImageBase
    requires fs == AllEntries(loaded, h.RelocVirtualAddress, h.RelocVirtualAddress + h.RelocSize)
    requires TargetsApart(fs) && i < |fs| && o == fs[i].Offset
    ensures |bytes| == |loaded|
    ensures fs[i].Kind == 10 ==>
              && o + 8 <= |loaded|
              && (Cell(loaded, o, 8) == (linked + x) % 0x1_0000_0000_0000_0000 ==>
                    Cell(bytes, o, 8) == (base + x) % 0x1_0000_0000_0000_0000)
    ensures fs[i].Kind == 3 ==>
              && o + 4 <= |loaded|
              && (Cell(loaded, o, 4) == (linked + x) % 0x1_0000_0000 ==>
                    Cell(bytes, o, 4) == (base + x) % 0x1_0000_0000)
  {
    var adjust := Distance(base, linked);
    AllHandled(h, loaded, base, bytes, fs, adjust);
    if fs[i].Kind == 10 {
      PointerMoves(loaded, fs, adjust, linked, base, i, o, x, bytes);
    } else if fs[i].Kind == 3 {
      NarrowPointerMoves(loaded, fs, adjust, linked, base, i, o, x, bytes);
    }
  }

  /** The two ends of the directory lie inside an image of `size` bytes. */
  predicate DirectoryWithin(h: PeHeader, size: nat) { h.RelocVirtualAddress + h.RelocSize < size }

  function StatusOf(outcome: Outcome): Status {
    match outcome
    case Finished => Success
    case LoadError => BadImage
    case DeadLoop => Hung
  }

  /** How relocating an image ends when its log pages are at `fixups`, zero if there were none. */
  ghost function RelocateStatus(h: PeHeader, loaded: seq<u8>, fixups: u64): Status
    requires GoodDirectory(h, loaded)
  {
    if !DirectoryWithin(h, |loaded|) then BadImage
    else if fixups == 0 then OutOfResources
    else StatusOf(OutcomeOf(loaded, h.RelocVirtualAddress, h.RelocVirtualAddress + h.RelocSize))
  }

  /** How loading an image ends, by the addresses of its pages and of its log pages. */
  ghost function LoadStatus(h: PeHeader, loaded: seq<u8>, base: u64, fixups: u64): Status
    requires GoodDirectory(h, loaded)
  {
    if base == 0 then OutOfResources
    else if base == h.ImageBase then Success
    else RelocateStatus(h, loaded, fixups)
  }

  /** The log pages of an image that is relocated: asked for when the directory lies inside it. */
  ghost predicate LogAttempt(h: PeHeader, size: nat, middle: seq<Descriptor>, after: seq<Descriptor>, fixups: u64) {
    if DirectoryWithin(h, size) then
      FindSpaceResult(middle, FixupPages(h), EfiRuntimeServicesData, EFI_MEMORY_WB, after, fixups)
    else after == middle && fixups == 0
  }

  /** The allocations of an image load, successful or not. */
  ghost predicate LoadAttempt(h: PeHeader, size: nat, before: seq<Descriptor>, middle: seq<Descriptor>,
                              after: seq<Descriptor>, base: u64, fixups: u64)
  {
    && FindSpaceResult(before, ImagePages(h), EfiRuntimeServicesCode, EFI_MEMORY_WB, middle, base)
    && if base != 0 && base != h.ImageBase then LogAttempt(h, size, middle, after, fixups)
       else after == middle && fixups == 0
  }

  /** The directory lies inside the image, and so do its blocks; every entry is of a known type. */
  ghost predicate DirectoryRuns(h: PeHeader, loaded: seq<u8>)
    requires GoodDirectory(h, loaded)
  {
    && DirectoryWithin(h, |loaded|)
    && var start, end := h.RelocVirtualAddress, h.RelocVirtualAddress + h.RelocSize;
       StaysInside(loaded, start, end) && forall f :: f in AllEntries(loaded, start, end) ==> Supported(f)
  }

  lemma FinishedIff(b: seq<u8>, start: nat, end: nat)
    requires Tiled(b, start, end)
    ensures OutcomeOf(b, start, end) == Finished
            <==> StaysInside(b, start, end) && forall f :: f in AllEntries(b, start, end) ==> Supported(f)
  {
    var fs := AllEntries(b, start, end);
    assert |Handled(fs)| < |fs| ==> fs[|Handled(fs)|] in fs;
  }

  lemma RelocateSucceedsIff(h: PeHeader, loaded: seq<u8>, fixups: u64)
    requires GoodDirectory(h, loaded)
    ensures RelocateStatus(h, loaded, fixups) == Success <==> DirectoryRuns(h, loaded) && fixups != 0
  {
    if DirectoryWithin(h, |loaded|) {
      FinishedIff(loaded, h.RelocVirtualAddress, h.RelocVirtualAddress + h.RelocSize);
    }
  }

  lemma OutcomeIs(b: seq<u8>, start: nat, end: nat)
    requires Tiled(b, start, end)
    ensures var strange := exists f :: f in AllEntries(b, start, end) && f.Kind !in {0, 1, 2, 3, 10};
            OutcomeOf(b, start, end) == if strange then DeadLoop else if StaysInside(b, start, end) then Finished else LoadError
  {
    HangsIff(b, start, end);
  }

  /** How relocating fails: a directory that sticks out of the image makes it a bad image, missing log
      pages are missing resources, an entry of a strange kind hangs the system, and a block that leaves
      the image makes it bad again. */
  lemma RelocateFails(h: PeHeader, loaded: seq<u8>, fixups: u64, start: nat, end: nat, strange: bool)
    requires GoodDirectory(h, loaded) && start == h.RelocVirtualAddress && end == start + h.RelocSize
    requires end < |loaded| ==> (strange <==> exists f :: f in AllEntries(loaded, start, end) && f.Kind !in {0, 1, 2, 3, 10})
    ensures RelocateStatus(h, loaded, fixups)
            == if end >= |loaded| then BadImage
               else if fixups == 0 then OutOfResources
               else if strange then Hung
               else if StaysInside(loaded, start, end) then Success
               else BadImage
  {
    if end < |loaded| {
      OutcomeIs(loaded, start, end);
    }
  }

  lemma LogFoundIff(h: PeHeader, size: nat, middle: seq<Descriptor>, after: seq<Descriptor>, fixups: u64)
    requires PlacedTable(middle) && LogAttempt(h, size, middle, after, fixups)
    ensures fixups != 0 <==> DirectoryWithin(h, size) && !NoneEligible(middle, FixupPages(h), Horizon(middle))
  {
    if DirectoryWithin(h, size) {
      FailsIffNoneEligible(middle, FixupPages(h), EfiRuntimeServicesData, EFI_MEMORY_WB, after, fixups);
    }
  }

  /** A load succeeds if and only if there are pages for the image and, when these are not where it was
      linked to, there are pages for the log and the directory can be run to its end. */
  lemma LoadSucceedsIff(h: PeHeader, loaded: seq<u8>, before: seq<Descriptor>, middle: seq<Descriptor>,
                        after: seq<Descriptor>, base: u64, fixups: u64)
    requires PlacedTable(before) && Exclusive(before) && GoodDirectory(h, loaded)
    requires LoadAttempt(h, |loaded|, before, middle, after, base, fixups)
    ensures LoadStatus(h, loaded, base, fixups) == Success
            <==> && !NoneEligible(before, ImagePages(h), Horizon(before))
                 && (base == h.ImageBase ||
                     (!NoneEligible(middle, FixupPages(h), Horizon(middle)) && DirectoryRuns(h, loaded)))
  {
    FailsIffNoneEligible(before, ImagePages(h), EfiRuntimeServicesCode, EFI_MEMORY_WB, middle, base);
    if base != 0 && base != h.ImageBase {
      AllocationKeepsExclusive(before, ImagePages(h), EfiRuntimeServicesCode, EFI_MEMORY_WB, middle, base);
      LogFoundIff(h, |loaded|, middle, after, fixups);
      RelocateSucceedsIff(h, loaded, fixups);
    }
  }

  lemma StatusIs(h: PeHeader, loaded: seq<u8>, fixups: u64, base: u64, start: nat, end: nat, outcome: Outcome, bytes: seq<u8>)
    requires GoodDirectory(h, loaded) && DirectoryWithin(h, |loaded|) && fixups != 0
    requires start == h.RelocVirtualAddress && end == h.RelocVirtualAddress + h.RelocSize
    requires RelocationResult(loaded, start, end, Sub64(base, h.ImageBase), outcome, bytes)
    ensures RelocateStatus(h, loaded, fixups) == StatusOf(outcome)
    ensures outcome == Finished ==> RelocatedTo(h, loaded, base, bytes)
  {
  }

  /** The loops of EfiLdrPeCoffLoadPeRelocate over the directory of a loaded image. */
  method RunDirectory(image: LoadedImage, h: PeHeader, bytes: array<u8>, log: array<u8>, fixups: u64, ghost loaded: seq<u8>)
    returns (status: Status)
    requires bytes != log && bytes[..] == loaded && image.LoadedAt(image.ImageBase, bytes.Length)
    requires GoodDirectory(h, loaded) && FixupPages(h) * PAGE_SIZE <= log.Length
    requires DirectoryWithin(h, |loaded|) && fixups != 0
    modifies bytes, log
    ensures status == RelocateStatus(h, loaded, fixups)
    ensures status == Success ==> RelocatedTo(h, loaded, image.ImageBase, bytes[..])
  {
    image.DirectoryInsideIff(h, image.ImageBase, bytes.Length);
    var start := image.ImageAddress(h.RelocVirtualAddress) - image.ImageBase;
    var end := image.ImageAddress(h.RelocVirtualAddress + h.RelocSize) - image.ImageBase;
    assert start == h.RelocVirtualAddress && end == h.RelocVirtualAddress + h.RelocSize;
    var outcome := Relocate(bytes, log, start, end, Sub64(image.ImageBase, h.ImageBase), loaded);
    status := StatusOf(outcome);
    StatusIs(h, loaded, fixups, image.ImageBase, start, end, outcome, bytes[..]);
  }

  /** EfiLdrPeCoffLoadPeRelocate: find the directory, reserve the log, run the relocations, and
      count the log pages as part of the image. */
  method LoadPeRelocate(table: DescriptorTable, image: LoadedImage, h: PeHeader, bytes: array<u8>, log: array<u8>)
    returns (status: Status, fixups: u64)
    requires table.Valid() && table.NoDesc < table.Desc.Length
    requires bytes != log && image.LoadedAt(image.ImageBase, bytes.Length)
    requires GoodDirectory(h, bytes[..]) && FixupPages(h) * PAGE_SIZE <= log.Length
    modifies table`NoDesc, table.Desc, image`NoPages, image`ImageBasePage, bytes, log
    ensures table.Valid() && table.NoDesc <= old(table.NoDesc) + 1
    ensures LogAttempt(h, bytes.Length, old(table.Contents()), table.Contents(), fixups)
    ensures status == RelocateStatus(h, old(bytes[..]), fixups)
    ensures status == Success ==>
              && image.NoPages == old(image.NoPages) + FixupPages(h)
              && image.ImageBasePage == Sub64(old(image.ImageBasePage), PagesToBytes(FixupPages(h)))
              && RelocatedTo(h, old(bytes[..]), image.ImageBase, bytes[..])
  {
    ghost var loaded := bytes[..];
    fixups := 0;
    image.DirectoryInsideIff(h, image.ImageBase, bytes.Length);
    if !image.DirectoryInside(h) {
      return BadImage, fixups;
    }
    fixups := table.FindSpace(FixupPages(h), EfiRuntimeServicesData, EFI_MEMORY_WB);
    assert bytes[..] == loaded;
    ghost var after := table.Contents();
    if fixups == 0 {
      return OutOfResources, fixups;
    }
    status := RunDirectory(image, h, bytes, log, fixups, loaded);
    assert table.Contents() == after;
    if status == Success {
      image.NoPages := image.NoPages + FixupPages(h);
      image.ImageBasePage := Sub64(image.ImageBasePage, PagesToBytes(FixupPages(h)));
    }
  }

  /** EfiLdrPeCoffLoadPeImage from its first allocation on. `bytes` is the image memory once headers,
      directories and sections have been copied into it, `log` the fixup pages. */
  method LoadPeImage(table: DescriptorTable, image: LoadedImage, h: PeHeader, bytes: array<u8>, log: array<u8>)
    returns (status: Status, base: u64, fixups: u64, ghost middle: seq<Descriptor>)
    requires table.Valid() && table.NoDesc + 2 <= table.Desc.Length && PlacedTable(table.Contents())
    requires ImagePages(h) > 0 && bytes.Length == ImagePages(h) * PAGE_SIZE && bytes != log
    requires GoodDirectory(h, bytes[..]) && FixupPages(h) * PAGE_SIZE <= log.Length
    modifies table`NoDesc, table.Desc, image, bytes, log
    ensures table.Valid() && table.NoDesc <= old(table.NoDesc) + 2
    ensures LoadAttempt(h, bytes.Length, old(table.Contents()), middle, table.Contents(), base, fixups)
    ensures status == LoadStatus(h, old(bytes[..]), base, fixups)
    ensures status == Success ==>
              && ImageLoaded(h, old(table.Contents()), middle, table.Contents(), base, fixups, image.ImageBasePage)
              && image.NoPages == LoadedPages(h, base)
              && (base == h.ImageBase ==> bytes[..] == old(bytes[..]))
              && (base != h.ImageBase ==> RelocatedTo(h, old(bytes[..]), base, bytes[..]))
              && image.EntryPoint == EntryPoint(h, base)
  {
    ghost var before := table.Contents();
    ghost var loaded := bytes[..];
    fixups := 0;
    base := table.FindSpace(ImagePages(h), EfiRuntimeServicesCode, EFI_MEMORY_WB);
    middle := table.Contents();
    if base == 0 {
      return OutOfResources, base, fixups, middle;
    }
    InsideFourGB(before, ImagePages(h), EfiRuntimeServicesCode, EFI_MEMORY_WB, middle, base);
    image.SetBase(base, ImagePages(h));
    assert bytes[..] == loaded && table.Contents() == middle;
    if base != h.ImageBase {
      status, fixups := LoadPeRelocate(table, image, h, bytes, log);
      if status != Success {
        return;
      }
    }
    image.SetEntryPoint(h.AddressOfEntryPoint, base, bytes.Length);
    status := Success;
  }

  lemma MarkedIff(s: seq<Descriptor>, p: int, m: Mark)
    ensures Count(s, p, m) > 0 <==> Marked(s, p, (m.Type, m.Attribute))
  {
    CountPositive(s, p, m);
    if Marked(s, p, (m.Type, m.Attribute)) {
      var k :| 0 <= k < |s| && CoversPage(s[k], p) && (s[k].Type, s[k].Attribute) == (m.Type, m.Attribute);
      assert Covers(s[k], p) && MarkOf(s[k]) == m;
    }
    if i :| 0 <= i < |s| && Covers(s[i], p) && MarkOf(s[i]) == m {
      assert CoversPage(s[i], p);
    }
  }

  lemma StillMarked(s: seq<Descriptor>, n: nat, t: MemoryType, a: u64, s': seq<Descriptor>, base: u64, p: int, mark: (nat, u64))
    requires PlacedTable(s) && FindSpaceResult(s, n, t, a, s', base) && Marked(s, p, mark) && mark.0 != 7
    ensures Marked(s', p, mark)
  {
    var m := Mark(mark.0, mark.1);
    MarkedIff(s, p, m);
    AllocationKeepsMarks(s, n, t, a, s', base, p, m);
    MarkedIff(s', p, m);
  }

  lemma NewlyMarked(s: seq<Descriptor>, n: nat, t: MemoryType, a: u64, s': seq<Descriptor>, base: u64, p: int)
    requires PlacedTable(s) && FindSpaceResult(s, n, t, a, s', base) && base != 0 && t != 7
    requires base / 0x1000 <= p < base / 0x1000 + n
    ensures Marked(s', p, (t, a))
  {
    AllocationMarks(s, n, t, a, s', base, p);
    MarkedIff(s', p, Mark(t, a));
  }

  /** After an image has been loaded its pages are runtime code (type 5) and those of its log runtime data
      (type 6), all write-back; what was marked before stays marked. */
  lemma ImageMarks(h: PeHeader, before: seq<Descriptor>, middle: seq<Descriptor>, after: seq<Descriptor>,
                   base: u64, fixups: u64, basePage: u64, p: int)
    requires PlacedTable(before) && Exclusive(before)
    requires ImageLoaded(h, before, middle, after, base, fixups, basePage)
    ensures base / 0x1000 <= p < base / 0x1000 + ImagePages(h) ==> Marked(after, p, (5, 8))
    ensures base != h.ImageBase && fixups / 0x1000 <= p < fixups / 0x1000 + FixupPages(h) ==> Marked(after, p, (6, 8))
    ensures Marked(before, p, (5, 8)) ==> Marked(after, p, (5, 8))
    ensures Marked(before, p, (6, 8)) ==> Marked(after, p, (6, 8))
  {
    AllocationKeepsExclusive(before, ImagePages(h), EfiRuntimeServicesCode, EFI_MEMORY_WB, middle, base);
    if base / 0x1000 <= p < base / 0x1000 + ImagePages(h) {
      NewlyMarked(before, ImagePages(h), EfiRuntimeServicesCode, EFI_MEMORY_WB, middle, base, p);
    }
    BothStillMarked(before, ImagePages(h), EfiRuntimeServicesCode, middle, base, p);
    if base != h.ImageBase {
      if fixups / 0x1000 <= p < fixups / 0x1000 + FixupPages(h) {
        NewlyMarked(middle, FixupPages(h), EfiRuntimeServicesData, EFI_MEMORY_WB, after, fixups, p);
      }
      BothStillMarked(middle, FixupPages(h), EfiRuntimeServicesData, after, fixups, p);
    }
  }

  lemma BothStillMarked(s: seq<Descriptor>, n: nat, t: MemoryType, s': seq<Descriptor>, base: u64, p: int)
    requires PlacedTable(s) && FindSpaceResult(s, n, t, EFI_MEMORY_WB, s', base)
    ensures Marked(s, p, (5, 8)) ==> Marked(s', p, (5, 8))
    ensures Marked(s, p, (6, 8)) ==> Marked(s', p, (6, 8))
  {
    if Marked(s, p, (5, 8)) {
      StillMarked(s, n, t, EFI_MEMORY_WB, s', base, p, (5, 8));
    }
    if Marked(s, p, (6, 8)) {
      StillMarked(s, n, t, EFI_MEMORY_WB, s', base, p, (6, 8));
    }
  }

  // ---------------------------------------------------------------------
  // The loader
  // ---------------------------------------------------------------------

  /** The tables and addresses one run of the loader goes through. */
  datatype LoadTrace = LoadTrace(
    first: seq<Descriptor>, bfv: u64, afterBfv: seq<Descriptor>,
    iplMiddle: seq<Descriptor>, afterIpl: seq<Descriptor>,
    coreMiddle: seq<Descriptor>, afterCore: seq<Descriptor>,
    ipl: u64, iplFixups: u64, core: u64, coreFixups: u64)

  function BytesOfPages(n: nat): u64 { n * PAGE_SIZE % TWO_64 }

  /** The entry point of an image loaded at `base`: null when it lies outside. */
  function EntryPoint(h: PeHeader, base: u64): int {
    if h.AddressOfEntryPoint < ImagePages(h) * PAGE_SIZE then base + h.AddressOfEntryPoint else 0
  }

  /** The two images of a run of the loader. */
  ghost predicate ImagesLoaded(iplHeader: PeHeader, coreHeader: PeHeader, afterBfv: seq<Descriptor>,
                               tr: LoadTrace, handoff: Handoff)
  {
    && ImageLoaded(iplHeader, afterBfv, tr.iplMiddle, tr.afterIpl, tr.ipl, tr.iplFixups, handoff.DxeIplImageBase)
    && handoff.DxeIplImageSize == BytesOfPages(LoadedPages(iplHeader, tr.ipl))
    && ImageLoaded(coreHeader, tr.afterIpl, tr.coreMiddle, tr.afterCore, tr.core, tr.coreFixups, handoff.DxeCoreImageBase)
    && handoff.DxeCoreImageSize == BytesOfPages(LoadedPages(coreHeader, tr.core))
    && handoff.DxeCoreEntryPoint == EntryPoint(coreHeader, tr.core)
  }

  /** A run of the loader that reached the handoff. */
  ghost predicate Loaded(es: seq<BiosEntry>, bfvPages: nat, iplHeader: PeHeader, coreHeader: PeHeader,
                         tr: LoadTrace, handoff: Handoff)
  {
    && tr.first == MemoryMapOf([], es)
    && FindSpaceResult(tr.first, bfvPages, EfiRuntimeServicesData, EFI_MEMORY_WB, tr.afterBfv, handoff.BfvBase)
    && handoff.BfvBase != 0
    && handoff.BfvSize == BytesOfPages(bfvPages)
    && ImagesLoaded(iplHeader, coreHeader, tr.afterBfv, tr, handoff)
  }

  /** The two loads of a run, successful or not: the handoff is reached if and only if both succeed and
      the entry point of the first image lies inside it. */
  ghost predicate LoadsRun(iplHeader: PeHeader, coreHeader: PeHeader, iplLoaded: seq<u8>, coreLoaded: seq<u8>,
                           afterBfv: seq<Descriptor>, tr: LoadTrace, reached: bool)
    requires GoodDirectory(iplHeader, iplLoaded) && GoodDirectory(coreHeader, coreLoaded)
  {
    && LoadAttempt(iplHeader, |iplLoaded|, afterBfv, tr.iplMiddle, tr.afterIpl, tr.ipl, tr.iplFixups)
    && if LoadStatus(iplHeader, iplLoaded, tr.ipl, tr.iplFixups) != Success then !reached
       else
         && LoadAttempt(coreHeader, |coreLoaded|, tr.afterIpl, tr.coreMiddle, tr.afterCore, tr.core, tr.coreFixups)
         && (reached <==> LoadStatus(coreHeader, coreLoaded, tr.core, tr.coreFixups) == Success
                          && iplHeader.AddressOfEntryPoint < |iplLoaded|)
  }

  /** A run of the loader, whether it reaches the handoff or not. */
  ghost predicate LoaderRun(es: seq<BiosEntry>, bfvPages: nat, iplHeader: PeHeader, coreHeader: PeHeader,
                            iplLoaded: seq<u8>, coreLoaded: seq<u8>, tr: LoadTrace, reached: bool)
    requires GoodDirectory(iplHeader, iplLoaded) && GoodDirectory(coreHeader, coreLoaded)
  {
    && tr.first == MemoryMapOf([], es)
    && FindSpaceResult(tr.first, bfvPages, EfiRuntimeServicesData, EFI_MEMORY_WB, tr.afterBfv, tr.bfv)
    && if tr.bfv == 0 then !reached
       else LoadsRun(iplHeader, coreHeader, iplLoaded, coreLoaded, tr.afterBfv, tr, reached)
  }

  /** What the loader needs of one image and the buffers it is loaded into. */
  ghost predicate Loadable(h: PeHeader, bytes: array<u8>, log: array<u8>)
    reads bytes
  {
    && bytes != log
    && ImagePages(h) > 0
    && bytes.Length == ImagePages(h) * PAGE_SIZE
    && GoodDirectory(h, bytes[..])
    && FixupPages(h) * PAGE_SIZE <= log.Length
  }

  lemma FirstTable(es: seq<BiosEntry>)
    requires WellFormed(es) && AllReach(es)
    ensures PlacedTable(MemoryMapOf([], es)) && Exclusive(MemoryMapOf([], es))
  {
    MemoryMapExclusive(es);
  }

  lemma ImageKeepsExclusive(h: PeHeader, before: seq<Descriptor>, middle: seq<Descriptor>, after: seq<Descriptor>,
                            base: u64, fixups: u64, basePage: u64)
    requires PlacedTable(before) && Exclusive(before)
    requires ImageLoaded(h, before, middle, after, base, fixups, basePage)
    ensures PlacedTable(after) && Exclusive(after)
  {
    AllocationKeepsExclusive(before, ImagePages(h), EfiRuntimeServicesCode, EFI_MEMORY_WB, middle, base);
    if base != h.ImageBase {
      AllocationKeepsExclusive(middle, FixupPages(h), EfiRuntimeServicesData, EFI_MEMORY_WB, after, fixups);
    }
  }

  /** The marks of a run in its last table: the boot firmware volume and the logs are runtime data (type
      6), the images runtime code (type 5), all write-back. */
  lemma RunMarks(es: seq<BiosEntry>, bfvPages: nat, iplHeader: PeHeader, coreHeader: PeHeader, tr: LoadTrace,
                 handoff: Handoff, p: int)
    requires WellFormed(es) && AllReach(es) && Loaded(es, bfvPages, iplHeader, coreHeader, tr, handoff)
    ensures handoff.BfvBase / 0x1000 <= p < handoff.BfvBase / 0x1000 + bfvPages ==> Marked(tr.afterCore, p, (6, 8))
    ensures tr.ipl / 0x1000 <= p < tr.ipl / 0x1000 + ImagePages(iplHeader) ==> Marked(tr.afterCore, p, (5, 8))
    ensures tr.core / 0x1000 <= p < tr.core / 0x1000 + ImagePages(coreHeader) ==> Marked(tr.afterCore, p, (5, 8))
    ensures tr.ipl != iplHeader.ImageBase && tr.iplFixups / 0x1000 <= p < tr.iplFixups / 0x1000 + FixupPages(iplHeader) ==>
              Marked(tr.afterCore, p, (6, 8))
    ensures tr.core != coreHeader.ImageBase && tr.coreFixups / 0x1000 <= p < tr.coreFixups / 0x1000 + FixupPages(coreHeader)
            ==> Marked(tr.afterCore, p, (6, 8))
  {
    FirstTable(es);
    AllocationKeepsExclusive(tr.first, bfvPages, EfiRuntimeServicesData, EFI_MEMORY_WB, tr.afterBfv, handoff.BfvBase);
    if handoff.BfvBase / 0x1000 <= p < handoff.BfvBase / 0x1000 + bfvPages {
      NewlyMarked(tr.first, bfvPages, EfiRuntimeServicesData, EFI_MEMORY_WB, tr.afterBfv, handoff.BfvBase, p);
    }
    ImageKeepsExclusive(iplHeader, tr.afterBfv, tr.iplMiddle, tr.afterIpl, tr.ipl, tr.iplFixups, handoff.DxeIplImageBase);
    ImageMarks(iplHeader, tr.afterBfv, tr.iplMiddle, tr.afterIpl, tr.ipl, tr.iplFixups, handoff.DxeIplImageBase, p);
    ImageMarks(coreHeader, tr.afterIpl, tr.coreMiddle, tr.afterCore, tr.core, tr.coreFixups, handoff.DxeCoreImageBase, p);
  }

  /** The part of EfiLoader that loads the two images. */
  method LoadImages(table: DescriptorTable,
                    iplHeader: PeHeader, iplBytes: array<u8>, iplLog: array<u8>,
                    coreHeader: PeHeader, coreBytes: array<u8>, coreLog: array<u8>,
                    ghost afterBfv: seq<Descriptor>)
    returns (reached: bool, handoff: Handoff, ghost tr: LoadTrace)
    requires table.Valid() && table.NoDesc + 4 <= table.Desc.Length
    requires table.Contents() == afterBfv && PlacedTable(afterBfv) && Exclusive(afterBfv)
    requires Loadable(iplHeader, iplBytes, iplLog) && Loadable(coreHeader, coreBytes, coreLog)
    requires {iplBytes, iplLog} !! {coreBytes, coreLog}
    modifies table`NoDesc, table.Desc, iplBytes, iplLog, coreBytes, coreLog
    ensures table.Valid()
    ensures LoadsRun(iplHeader, coreHeader, old(iplBytes[..]), old(coreBytes[..]), afterBfv, tr, reached)
    ensures reached ==> ImagesLoaded(iplHeader, coreHeader, afterBfv, tr, handoff) && tr.afterCore == table.Contents()
  {
    ghost var coreLoaded := coreBytes[..];
    handoff := Handoff(0, 0, 0, 0, 0, 0, 0);
    reached := false;
    var DxeIplImage := new LoadedImage();
    var status, ipl, iplFixups, iplMiddle := LoadPeImage(table, DxeIplImage, iplHeader, iplBytes, iplLog);
    ghost var afterIpl := table.Contents();
    tr := LoadTrace([], 0, afterBfv, iplMiddle, afterIpl, [], [], ipl, iplFixups, 0, 0);
    if status != Success {
      return;
    }
    ImageKeepsExclusive(iplHeader, afterBfv, iplMiddle, afterIpl, ipl, iplFixups, DxeIplImage.ImageBasePage);
    assert coreBytes[..] == coreLoaded;

    var DxeCoreImage := new LoadedImage();
    var status', core, coreFixups, coreMiddle := LoadPeImage(table, DxeCoreImage, coreHeader, coreBytes, coreLog);
    tr := LoadTrace([], 0, afterBfv, iplMiddle, afterIpl, coreMiddle, table.Contents(), ipl, iplFixups, core, coreFixups);
    if status' != Success {
      return;
    }
    if DxeIplImage.EntryPoint != 0 {
      handoff := Handoff(
        0, 0,
        DxeIplImage.ImageBasePage, BytesOfPages(DxeIplImage.NoPages),
        DxeCoreImage.ImageBasePage, BytesOfPages(DxeCoreImage.NoPages),
        DxeCoreImage.EntryPoint);
      reached := true;
    }
  }

  /** EfiLoader: `reached` is false when the loader hangs the system. The decompressed images are
      given as the buffers they are loaded into. */
  method EfiLoader(table: DescriptorTable, es: seq<BiosEntry>, DestinationSize: u32,
                   iplHeader: PeHeader, iplBytes: array<u8>, iplLog: array<u8>,
                   coreHeader: PeHeader, coreBytes: array<u8>, coreLog: array<u8>)
    returns (reached: bool, handoff: Handoff, ghost tr: LoadTrace)
    requires table.Valid() && table.NoDesc == 0
    requires |AddAll([], Regions(es))| + 5 <= table.Desc.Length
    requires WellFormed(es) && AllReach(es)
    requires Loadable(iplHeader, iplBytes, iplLog) && Loadable(coreHeader, coreBytes, coreLog)
    requires {iplBytes, iplLog} !! {coreBytes, coreLog}
    modifies table`NoDesc, table.Desc, iplBytes, iplLog, coreBytes, coreLog
    ensures table.Valid()
    ensures LoaderRun(es, SizeToPages(DestinationSize), iplHeader, coreHeader, old(iplBytes[..]), old(coreBytes[..]), tr,
                      reached)
    ensures reached ==> Loaded(es, SizeToPages(DestinationSize), iplHeader, coreHeader, tr, handoff)
    ensures reached ==> tr.afterCore == table.Contents()
  {
    ghost var iplLoaded, coreLoaded := iplBytes[..], coreBytes[..];
    handoff := Handoff(0, 0, 0, 0, 0, 0, 0);
    reached := false;
    GenMemoryMap(table, es);
    FirstTable(es);
    ghost var first := table.Contents();
    var BfvPageNumber := SizeToPages(DestinationSize);
    var BfvBase := table.FindSpace(BfvPageNumber, EfiRuntimeServicesData, EFI_MEMORY_WB);
    ghost var afterBfv := table.Contents();
    tr := LoadTrace(first, BfvBase, afterBfv, [], [], [], [], 0, 0, 0, 0);
    if BfvBase != 0 {
      AllocationKeepsExclusive(first, BfvPageNumber, EfiRuntimeServicesData, EFI_MEMORY_WB, afterBfv, BfvBase);
      assert iplBytes[..] == iplLoaded && coreBytes[..] == coreLoaded;
      reached, handoff, tr := LoadImages(table, iplHeader, iplBytes, iplLog, coreHeader, coreBytes, coreLog, afterBfv);
      handoff := handoff.(BfvBase := BfvBase, BfvSize := BytesOfPages(BfvPageNumber));
      tr := tr.(first := first, bfv := BfvBase, afterBfv := afterBfv);
    }
  }
}
