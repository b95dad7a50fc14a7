/** From the BIOS memory list (INT 15h, E820h; section 14.1 of ACPI 2.0) to the descriptor
    table: GenMemoryMap in DuetPkg/EfiLdr/Support.c. */
module E820 {
  import opened Words
  import opened MemoryMap
  import opened PageViews

  /** BIOS_MEMORY_MAP_ENTRY */
  datatype BiosEntry = BiosEntry(BaseAddress: u64, Length: u64, Type: u32)

  const AddressRangeMemory: u32 := 1
  const AddressRangeACPI: u32 := 3
  const AddressRangeNVS: u32 := 4

  predicate Usable(e: BiosEntry) { e.Type == AddressRangeMemory }

  function TypeOf(t: u32): MemoryType {
    if t == AddressRangeMemory then EfiConventionalMemory
    else if t == AddressRangeACPI then EfiACPIReclaimMemory
    else if t == AddressRangeNVS then EfiACPIMemoryNVS
    else EfiReservedMemoryType
  }

  function AttributeOf(t: u32): u64 {
    if t == AddressRangeMemory || t == AddressRangeACPI then EFI_MEMORY_WB else EFI_MEMORY_UC
  }

  /** The base and length the loader rounds an entry to, in unsigned 64-bit arithmetic. */
  function Rounded(e: BiosEntry): (u64, u64) {
    var offset := e.BaseAddress % PAGE_SIZE;
    var page := e.BaseAddress / PAGE_SIZE;
    if Usable(e) then
      if offset != 0 then (PagesToBytes(page + 1), Sub64(Add64(e.Length, offset), PAGE_SIZE))
      else (e.BaseAddress, e.Length)
    else
      var length := Add64(e.Length, offset);
      (PagesToBytes(page), if length % PAGE_SIZE != 0 then PagesToBytes(length / PAGE_SIZE + 1) else length)
  }

  function RegionOf(e: BiosEntry): Region {
    var (base, length) := Rounded(e);
    Region(TypeOf(e.Type), base, length / PAGE_SIZE, AttributeOf(e.Type))
  }

  function DescriptorOf(e: BiosEntry): Descriptor { AsDescriptor(RegionOf(e)) }

  function Regions(es: seq<BiosEntry>): seq<Region> { seq(|es|, i requires 0 <= i < |es| => RegionOf(es[i])) }

  /** The first 4 GB bound, lowered to the base of every non-usable entry between 1 MB and 4 GB. */
  function CeilingOf(es: seq<BiosEntry>): u64 {
    if es == [] then 0xFFFF_FFFF else NextCeiling(CeilingOf(es[..|es| - 1]), es[|es| - 1])
  }

  function NextCeiling(c: u64, e: BiosEntry): u64 {
    var base := Rounded(e).0;
    if !Usable(e) && ONE_MB <= base < FOUR_GB && c > base then base else c
  }

  predicate AboveCeiling(d: Descriptor, ceiling: u64) {
    IsConventional(d) && ONE_MB < d.PhysicalStart < FOUR_GB && d.PhysicalStart >= ceiling
  }

  /** The effect of the ceiling pass on one descriptor. */
  function Lowered(d: Descriptor, ceiling: u64): Descriptor {
    if AboveCeiling(d, ceiling) then d.(Type := EfiReservedMemoryType) else d
  }

  function LoweredAll(s: seq<Descriptor>, ceiling: u64): (t: seq<Descriptor>)
    ensures |t| == |s|
    ensures forall i :: 0 <= i < |s| ==> t[i] == Lowered(s[i], ceiling)
  {
    seq(|s|, i requires 0 <= i < |s| => Lowered(s[i], ceiling))
  }

  /** The table GenMemoryMap leaves when it starts from s. */
  function MemoryMapOf(s: seq<Descriptor>, es: seq<BiosEntry>): seq<Descriptor> {
    LoweredAll(AddAll(s, Regions(es)), CeilingOf(es))
  }

  lemma RegionsPrefix(es: seq<BiosEntry>, n: nat)
    requires n <= |es|
    ensures Regions(es[..n]) == Regions(es)[..n]
  {
  }

  lemma {:induction false} AddAllGrows(s: seq<Descriptor>, rs: seq<Region>, n: nat)
    requires n <= |rs|
    ensures |AddAll(s, rs[..n])| <= |AddAll(s, rs)|
  {
    if n < |rs| {
      AddAllGrows(s, rs[..|rs| - 1], n);
      assert rs[..|rs| - 1][..n] == rs[..n];
    } else {
      assert rs[..n] == rs;
    }
  }

  lemma OneMoreEntry(s: seq<Descriptor>, es: seq<BiosEntry>, n: nat)
    requires n < |es|
    ensures CeilingOf(es[..n + 1]) == NextCeiling(CeilingOf(es[..n]), es[n])
    ensures AddAll(s, Regions(es)[..n + 1]) == AddDescriptor(AddAll(s, Regions(es)[..n]), RegionOf(es[n]))
    ensures |AddAll(s, Regions(es)[..n + 1])| <= |AddAll(s, Regions(es))|
  {
    var rs := Regions(es);
    assert rs[..n + 1][..n] == rs[..n];
    assert es[..n + 1][..n] == es[..n];
    AddAllGrows(s, rs, n + 1);
  }

  /** The rounding of one entry in the first loop of GenMemoryMap. */
  method RoundEntry(e: BiosEntry) returns (BaseAddress: u64, Length: u64)
    ensures (BaseAddress, Length) == Rounded(e)
  {
    BaseAddress, Length := e.BaseAddress, e.Length;
    if TypeOf(e.Type) == EfiConventionalMemory {
      if BaseAddress % PAGE_SIZE != 0 {
        Length := Sub64(Add64(Length, BaseAddress % PAGE_SIZE), PAGE_SIZE);
        BaseAddress := PagesToBytes(BaseAddress / PAGE_SIZE + 1);
      }
    } else {
      Length := Add64(Length, BaseAddress % PAGE_SIZE);
      BaseAddress := PagesToBytes(BaseAddress / PAGE_SIZE);
      if Length % PAGE_SIZE != 0 {
        Length := PagesToBytes(Length / PAGE_SIZE + 1);
      }
    }
  }

  /** The second loop of GenMemoryMap: free memory above the ceiling becomes reserved. */
  method LowerToCeiling(table: DescriptorTable, Ceiling: u64)
    requires table.Valid()
    modifies table.Desc
    ensures table.Valid()
    ensures table.Contents() == LoweredAll(old(table.Contents()), Ceiling)
  {
    ghost var added := table.Contents();
    var Index := 0;
    while Index < table.NoDesc
      invariant Index <= table.NoDesc == |added|
      invariant forall i :: 0 <= i < table.NoDesc ==>
                  table.Desc[i] == if i < Index then Lowered(added[i], Ceiling) else added[i]
    {
      if && table.Desc[Index].Type == EfiConventionalMemory
         && table.Desc[Index].PhysicalStart > ONE_MB
         && table.Desc[Index].PhysicalStart < FOUR_GB
      {
        if table.Desc[Index].PhysicalStart >= Ceiling {
          table.Desc[Index] := table.Desc[Index].(Type := EfiReservedMemoryType);
        }
      }
      Index := Index + 1;
    }
    assert table.Contents() == LoweredAll(added, Ceiling);
  }

  /** GenMemoryMap, on the entries of the BIOS list. */
  method GenMemoryMap(table: DescriptorTable, es: seq<BiosEntry>)
    requires table.Valid()
    requires |AddAll(table.Contents(), Regions(es))| <= table.Desc.Length
    modifies table`NoDesc, table.Desc
    ensures table.Valid()
    ensures table.Contents() == MemoryMapOf(old(table.Contents()), es)
  {
    var Ceiling: u64 := 0xFFFF_FFFF;
    ghost var s := table.Contents();
    var Index := 0;
    while Index < |es|
      invariant Index <= |es|
      invariant table.Valid()
      invariant table.Contents() == AddAll(s, Regions(es)[..Index])
      invariant Ceiling == CeilingOf(es[..Index])
    {
      var BaseAddress, Length := RoundEntry(es[Index]);
      OneMoreEntry(s, es, Index);
      if !Usable(es[Index]) {
        if BaseAddress >= ONE_MB && BaseAddress < FOUR_GB {
          if Ceiling > BaseAddress {
            Ceiling := BaseAddress;
          }
        }
      }
      var region := Region(TypeOf(es[Index].Type), BaseAddress, Length / PAGE_SIZE, AttributeOf(es[Index].Type));
      table.Add(region);
      Index := Index + 1;
    }
    assert Regions(es)[..|es|] == Regions(es) && es[..|es|] == es;
    LowerToCeiling(table, Ceiling);
  }

  // ---------------------------------------------------------------------
  // Rounding
  // ---------------------------------------------------------------------

  /** The entry ends below the last page of the address space. */
  predicate Fits(e: BiosEntry) { e.BaseAddress + e.Length <= TWO_64 - PAGE_SIZE }

  predicate Disjoint(e: BiosEntry, f: BiosEntry) {
    e.BaseAddress + e.Length <= f.BaseAddress || f.BaseAddress + f.Length <= e.BaseAddress
  }

  /** A list of byte-disjoint entries, in any order. */
  ghost predicate WellFormed(es: seq<BiosEntry>) {
    && (forall i :: 0 <= i < |es| ==> Fits(es[i]))
    && (forall i, j :: 0 <= i < |es| && 0 <= j < |es| && i != j ==> Disjoint(es[i], es[j]))
  }

  /** The whole page p lies inside the entry. */
  predicate Inside(e: BiosEntry, p: int) {
    e.BaseAddress <= p * PAGE_SIZE && (p + 1) * PAGE_SIZE <= e.BaseAddress + e.Length
  }

  /** A misaligned usable entry reaches the next page boundary. The loader does not check this,
      and its unsigned length goes below zero when it fails. */
  predicate Reaches(e: BiosEntry) {
    Usable(e) && e.BaseAddress % PAGE_SIZE != 0 ==> e.BaseAddress % PAGE_SIZE + e.Length >= PAGE_SIZE
  }

  /** The pages of a usable entry that reaches a page boundary begin and end less than a page inside it. */
  lemma RoundedPages(e: BiosEntry)
    requires Usable(e) && Fits(e) && Reaches(e)
    ensures var d := DescriptorOf(e);
            && Placed(d)
            && e.BaseAddress <= First(d) * PAGE_SIZE < e.BaseAddress + PAGE_SIZE
            && e.BaseAddress + e.Length - PAGE_SIZE < PageEnd(d) * PAGE_SIZE <= e.BaseAddress + e.Length
  {
    var page, offset := e.BaseAddress / PAGE_SIZE, e.BaseAddress % PAGE_SIZE;
    if offset != 0 {
      assert Add64(e.Length, offset) == e.Length + offset;
      assert PagesToBytes(page + 1) == (page + 1) * PAGE_SIZE;
    }
  }

  /** Pages that begin and end less than a page inside [lo, hi) are those wholly inside it. */
  lemma PagesInside(first: int, end: int, lo: int, hi: int, p: int)
    requires lo <= first * PAGE_SIZE < lo + PAGE_SIZE && hi - PAGE_SIZE < end * PAGE_SIZE <= hi
    ensures first <= p < end <==> lo <= p * PAGE_SIZE && (p + 1) * PAGE_SIZE <= hi
  {
  }

  /** The rounded usable entry covers the pages wholly inside it exactly when it is aligned or
      reaches the next page boundary. */
  lemma RoundsInwardIffReaches(e: BiosEntry)
    requires Usable(e) && Fits(e)
    ensures Reaches(e) <==> forall p :: Covers(DescriptorOf(e), p) <==> Inside(e, p)
  {
    var d := DescriptorOf(e);
    if Reaches(e) {
      forall p
        ensures Covers(d, p) <==> Inside(e, p)
      {
        RoundedPages(e);
        PagesInside(First(d), PageEnd(d), e.BaseAddress, e.BaseAddress + e.Length, p);
      }
    } else {
      Underflow(e);
      assert Covers(d, First(d));
      assert !Inside(e, First(d));
    }
  }

  /** An entry that stays inside one page claims all pages of the address space but one. */
  lemma Underflow(e: BiosEntry)
    requires Usable(e) && Fits(e) && !Reaches(e)
    ensures RegionOf(e).NoPages == TWO_64 / PAGE_SIZE - 1
    ensures RegionOf(e).BaseAddress == (e.BaseAddress / PAGE_SIZE + 1) * PAGE_SIZE
  {
  }

  /** Every byte of a non-usable entry lies in a page the rounded entry covers. */
  lemma RoundsOutward(e: BiosEntry, b: int)
    requires !Usable(e) && Fits(e)
    ensures Placed(DescriptorOf(e))
    ensures First(DescriptorOf(e)) == e.BaseAddress / PAGE_SIZE
    ensures e.BaseAddress <= b < e.BaseAddress + e.Length ==> Covers(DescriptorOf(e), b / PAGE_SIZE)
  {
    var page, offset := e.BaseAddress / PAGE_SIZE, e.BaseAddress % PAGE_SIZE;
    var length := e.Length + offset;
    assert Add64(e.Length, offset) == length;
    assert PagesToBytes(page) == page * PAGE_SIZE;
    var pages := SizeToPages(length);
    assert length % PAGE_SIZE != 0 ==> PagesToBytes(length / PAGE_SIZE + 1) == pages * PAGE_SIZE;
    assert Rounded(e) == (page * PAGE_SIZE, pages * PAGE_SIZE);
  }
}
