/** The hand-off blocks the DXE initial program loader derives from the descriptor table
    (DuetPkg/DxeIpl/HobGeneration.c), for the 64-bit build. */
module HobGeneration {
  import opened Words
  import opened MemoryMap
  import opened PageViews

  /** Base and length of a resource, an allocation or a firmware volume. */
  datatype Range = Range(Start: u64, Length: u64)

  const EFI_MEMORY_BELOW_1MB_START: u64 := 0x8_6000
  const EFI_MEMORY_BELOW_1MB_END: u64 := 0x9_F800
  const STACK_SIZE: u64 := 0x20 * PAGE_SIZE
  const CONSUMED_MEMORY: u64 := 0x10_0000 * 80

  // DuetPkg/Include/FlashLayout.h; the header length is that of a firmware volume header with
  // one block map entry, plus the closing block map entry
  const FV_BLOCK_SIZE: nat := 0x1_0000
  const NV_HEADER_LENGTH: nat := 64 + 8
  const NV_STORAGE_SIZE: nat := 0x4000
  const NV_FTW_WORKING_SIZE: nat := 0x2000
  const NV_FTW_SPARE_SIZE: nat := 0x1_0000
  const NV_STORAGE_FVB_SIZE: nat := BlockCeiling(NV_STORAGE_SIZE + NV_HEADER_LENGTH)
  const NV_FTW_FVB_SIZE: nat := BlockCeiling(NV_FTW_WORKING_SIZE + NV_FTW_SPARE_SIZE + NV_HEADER_LENGTH)

  function BlockCeiling(x: nat): nat { (x + FV_BLOCK_SIZE - 1) / FV_BLOCK_SIZE * FV_BLOCK_SIZE }

  const MEMORY_DESCRIPTOR_SIZE: nat := 40

  // ---------------------------------------------------------------------
  // PrepareHobMemory
  // ---------------------------------------------------------------------

  /** The scan of PrepareHobMemory stops at a runtime-services descriptor at or above 1 MB. */
  predicate EndsHobScan(d: Descriptor) { d.PhysicalStart >= ONE_MB && IsRuntime(d.Type) }

  function HobHorizon(s: seq<Descriptor>): (h: nat)
    ensures h <= |s|
    ensures forall j :: 0 <= j < h ==> !EndsHobScan(s[j])
    ensures h < |s| ==> EndsHobScan(s[h])
  {
    if s == [] || EndsHobScan(s[0]) then 0 else 1 + HobHorizon(s[1..])
  }

  lemma {:induction false} HobHorizonUnique(s: seq<Descriptor>, h: nat)
    requires h <= |s|
    requires forall j :: 0 <= j < h ==> !EndsHobScan(s[j])
    requires h < |s| ==> EndsHobScan(s[h])
    ensures HobHorizon(s) == h
  {
    if s != [] && !EndsHobScan(s[0]) {
      HobHorizonUnique(s[1..], h - 1);
    }
  }

  function Bytes(d: Descriptor): u64 { PagesToBytes(d.NumberOfPages) }

  function RangeEnd(r: Range): u64 { Add64(r.Start, r.Length) }

  /** One descriptor's effect on MemoryAbove1MB. */
  function Absorb1MB(r: Range, d: Descriptor): Range {
    if d.PhysicalStart < ONE_MB || !IsConventional(d) then r
    else if r.Start == 0 then Range(d.PhysicalStart, Bytes(d))
    else if RangeEnd(r) == d.PhysicalStart then Range(r.Start, Add64(r.Length, Bytes(d)))
    else r
  }

  /** One descriptor's effect on MemoryAbove4GB. */
  function Absorb4GB(r: Range, d: Descriptor): Range {
    if d.PhysicalStart < FOUR_GB || !IsConventional(d) then r
    else
      var r1 := if r.Start == 0 then Range(d.PhysicalStart, Bytes(d)) else r;
      if RangeEnd(r1) == d.PhysicalStart then Range(r1.Start, Add64(r1.Length, Bytes(d))) else r1
  }

  function Above1MB(s: seq<Descriptor>, n: nat): Range
    requires n <= |s|
  {
    if n == 0 then Range(0, 0) else Absorb1MB(Above1MB(s, n - 1), s[n - 1])
  }

  function Above4GB(s: seq<Descriptor>, n: nat): Range
    requires n <= |s|
  {
    if n == 0 then Range(0, 0) else Absorb4GB(Above4GB(s, n - 1), s[n - 1])
  }

  /** The range is made of adjoining Conventional descriptors starting at or above `low`,
      taken in table order. */
  ghost predicate Chain(s: seq<Descriptor>, n: nat, ids: seq<nat>, low: nat, r: Range)
    requires n <= |s|
  {
    && |ids| > 0
    && (forall x :: 0 <= x < |ids| ==> ids[x] < n && IsConventional(s[ids[x]]) && s[ids[x]].PhysicalStart >= low)
    && (forall x :: 0 <= x < |ids| - 1 ==> ids[x] < ids[x + 1] && PageEnd(s[ids[x]]) == First(s[ids[x + 1]]))
    && s[ids[0]].PhysicalStart == r.Start
    && PageEnd(s[ids[|ids| - 1]]) * PAGE_SIZE == r.Start + r.Length
  }

  lemma PlacedBytes(d: Descriptor)
    requires Placed(d) && d.PhysicalStart > 0
    ensures Bytes(d) == d.NumberOfPages * PAGE_SIZE
    ensures d.PhysicalStart + Bytes(d) == PageEnd(d) * PAGE_SIZE
  {
  }

  /** Appending an adjoining descriptor to a chain. */
  lemma ChainExtends(s: seq<Descriptor>, n: nat, ids: seq<nat>, low: nat, r: Range)
    requires n < |s| && PlacedTable(s) && Chain(s, n, ids, low, r) && low > 0
    requires IsConventional(s[n]) && s[n].PhysicalStart >= low && RangeEnd(r) == s[n].PhysicalStart
    ensures Chain(s, n + 1, ids + [n], low, Range(r.Start, Add64(r.Length, Bytes(s[n]))))
  {
    PlacedBytes(s[n]);
    var last := s[ids[|ids| - 1]];
    assert Placed(last) && r.Start + r.Length <= TWO_64;
    assert r.Start + r.Length == s[n].PhysicalStart;
    assert PageEnd(last) == First(s[n]);
    assert r.Length + Bytes(s[n]) < TWO_64;
  }

  /** A range that one descriptor starts is a chain of one link. */
  lemma ChainStarts(s: seq<Descriptor>, n: nat, low: nat)
    requires n < |s| && Placed(s[n]) && IsConventional(s[n]) && s[n].PhysicalStart >= low > 0
    ensures Chain(s, n + 1, [n], low, Range(s[n].PhysicalStart, Bytes(s[n])))
  {
    PlacedBytes(s[n]);
  }

  /** MemoryAbove1MB is a chain of Conventional descriptors, whatever the order of the table. */
  lemma {:induction false} Above1MBIsChain(s: seq<Descriptor>, n: nat) returns (ids: seq<nat>)
    requires n <= |s| && PlacedTable(s) && Above1MB(s, n).Start != 0
    ensures Chain(s, n, ids, ONE_MB, Above1MB(s, n))
  {
    var before, d := Above1MB(s, n - 1), s[n - 1];
    if before.Start == 0 {
      ChainStarts(s, n - 1, ONE_MB);
      ids := [n - 1];
    } else {
      ids := Above1MBIsChain(s, n - 1);
      if d.PhysicalStart >= ONE_MB && IsConventional(d) && RangeEnd(before) == d.PhysicalStart {
        ChainExtends(s, n - 1, ids, ONE_MB, before);
        ids := ids + [n - 1];
      }
    }
  }

  /** The second test of the range above 4 GB only matters once the range has been set: right
      after it has been set the test succeeds for an empty descriptor alone, which adds nothing. */
  lemma SecondTest(r: Range, d: Descriptor)
    requires Placed(d) && d.PhysicalStart >= FOUR_GB && IsConventional(d)
    ensures Absorb4GB(r, d) ==
            if r.Start == 0 then Range(d.PhysicalStart, Bytes(d))
            else if RangeEnd(r) == d.PhysicalStart then Range(r.Start, Add64(r.Length, Bytes(d)))
            else r
  {
    PlacedBytes(d);
  }

  /** MemoryAbove4GB is a chain of Conventional descriptors, whatever the order of the table. */
  lemma {:induction false} Above4GBIsChain(s: seq<Descriptor>, n: nat) returns (ids: seq<nat>)
    requires n <= |s| && PlacedTable(s) && Above4GB(s, n).Start != 0
    ensures Chain(s, n, ids, FOUR_GB, Above4GB(s, n))
  {
    var before, d := Above4GB(s, n - 1), s[n - 1];
    if d.PhysicalStart < FOUR_GB || !IsConventional(d) {
      ids := Above4GBIsChain(s, n - 1);
    } else {
      SecondTest(before, d);
      if before.Start == 0 {
        ChainStarts(s, n - 1, FOUR_GB);
        ids := [n - 1];
      } else {
        ids := Above4GBIsChain(s, n - 1);
        if RangeEnd(before) == d.PhysicalStart {
          ChainExtends(s, n - 1, ids, FOUR_GB, before);
          ids := ids + [n - 1];
        }
      }
    }
  }

  /** Every page of a chain is covered by one of its Conventional descriptors. */
  lemma {:induction false} ChainPagesFree(s: seq<Descriptor>, n: nat, ids: seq<nat>, low: nat, r: Range, p: int)
    requires n <= |s| && PlacedTable(s) && Chain(s, n, ids, low, r)
    requires r.Start <= p * PAGE_SIZE < r.Start + r.Length
    ensures exists i :: 0 <= i < n && IsConventional(s[i]) && s[i].PhysicalStart >= low && Covers(s[i], p)
    decreases |ids|
  {
    var last := ids[|ids| - 1];
    if !Covers(s[last], p) {
      assert |ids| > 1 && p < First(s[last]);
      var front := ids[..|ids| - 1];
      var r' := Range(r.Start, s[last].PhysicalStart - r.Start);
      assert s[ids[0]] == s[front[0]];
      ChainStartsLow(s, n, front, low);
      ChainPagesFree(s, n, front, low, r', p);
    }
  }

  /** The descriptors of a chain ascend. */
  lemma {:induction false} ChainStartsLow(s: seq<Descriptor>, n: nat, ids: seq<nat>, low: nat)
    requires n <= |s| && PlacedTable(s) && |ids| > 0
    requires forall x :: 0 <= x < |ids| ==> ids[x] < n
    requires forall x :: 0 <= x < |ids| - 1 ==> PageEnd(s[ids[x]]) == First(s[ids[x + 1]])
    ensures First(s[ids[0]]) <= First(s[ids[|ids| - 1]])
  {
    if |ids| > 1 {
      ChainStartsLow(s, n, ids[..|ids| - 1], low);
      assert PageEnd(s[ids[|ids| - 2]]) == First(s[ids[|ids| - 1]]);
    }
  }

  /** A table sorted by address, whose descriptors do not overlap. */
  ghost predicate Ascending(s: seq<Descriptor>) {
    forall i, j :: 0 <= i < j < |s| ==> PageEnd(s[i]) <= First(s[j])
  }

  /** A Conventional descriptor with pages that starts at or above `low`. */
  ghost predicate Candidate(s: seq<Descriptor>, i: nat, low: nat)
    requires i < |s|
  {
    IsConventional(s[i]) && s[i].PhysicalStart >= low && s[i].NumberOfPages > 0
  }

  /** The range starts at or below descriptor `d`, and `d` lies inside it or behind a gap. */
  ghost predicate InsideOrBehindGap(r: Range, d: Descriptor) {
    && r.Start != 0
    && r.Start <= d.PhysicalStart
    && (PageEnd(d) * PAGE_SIZE <= r.Start + r.Length || r.Start + r.Length < d.PhysicalStart)
  }

  /** On an ascending table MemoryAbove1MB is the whole contiguous run from the first candidate:
      every candidate lies inside it or starts beyond its end, leaving a gap. */
  lemma {:induction false} Above1MBMaximal(s: seq<Descriptor>, n: nat, i: nat)
    requires i < n <= |s| && PlacedTable(s) && Ascending(s) && Candidate(s, i, ONE_MB)
    ensures InsideOrBehindGap(Above1MB(s, n), s[i])
  {
    if i < n - 1 {
      Above1MBMaximal(s, n - 1, i);
    }
    var before := Above1MB(s, n - 1);
    if before.Start != 0 {
      var ids := Above1MBIsChain(s, n - 1);
      ChainEndsBelow(s, n - 1, ids, ONE_MB, before);
    }
    AbsorbsNext(before, s[n - 1], ONE_MB, Absorb1MB(before, s[n - 1]));
  }

  /** The same for MemoryAbove4GB. */
  lemma {:induction false} Above4GBMaximal(s: seq<Descriptor>, n: nat, i: nat)
    requires i < n <= |s| && PlacedTable(s) && Ascending(s) && Candidate(s, i, FOUR_GB)
    ensures InsideOrBehindGap(Above4GB(s, n), s[i])
  {
    if i < n - 1 {
      Above4GBMaximal(s, n - 1, i);
    }
    var before := Above4GB(s, n - 1);
    if before.Start != 0 {
      var ids := Above4GBIsChain(s, n - 1);
      ChainEndsBelow(s, n - 1, ids, FOUR_GB, before);
    }
    AbsorbsNext(before, s[n - 1], FOUR_GB, Absorb4GB(before, s[n - 1]));
  }

  /** What either range becomes when it absorbs a descriptor that starts at or behind its end. */
  lemma AbsorbsNext(r: Range, d: Descriptor, low: nat, r': Range)
    requires Placed(d)
    requires (low == ONE_MB && r' == Absorb1MB(r, d)) || (low == FOUR_GB && r' == Absorb4GB(r, d))
    requires r.Start != 0 ==> RangeEnd(r) == r.Start + r.Length <= d.PhysicalStart
    ensures if !IsConventional(d) || d.PhysicalStart < low then r' == r
            else if r.Start == 0 then
              r'.Start == d.PhysicalStart && r'.Start + r'.Length == PageEnd(d) * PAGE_SIZE
            else if r.Start + r.Length == d.PhysicalStart then
              r'.Start == r.Start && r'.Start + r'.Length == PageEnd(d) * PAGE_SIZE
            else r' == r && r.Start + r.Length < d.PhysicalStart
  {
    if d.PhysicalStart > 0 {
      PlacedBytes(d);
    }
  }

  /** On an ascending table a chain ends at or below the next descriptor. */
  lemma ChainEndsBelow(s: seq<Descriptor>, n: nat, ids: seq<nat>, low: nat, r: Range)
    requires n < |s| && PlacedTable(s) && Ascending(s) && Chain(s, n, ids, low, r)
    ensures r.Start + r.Length <= s[n].PhysicalStart
    ensures RangeEnd(r) == r.Start + r.Length
  {
    var last := ids[|ids| - 1];
    assert PageEnd(s[last]) <= First(s[n]);
    assert Placed(s[n]);
  }

  // ---------------------------------------------------------------------
  // The other steps, as functions of addresses
  // ---------------------------------------------------------------------

  function PageFloor64(x: u64): u64 { x - x % PAGE_SIZE }

  function Power2(n: nat): (r: nat)
    ensures r > 0
  {
    if n == 0 then 1 else 2 * Power2(n - 1)
  }

  function Min(a: nat, b: nat): nat { if a < b then a else b }

  /** The 4 KB pages PreparePageTable of the 64-bit build occupies for an address space of 2^bits
      bytes mapped by 2 MB pages (DuetPkg/DxeIpl/X64/Paging.c); zero when it gives up. */
  function PageTablePages(bits: u8): nat {
    var above2M := (bits - 21) % 0x100;
    var pde := Min(above2M, 9);
    var pdpte := Min(above2M - pde, 9);
    var pml4 := above2M - pde - pdpte;
    if pml4 > 9 then 0 else 1 + Power2(pml4) + Power2(pml4 + pdpte) + 1
  }

  /** It gives up below 2 MB and above 256 TB. Otherwise there is a directory for every started 1 GB, a
      table of directories for every started 512 GB, the table of these, and one page more. */
  lemma PageTableInNumbers(bits: u8)
    ensures PageTablePages(bits) == 0 <==> bits < 21 || bits > 48
    ensures 21 <= bits <= 48 ==>
              PageTablePages(bits)
              == Power2(if bits > 30 then bits - 30 else 0) + Power2(if bits > 39 then bits - 39 else 0) + 2
  {
    var above2M := if bits < 21 then bits + 235 else bits - 21;
    var pdpte, pml4 := if bits > 30 then bits - 30 else 0, if bits > 39 then bits - 39 else 0;
    assert (bits - 21) % 0x100 == above2M;
    if 21 <= bits <= 48 {
      TablesFor(above2M, pdpte, pml4);
    }
  }

  /** The directories behind the bits of an address above 2 MB, and the tables of directories. */
  lemma TablesFor(above2M: nat, directories: nat, tables: nat)
    requires directories == (if above2M > 9 then above2M - 9 else 0) && tables == if above2M > 18 then above2M - 18 else 0
    ensures var pde := Min(above2M, 9); var pdpte := Min(above2M - pde, 9);
            above2M - pde - pdpte == tables && tables + pdpte == directories
  {
  }

  /** The address PreparePageTable returns: the bottom of the table, or null. */
  function PageTableBase(top: u64, bits: u8): u64 {
    if PageTablePages(bits) == 0 then 0 else Sub64(top, PageTablePages(bits) * PAGE_SIZE)
  }

  /** Where the firmware volume holding the variables goes below the top of memory. */
  function NvStorageBase(top: u64): u64 {
    PageFloor64(Sub64(Sub64(top, NV_STORAGE_FVB_SIZE), NV_FTW_FVB_SIZE))
  }

  function MemoryDescriptorBase(top: u64, count: nat): u64 {
    PageFloor64(Sub64(top, count * MEMORY_DESCRIPTOR_SIZE))
  }

  function Truncated(r: Range, top: u64): Range {
    if RangeEnd(r) > top then Range(r.Start, Sub64(top, r.Start)) else r
  }

  function Sum(words: seq<u16>): nat {
    if words == [] then 0 else Sum(words[..|words| - 1]) + words[|words| - 1]
  }

  /** The 16-bit sum of the words of a firmware volume header. */
  function Sum16(words: seq<u16>): u16 { Sum(words) % TWO_16 }

  // ---------------------------------------------------------------------
  // The hand-off block list
  // ---------------------------------------------------------------------

  /** The fields of HOB_TEMPLATE that the steps below compute. */
  class Hob {
    var Bfv: Range
    var BfvResource: Range
    var SizeOfMemorySpace: u8
    var Stack: Range
    var MemoryAllocation: Range
    var MemoryFreeUnder1MB: Range
    var MemoryAbove1MB: Range
    var MemoryAbove4GB: Range
    var MemoryAbove4GBUnused: bool
    var DxeCore: Range
    var DxeCoreEntryPoint: u64
    var MemoryDxeCore: Range
    var MemDescCount: nat
    var MemDesc: u64
    var NvStorageFvResource: Range
    var NvStorageFvb: u64
    var NvStorage: u64
    var NvFtwFvResource: Range
    var NvFtwFvb: u64
    var NvFtwWorking: u64
    var NvFtwSpare: u64
    var EfiMemoryTop: u64
    var EfiMemoryBottom: u64
    var EfiFreeMemoryTop: u64

    /** gHobTemplate: the lengths that are not fixed later. */
    constructor ()
      ensures NvStorageFvResource == Range(0, NV_STORAGE_FVB_SIZE)
      ensures NvFtwFvResource == Range(0, NV_FTW_FVB_SIZE)
    {
      var none := Range(0, 0);
      Bfv, BfvResource, Stack, MemoryAllocation := none, none, none, none;
      MemoryFreeUnder1MB, MemoryAbove1MB, MemoryAbove4GB := none, none, none;
      DxeCore, MemoryDxeCore := none, none;
      NvStorageFvResource := Range(0, NV_STORAGE_FVB_SIZE);
      NvFtwFvResource := Range(0, NV_FTW_FVB_SIZE);
      SizeOfMemorySpace := 52;
      MemoryAbove4GBUnused := false;
    }

    method PrepareHobBfv(Base: u64, Length: u64)
      modifies this`Bfv, this`BfvResource
      ensures Bfv == BfvResource == Range(Base, Length)
    {
      Bfv := Range(Base, Length);
      BfvResource := Range(Bfv.Start, Bfv.Length);
    }

    /** PrepareHobMemory: the scan over the loader's descriptor table. */
    method PrepareHobMemory(table: DescriptorTable) returns (top: u64)
      requires table.Valid()
      modifies this`MemoryFreeUnder1MB, this`MemoryAbove1MB, this`MemoryAbove4GB, this`MemoryAbove4GBUnused
      ensures MemoryFreeUnder1MB == Range(0x8_6000, 0x9_F800 - 0x8_6000)
      ensures MemoryAbove1MB == Above1MB(table.Contents(), HobHorizon(table.Contents()))
      ensures MemoryAbove4GB == Above4GB(table.Contents(), HobHorizon(table.Contents()))
      ensures MemoryAbove4GBUnused == (old(MemoryAbove4GBUnused) || MemoryAbove4GB.Length == 0)
      ensures top == RangeEnd(MemoryAbove1MB)
    {
      MemoryFreeUnder1MB := Range(EFI_MEMORY_BELOW_1MB_START, EFI_MEMORY_BELOW_1MB_END - EFI_MEMORY_BELOW_1MB_START);
      MemoryAbove1MB := Range(0, 0);
      MemoryAbove4GB := Range(0, 0);
      ghost var s := table.Contents();
      var Index := 0;
      while Index < table.NoDesc
        invariant Index <= table.NoDesc
        invariant forall j :: 0 <= j < Index ==> !EndsHobScan(s[j])
        invariant MemoryAbove1MB == Above1MB(s, Index)
        invariant MemoryAbove4GB == Above4GB(s, Index)
        modifies this`MemoryAbove1MB, this`MemoryAbove4GB
      {
        var d := table.Desc[Index];
        assert d == s[Index];
        if d.PhysicalStart < ONE_MB {
          Index := Index + 1;
          continue;
        }
        if d.Type == EfiConventionalMemory {
          if MemoryAbove1MB.Start == 0 {
            MemoryAbove1MB := Range(d.PhysicalStart, PagesToBytes(d.NumberOfPages));
          } else if Add64(MemoryAbove1MB.Start, MemoryAbove1MB.Length) == d.PhysicalStart {
            MemoryAbove1MB := Range(MemoryAbove1MB.Start, Add64(MemoryAbove1MB.Length, PagesToBytes(d.NumberOfPages)));
          }
        }
        if d.Type == EfiReservedMemoryType || d.Type >= EfiACPIReclaimMemory {
          Index := Index + 1;
          continue;
        }
        if d.Type == EfiRuntimeServicesCode || d.Type == EfiRuntimeServicesData {
          break;
        }
        if d.PhysicalStart >= FOUR_GB {
          if d.Type == EfiConventionalMemory {
            if MemoryAbove4GB.Start == 0 {
              MemoryAbove4GB := Range(d.PhysicalStart, PagesToBytes(d.NumberOfPages));
            }
            if Add64(MemoryAbove4GB.Start, MemoryAbove4GB.Length) == d.PhysicalStart {
              MemoryAbove4GB := Range(MemoryAbove4GB.Start, Add64(MemoryAbove4GB.Length, PagesToBytes(d.NumberOfPages)));
            }
          }
        }
        Index := Index + 1;
      }
      HobHorizonUnique(s, Index);
      if MemoryAbove4GB.Length == 0 {
        MemoryAbove4GBUnused := true;
      }
      top := Add64(MemoryAbove1MB.Start, MemoryAbove1MB.Length);
    }

    /** The address part of PrepareHobNvStorage. */
    method PrepareHobNvStorage(NvStorageTop: u64) returns (base: u64)
      modifies this`NvStorageFvResource, this`NvStorageFvb, this`NvStorage, this`NvFtwFvResource, this`NvFtwFvb,
               this`NvFtwWorking, this`NvFtwSpare
      ensures base == NvStorageBase(NvStorageTop) == NvStorageFvb
      ensures NvStorageFvResource == Range(base, old(NvStorageFvResource.Length))
      ensures NvStorage == Add64(base, 72)
      ensures NvFtwFvb == Add64(base, 0x1_0000)
      ensures NvFtwFvResource == Range(NvFtwFvb, old(NvFtwFvResource.Length))
      ensures NvFtwWorking == Add64(NvFtwFvb, 72)
      ensures NvFtwSpare == Add64(NvFtwFvb, 72 + 0x2000)
    {
      base := PageFloor64(Sub64(Sub64(NvStorageTop, NV_STORAGE_FVB_SIZE), NV_FTW_FVB_SIZE));
      NvStorageFvb := base;
      NvStorageFvResource := NvStorageFvResource.(Start := NvStorageFvb);
      NvStorage := Add64(base, NV_HEADER_LENGTH);
      var FtwFvbBase := Add64(base, NV_STORAGE_FVB_SIZE);
      NvFtwFvb := FtwFvbBase;
      NvFtwFvResource := NvFtwFvResource.(Start := NvFtwFvb);
      NvFtwWorking := Add64(FtwFvbBase, NV_HEADER_LENGTH);
      NvFtwSpare := Add64(FtwFvbBase, NV_HEADER_LENGTH + NV_FTW_WORKING_SIZE);
    }

    method PrepareHobStack(StackTop: u64) returns (bottom: u64)
      modifies this`Stack
      ensures Stack == Range(bottom, 0x2_0000) && bottom == Sub64(StackTop, 0x2_0000)
    {
      Stack := Range(Sub64(StackTop, STACK_SIZE), STACK_SIZE);
      bottom := Stack.Start;
    }

    method PrepareHobMemoryDescriptor(MemoryDescriptorTop: u64, Count: nat) returns (base: u64)
      modifies this`MemDescCount, this`MemDesc
      ensures MemDescCount == Count
      ensures base == MemDesc == MemoryDescriptorBase(MemoryDescriptorTop, Count)
      ensures Count * 40 <= MemoryDescriptorTop ==>
                base % 0x1000 == 0 && base <= MemoryDescriptorTop - Count * 40 < base + 0x1000
    {
      MemDescCount := Count;
      MemDesc := Sub64(MemoryDescriptorTop, Count * MEMORY_DESCRIPTOR_SIZE);
      MemDesc := MemDesc - MemDesc % PAGE_SIZE;
      base := MemDesc;
    }

    method PrepareHobPhit(MemoryTop: u64, FreeMemoryTop: u64)
      modifies this`EfiMemoryTop, this`EfiMemoryBottom, this`EfiFreeMemoryTop
      ensures EfiMemoryTop == MemoryTop
      ensures EfiMemoryBottom == Sub64(MemoryTop, 0x500_0000)
      ensures EfiFreeMemoryTop == FreeMemoryTop
    {
      EfiMemoryTop := MemoryTop;
      EfiMemoryBottom := Sub64(EfiMemoryTop, CONSUMED_MEMORY);
      EfiFreeMemoryTop := FreeMemoryTop;
    }

    method PrepareHobDxeCore(EntryPoint: u64, ImageBase: u64, Length: u64)
      modifies this`DxeCore, this`DxeCoreEntryPoint, this`MemoryDxeCore
      ensures DxeCore == MemoryDxeCore == Range(ImageBase, Length)
      ensures DxeCoreEntryPoint == EntryPoint
    {
      DxeCore := Range(ImageBase, Length);
      DxeCoreEntryPoint := EntryPoint;
      MemoryDxeCore := Range(ImageBase, Length);
    }

    method CompleteHobGeneration()
      modifies this`MemoryAllocation, this`MemoryAbove1MB
      ensures MemoryAllocation == Range(EfiFreeMemoryTop, Sub64(Stack.Start, EfiFreeMemoryTop))
      ensures MemoryAbove1MB == Truncated(old(MemoryAbove1MB), EfiMemoryTop)
    {
      MemoryAllocation := Range(EfiFreeMemoryTop, Sub64(Stack.Start, EfiFreeMemoryTop));
      if Add64(MemoryAbove1MB.Start, MemoryAbove1MB.Length) > EfiMemoryTop {
        MemoryAbove1MB := Range(MemoryAbove1MB.Start, Sub64(EfiMemoryTop, MemoryAbove1MB.Start));
      }
    }
  }

  // ---------------------------------------------------------------------
  // The volume header checksum
  // ---------------------------------------------------------------------

  lemma {:induction false} SumUpdate(words: seq<u16>, k: nat, v: u16)
    requires k < |words|
    ensures Sum(words[k := v]) == Sum(words) + v - words[k]
  {
    var n := |words| - 1;
    if k == n {
      assert words[k := v][..n] == words[..n];
    } else {
      assert words[k := v][..n] == words[..n][k := v];
      SumUpdate(words[..n], k, v);
    }
  }

  /** The checksum loop of PrepareHobNvStorage, over the words of the header. */
  method FixHeaderChecksum(header: array<u16>, ChecksumField: nat)
    requires ChecksumField < header.Length
    modifies header
    ensures header[..] == old(header[..])[ChecksumField := (TWO_16 - Sum16(old(header[..]))) % TWO_16]
  {
    var Checksum: u16 := 0;
    var i := 0;
    while i < header.Length
      invariant i <= header.Length
      invariant Checksum == Sum16(header[..i])
    {
      assert header[..i + 1][..i] == header[..i];
      Checksum := (Checksum + header[i]) % TWO_16;
      i := i + 1;
    }
    assert header[..i] == header[..];
    header[ChecksumField] := (TWO_16 - Checksum) % TWO_16;
  }

  /** The header adds up to zero afterwards exactly when its checksum field was zero before: the
      header is static, so a second run of the step would break it. */
  lemma ChecksumIffFieldZero(words: seq<u16>, k: nat)
    requires k < |words|
    ensures Sum16(words[k := (TWO_16 - Sum16(words)) % TWO_16]) == 0 <==> words[k] == 0
  {
    SumUpdate(words, k, (TWO_16 - Sum16(words)) % TWO_16);
  }
}
