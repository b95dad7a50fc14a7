/** The loader's table of memory descriptors: carving a region out of it and
    allocating pages from it (DuetPkg/EfiLdr/Support.c). */
module MemoryMap {
  import opened Words

  // EFI_MEMORY_TYPE, in the order of section 6.2 of UEFI 2.4
  type MemoryType = nat
  const EfiReservedMemoryType: MemoryType := 0
  const EfiRuntimeServicesCode: MemoryType := 5
  const EfiRuntimeServicesData: MemoryType := 6
  const EfiConventionalMemory: MemoryType := 7
  const EfiACPIReclaimMemory: MemoryType := 9
  const EfiACPIMemoryNVS: MemoryType := 10

  const EFI_MEMORY_UC: u64 := 1
  const EFI_MEMORY_WB: u64 := 8

  const ONE_MB: int := 0x10_0000
  const FOUR_GB: int := 0x1_0000_0000

  /** EFI_MEMORY_DESCRIPTOR */
  datatype Descriptor = Descriptor(
    Type: MemoryType,
    PhysicalStart: u64,
    VirtualStart: u64,
    NumberOfPages: u64,
    Attribute: u64)

  /** The arguments of one EfiAddMemoryDescriptor call. */
  datatype Region = Region(Type: MemoryType, BaseAddress: u64, NoPages: u64, Attribute: u64)

  function AsDescriptor(r: Region): Descriptor {
    Descriptor(r.Type, r.BaseAddress, 0, r.NoPages, r.Attribute)
  }

  function IsConventional(d: Descriptor): (b: bool) { d.Type == EfiConventionalMemory }

  predicate IsRuntime(t: MemoryType) { t == EfiRuntimeServicesCode || t == EfiRuntimeServicesData }

  // ---------------------------------------------------------------------
  // EfiAddMemoryDescriptor
  // ---------------------------------------------------------------------

  /** One round of the carving loop: the new table, and whether the call is over. */
  function CarveAt(s: seq<Descriptor>, i: nat, r: Region): (res: (seq<Descriptor>, bool))
    requires i < |s|
    ensures |s| <= |res.0| <= |s| + 1
    ensures forall j :: 0 <= j < |s| && j != i ==> res.0[j] == s[j]
  {
    var d := s[i];
    if !IsConventional(d) then (s, false)
    else
      var temp := Add64(Sub64(r.BaseAddress, d.PhysicalStart) / PAGE_SIZE, r.NoPages);
      var s1 :=
        if d.PhysicalStart < r.BaseAddress && d.NumberOfPages >= temp then
          (s + if d.NumberOfPages > temp then
             [Descriptor(EfiConventionalMemory, Add64(r.BaseAddress, PagesToBytes(r.NoPages)), 0,
                         d.NumberOfPages - temp, d.Attribute)]
           else [])[i := d.(NumberOfPages := Sub64(temp, r.NoPages))]
        else s;
      var d1 := s1[i];
      if d1.PhysicalStart == r.BaseAddress && d1.NumberOfPages == r.NoPages then
        (s1[i := d1.(Type := r.Type, Attribute := r.Attribute)], true)
      else if d1.PhysicalStart == r.BaseAddress && d1.NumberOfPages > r.NoPages then
        (s1[i := d1.(NumberOfPages := d1.NumberOfPages - r.NoPages,
                     PhysicalStart := Add64(d1.PhysicalStart, PagesToBytes(r.NoPages)))], false)
      else (s1, false)
  }

  /** The carving loop from index i up to the entry count on entry, and the append that follows it. */
  function AddFrom(s: seq<Descriptor>, i: nat, limit: nat, r: Region): (t: seq<Descriptor>)
    requires i <= limit <= |s|
    ensures |s| <= |t|
    decreases limit - i
  {
    if i == limit then s + [AsDescriptor(r)]
    else
      var (s1, done) := CarveAt(s, i, r);
      if done then s1 else AddFrom(s1, i + 1, limit, r)
  }

  /** The table EfiAddMemoryDescriptor leaves. */
  function AddDescriptor(s: seq<Descriptor>, r: Region): (t: seq<Descriptor>)
    ensures |s| <= |t|
  {
    if r.NoPages == 0 then s else AddFrom(s, 0, |s|, r)
  }

  // ---------------------------------------------------------------------
  // FindSpace
  // ---------------------------------------------------------------------

  /** The first address past the descriptor, in 64-bit arithmetic. */
  function End64(d: Descriptor): u64 { Add64(d.PhysicalStart, PagesToBytes(d.NumberOfPages)) }

  /** A descriptor FindSpace may allocate n pages from. */
  predicate Eligible(d: Descriptor, n: nat) {
    && ONE_MB < End64(d) <= FOUR_GB
    && IsConventional(d)
    && d.NumberOfPages >= n
    && d.PhysicalStart > 0
  }

  /** FindSpace looks at no entry behind a runtime-services descriptor reaching above 1 MB. */
  predicate EndsScan(d: Descriptor) { ONE_MB < End64(d) && IsRuntime(d.Type) }

  /** The number of entries FindSpace looks at. */
  function Horizon(s: seq<Descriptor>): (h: nat)
    ensures h <= |s|
    ensures forall j :: 0 <= j < h ==> !EndsScan(s[j])
    ensures h < |s| ==> EndsScan(s[h])
  {
    if s == [] || EndsScan(s[0]) then 0 else 1 + Horizon(s[1..])
  }

  /** k is the highest-starting eligible entry among the first h, the first one on a tie. */
  ghost predicate IsPick(s: seq<Descriptor>, n: nat, h: nat, k: nat)
    requires h <= |s|
  {
    && k < h
    && Eligible(s[k], n)
    && (forall j :: 0 <= j < h && Eligible(s[j], n) ==> s[j].PhysicalStart <= s[k].PhysicalStart)
    && (forall j :: 0 <= j < k && Eligible(s[j], n) ==> s[j].PhysicalStart < s[k].PhysicalStart)
  }

  ghost predicate NoneEligible(s: seq<Descriptor>, n: nat, h: nat)
    requires h <= |s|
  {
    forall j :: 0 <= j < h ==> !Eligible(s[j], n)
  }

  /** The address and table of an allocation of n pages out of entry k. */
  function TakeTop(s: seq<Descriptor>, k: nat, n: nat, t: MemoryType, attribute: u64): (res: (seq<Descriptor>, u64))
    requires k < |s| && n <= s[k].NumberOfPages
  {
    var d := s[k];
    var base := Add64(d.PhysicalStart, PagesToBytes(d.NumberOfPages - n));
    (if d.NumberOfPages != n then
       s[k := d.(NumberOfPages := d.NumberOfPages - n)] + [Descriptor(t, base, 0, n, attribute)]
     else
       s[k := d.(Type := t, Attribute := attribute)],
     base)
  }

  /** FindSpace relates the old table and the request to the new table and the address returned. */
  ghost predicate FindSpaceResult(s: seq<Descriptor>, n: nat, t: MemoryType, attribute: u64,
                                  s': seq<Descriptor>, base: u64)
  {
    || (NoneEligible(s, n, Horizon(s)) && s' == s && base == 0)
    || (exists k: nat :: IsPick(s, n, Horizon(s), k) && (s', base) == TakeTop(s, k, n, t, attribute))
  }

  /** The scan stops at the first entry that ends it, or at the end of the table. */
  lemma {:induction false} HorizonUnique(s: seq<Descriptor>, h: nat)
    requires h <= |s|
    requires forall j :: 0 <= j < h ==> !EndsScan(s[j])
    requires h < |s| ==> EndsScan(s[h])
    ensures Horizon(s) == h
  {
    if s != [] && !EndsScan(s[0]) {
      HorizonUnique(s[1..], h - 1);
    }
  }

  // ---------------------------------------------------------------------
  // The table itself
  // ---------------------------------------------------------------------

  /** The descriptor array and its entry count, updated in place. */
  class DescriptorTable {
    const Desc: array<Descriptor>
    var NoDesc: nat

    ghost predicate Valid()
      reads this
    {
      NoDesc <= Desc.Length
    }

    ghost function Contents(): seq<Descriptor>
      reads this, Desc
      requires Valid()
    {
      Desc[..NoDesc]
    }

    constructor (capacity: nat, zero: Descriptor)
      ensures Valid() && fresh(Desc) && Desc.Length == capacity && Contents() == []
    {
      Desc := new Descriptor[capacity](_ => zero);
      NoDesc := 0;
    }

    /** The body of the loop of EfiAddMemoryDescriptor: the region is cut out of one entry. `done`
        says that it has become the whole entry. */
    method CarveEntry(Index: nat, r: Region) returns (done: bool)
      requires Valid() && Index < NoDesc && |CarveAt(Contents(), Index, r).0| <= Desc.Length
      modifies this`NoDesc, Desc
      ensures Valid() && old(NoDesc) <= NoDesc
      ensures (Contents(), done) == CarveAt(old(Contents()), Index, r)
    {
      ghost var step := CarveAt(Contents(), Index, r);
      done := false;
      if Desc[Index].Type == EfiConventionalMemory {
        var Temp := Add64(Sub64(r.BaseAddress, Desc[Index].PhysicalStart) / PAGE_SIZE, r.NoPages);
        if Desc[Index].PhysicalStart < r.BaseAddress && Desc[Index].NumberOfPages >= Temp {
          if Desc[Index].NumberOfPages > Temp {
            Desc[NoDesc] := Descriptor(
              EfiConventionalMemory, Add64(r.BaseAddress, PagesToBytes(r.NoPages)), 0,
              Desc[Index].NumberOfPages - Temp, Desc[Index].Attribute);
            NoDesc := NoDesc + 1;
          }
          Desc[Index] := Desc[Index].(NumberOfPages := Sub64(Temp, r.NoPages));
        }
        if Desc[Index].PhysicalStart == r.BaseAddress && Desc[Index].NumberOfPages == r.NoPages {
          Desc[Index] := Desc[Index].(Type := r.Type, Attribute := r.Attribute);
          done := true;
        } else if Desc[Index].PhysicalStart == r.BaseAddress && Desc[Index].NumberOfPages > r.NoPages {
          Desc[Index] := Desc[Index].(
            NumberOfPages := Desc[Index].NumberOfPages - r.NoPages,
            PhysicalStart := Add64(Desc[Index].PhysicalStart, PagesToBytes(r.NoPages)));
        }
      }
      assert Contents() == step.0;
    }

    /** EfiAddMemoryDescriptor. The source does not check the capacity of the array. */
    method Add(r: Region)
      requires Valid()
      requires |AddDescriptor(Contents(), r)| <= Desc.Length
      modifies this`NoDesc, Desc
      ensures Valid()
      ensures Contents() == AddDescriptor(old(Contents()), r)
    {
      if r.NoPages == 0 {
        return;
      }
      var NumberOfDesc := NoDesc;
      ghost var result := AddDescriptor(Contents(), r);
      var Index := 0;
      while Index < NumberOfDesc
        invariant Valid()
        invariant Index <= NumberOfDesc <= NoDesc
        invariant AddFrom(Contents(), Index, NumberOfDesc, r) == result
      {
        var done := CarveEntry(Index, r);
        if done {
          return;
        }
        Index := Index + 1;
      }
      Desc[NoDesc] := AsDescriptor(r);
      NoDesc := NoDesc + 1;
    }

    /** The search loop of FindSpace: the start, size and index of the entry to allocate from;
        a start of zero says there is none. */
    method HighestEligible(NoPages: nat)
      returns (MaxPhysicalStart: u64, MaxNoPages: u64, Current: nat)
      requires Valid()
      ensures MaxPhysicalStart == 0 ==> NoneEligible(Contents(), NoPages, Horizon(Contents()))
      ensures MaxPhysicalStart != 0 ==>
                && IsPick(Contents(), NoPages, Horizon(Contents()), Current)
                && Contents()[Current].PhysicalStart == MaxPhysicalStart
                && Contents()[Current].NumberOfPages == MaxNoPages
    {
      MaxPhysicalStart, MaxNoPages, Current := 0, 0, 0;
      var Index := 0;
      ghost var s := Contents();
      while Index < NoDesc
        invariant Index <= NoDesc
        invariant forall j :: 0 <= j < Index ==> !EndsScan(s[j])
        invariant MaxPhysicalStart == 0 ==> NoneEligible(s, NoPages, Index)
        invariant MaxPhysicalStart != 0 ==>
                    && IsPick(s, NoPages, Index, Current)
                    && s[Current].PhysicalStart == MaxPhysicalStart
                    && s[Current].NumberOfPages == MaxNoPages
      {
        assert Desc[Index] == s[Index];
        if End64(Desc[Index]) <= ONE_MB {
          Index := Index + 1;
          continue;
        }
        if Desc[Index].Type == EfiConventionalMemory && Desc[Index].NumberOfPages >= NoPages {
          if Desc[Index].PhysicalStart > MaxPhysicalStart {
            if End64(Desc[Index]) <= FOUR_GB {
              MaxPhysicalStart := Desc[Index].PhysicalStart;
              MaxNoPages := Desc[Index].NumberOfPages;
              Current := Index;
            }
          }
        }
        if Desc[Index].Type == EfiReservedMemoryType || Desc[Index].Type >= EfiACPIReclaimMemory {
          Index := Index + 1;
          continue;
        }
        if Desc[Index].Type == EfiRuntimeServicesCode || Desc[Index].Type == EfiRuntimeServicesData {
          break;
        }
        Index := Index + 1;
      }
      HorizonUnique(s, Index);
    }

    /** FindSpace. The source does not check the capacity of the array. */
    method FindSpace(NoPages: nat, Type: MemoryType, Attribute: u64) returns (base: u64)
      requires Valid() && NoDesc < Desc.Length
      modifies this`NoDesc, Desc
      ensures Valid()
      ensures NoDesc <= old(NoDesc) + 1
      ensures FindSpaceResult(old(Contents()), NoPages, Type, Attribute, Contents(), base)
    {
      var MaxPhysicalStart, MaxNoPages, Current := HighestEligible(NoPages);
      if MaxPhysicalStart == 0 {
        return 0;
      }
      ghost var s := Contents();
      base := Add64(MaxPhysicalStart, PagesToBytes(MaxNoPages - NoPages));
      if MaxNoPages != NoPages {
        Desc[Current] := Desc[Current].(NumberOfPages := MaxNoPages - NoPages);
        Desc[NoDesc] := Descriptor(Type, base, 0, NoPages, Attribute);
        NoDesc := NoDesc + 1;
      } else {
        Desc[Current] := Desc[Current].(Type := Type, Attribute := Attribute);
      }
      assert Contents() == TakeTop(s, Current, NoPages, Type, Attribute).0;
    }
  }
}
