/** Which pages GenMemoryMap makes free: the theorems about the loader's first table. */
module FreePages {
  import opened Words
  import opened MemoryMap
  import opened PageViews
  import opened E820

  /** The page lies wholly inside one usable entry. */
  ghost predicate InUsable(es: seq<BiosEntry>, p: int) {
    exists i :: 0 <= i < |es| && Usable(es[i]) && Inside(es[i], p)
  }

  ghost predicate AllReach(es: seq<BiosEntry>) { forall i :: 0 <= i < |es| ==> Reaches(es[i]) }

  /** The first page of a non-usable entry, and the bounds on the page past its end. */
  lemma OtherPages(e: BiosEntry)
    requires !Usable(e) && Fits(e)
    ensures var d := DescriptorOf(e);
            && Placed(d)
            && First(d) == e.BaseAddress / PAGE_SIZE
            && e.BaseAddress + e.Length <= PageEnd(d) * PAGE_SIZE < e.BaseAddress + e.Length + PAGE_SIZE
  {
    RoundsOutward(e, e.BaseAddress);
    var page, offset := e.BaseAddress / PAGE_SIZE, e.BaseAddress % PAGE_SIZE;
    var length := e.Length + offset;
    assert Add64(e.Length, offset) == length;
    assert PagesToBytes(page) == page * PAGE_SIZE;
    assert length % PAGE_SIZE != 0 ==> PagesToBytes(length / PAGE_SIZE + 1) == (length / PAGE_SIZE + 1) * PAGE_SIZE;
  }

  /** The pages of a usable entry are apart from those of any other entry of a disjoint list. */
  lemma RoundedApart(e: BiosEntry, f: BiosEntry)
    requires Fits(e) && Fits(f) && Disjoint(e, f) && Usable(e) && Reaches(e) && Reaches(f)
    ensures Apart(DescriptorOf(e), DescriptorOf(f))
  {
    RoundedPages(e);
    if Usable(f) {
      RoundedPages(f);
    } else {
      OtherPages(f);
    }
  }

  /** The rounded entries that hold at least one page, in the order of the list. */
  function Kept(es: seq<BiosEntry>): seq<Descriptor> {
    if es == [] then []
    else Kept(es[..|es| - 1]) +
         if RegionOf(es[|es| - 1]).NoPages == 0 then [] else [DescriptorOf(es[|es| - 1])]
  }

  /** Position x of the kept table comes from entry Source(es, x). */
  function Source(es: seq<BiosEntry>, x: nat): (i: nat)
    requires x < |Kept(es)|
    ensures i < |es| && Kept(es)[x] == DescriptorOf(es[i]) && RegionOf(es[i]).NoPages > 0
  {
    if x < |Kept(es[..|es| - 1])| then Source(es[..|es| - 1], x) else |es| - 1
  }

  lemma {:induction false} SourceInjective(es: seq<BiosEntry>, x: nat, y: nat)
    requires x < y < |Kept(es)|
    ensures Source(es, x) < Source(es, y)
  {
    if y < |Kept(es[..|es| - 1])| {
      SourceInjective(es[..|es| - 1], x, y);
    }
  }

  lemma {:induction false} KeptHas(es: seq<BiosEntry>, i: nat)
    requires i < |es| && RegionOf(es[i]).NoPages > 0
    ensures DescriptorOf(es[i]) in Kept(es)
  {
    if i < |es| - 1 {
      KeptHas(es[..|es| - 1], i);
    }
  }

  lemma KeptPlaced(es: seq<BiosEntry>)
    requires WellFormed(es) && AllReach(es)
    ensures PlacedTable(Kept(es)) && Exclusive(Kept(es))
  {
    var s := Kept(es);
    forall x | 0 <= x < |s|
      ensures Placed(s[x])
    {
      EntryPlaced(es[Source(es, x)]);
    }
    forall x, y | 0 <= x < |s| && 0 <= y < |s| && x != y && IsConventional(s[x])
      ensures Apart(s[x], s[y])
    {
      if x < y {
        SourceInjective(es, x, y);
      } else {
        SourceInjective(es, y, x);
      }
      RoundedApart(es[Source(es, x)], es[Source(es, y)]);
    }
  }

  lemma EntryPlaced(e: BiosEntry)
    requires Fits(e) && Reaches(e)
    ensures Placed(DescriptorOf(e))
  {
    if Usable(e) {
      RoundedPages(e);
    } else {
      OtherPages(e);
    }
  }

  lemma LastEntryAdded(es: seq<BiosEntry>)
    requires es != []
    ensures var n := |es| - 1;
            AddAll([], Regions(es)) == AddDescriptor(AddAll([], Regions(es[..n])), RegionOf(es[n]))
  {
    RegionsPrefix(es, |es| - 1);
  }

  /** On a disjoint list no entry is ever carved: the table is the list of the rounded entries. */
  lemma {:induction false} DisjointListKept(es: seq<BiosEntry>)
    requires WellFormed(es) && AllReach(es)
    ensures AddAll([], Regions(es)) == Kept(es)
  {
    if es != [] {
      var n := |es| - 1;
      var before, e := es[..n], es[n];
      DisjointListKept(before);
      LastEntryAdded(es);
      if RegionOf(e).NoPages > 0 {
        EntryAppended(es, n);
      }
    }
  }

  lemma EntryAppended(es: seq<BiosEntry>, n: nat)
    requires WellFormed(es) && AllReach(es) && n < |es| && RegionOf(es[n]).NoPages > 0
    ensures AddDescriptor(Kept(es[..n]), RegionOf(es[n])) == Kept(es[..n]) + [DescriptorOf(es[n])]
  {
    var before := es[..n];
    KeptPlaced(before);
    EntryPlaced(es[n]);
    var s, r := Kept(before), RegionOf(es[n]);
    forall k | 0 <= k < |s|
      ensures !Holds(s, k, r)
    {
      if IsConventional(s[k]) {
        RoundedApart(before[Source(before, k)], es[n]);
      }
    }
    AddWithoutHolder(s, r);
  }

  /** Before the ceiling pass a page is free exactly when it lies wholly inside one usable entry. */
  lemma FreeIsUsable(es: seq<BiosEntry>, p: int)
    requires WellFormed(es) && AllReach(es)
    ensures Free(AddAll([], Regions(es)), p) <==> InUsable(es, p)
  {
    DisjointListKept(es);
    var s := Kept(es);
    if x :| 0 <= x < |s| && IsConventional(s[x]) && Covers(s[x], p) {
      var e := es[Source(es, x)];
      RoundsInwardIffReaches(e);
      assert Inside(e, p);
    }
    if i :| 0 <= i < |es| && Usable(es[i]) && Inside(es[i], p) {
      RoundsInwardIffReaches(es[i]);
      assert Covers(DescriptorOf(es[i]), p);
      KeptHas(es, i);
      var x :| 0 <= x < |s| && s[x] == DescriptorOf(es[i]);
      assert IsConventional(s[x]) && Covers(s[x], p);
    }
  }

  /** The number of pages of the address space. */
  const PAGES: nat := TWO_64 / PAGE_SIZE

  /** The free pages of the address space are the usable ones. */
  ghost predicate FreeIsExact(es: seq<BiosEntry>) {
    forall p :: 0 <= p < PAGES ==> (Free(AddAll([], Regions(es)), p) <==> InUsable(es, p))
  }

  /** No descriptor of the table can hold the region of an entry whose length went below zero. */
  lemma {:induction false} UnderflowAppended(s: seq<Descriptor>, i: nat, e: BiosEntry)
    requires i <= |s| && Usable(e) && Fits(e) && !Reaches(e)
    requires forall k :: 0 <= k < |s| ==> Placed(s[k]) && PageEnd(s[k]) < TWO_64 / PAGE_SIZE
    ensures AddFrom(s, i, |s|, RegionOf(e)) == s + [DescriptorOf(e)]
    decreases |s| - i
  {
    if i < |s| {
      Underflow(e);
      UnderflowNotCarved(s, i, e);
      UnderflowAppended(s, i + 1, e);
    }
  }

  lemma UnderflowNotCarved(s: seq<Descriptor>, i: nat, e: BiosEntry)
    requires i < |s| && Usable(e) && Fits(e) && !Reaches(e)
    requires Placed(s[i]) && PageEnd(s[i]) < TWO_64 / PAGE_SIZE
    ensures CarveAt(s, i, RegionOf(e)) == (s, false)
  {
    Underflow(e);
    var d, r := s[i], RegionOf(e);
    if d.PhysicalStart < r.BaseAddress {
      assert Sub64(r.BaseAddress, d.PhysicalStart) == r.BaseAddress - d.PhysicalStart;
    }
  }

  lemma KeptBelowTop(es: seq<BiosEntry>)
    requires WellFormed(es) && AllReach(es)
    ensures forall k :: 0 <= k < |Kept(es)| ==> Placed(Kept(es)[k]) && PageEnd(Kept(es)[k]) < TWO_64 / PAGE_SIZE
  {
    KeptPlaced(es);
    forall k | 0 <= k < |Kept(es)|
      ensures PageEnd(Kept(es)[k]) < TWO_64 / PAGE_SIZE
    {
      EntryBelowTop(es[Source(es, k)]);
    }
  }

  lemma TableBeforeUnderflow(es: seq<BiosEntry>, n: nat) returns (s: seq<Descriptor>)
    requires WellFormed(es) && n < |es| && AllReach(es[..n]) && !Reaches(es[n])
    ensures AddAll([], Regions(es[..n + 1])) == s + [DescriptorOf(es[n])]
  {
    var before, now := es[..n], es[..n + 1];
    DisjointListKept(before);
    s := Kept(before);
    KeptBelowTop(before);
    Underflow(es[n]);
    UnderflowAppended(s, 0, es[n]);
    assert now[..n] == before;
    RegionsPrefix(now, n);
  }

  lemma EntryBelowTop(e: BiosEntry)
    requires Fits(e) && Reaches(e)
    ensures PageEnd(DescriptorOf(e)) < TWO_64 / PAGE_SIZE
  {
    if Usable(e) {
      RoundedPages(e);
    } else {
      OtherPages(e);
    }
  }

  // An entry whose length went below zero makes the last page of the address space free, and no
  // later entry takes that page away.

  /** The descriptor makes the last page of the address space free. */
  predicate HoldsTop(d: Descriptor) {
    IsConventional(d) && d.PhysicalStart % PAGE_SIZE == 0 && d.NumberOfPages < PAGES && First(d) < PAGES <= PageEnd(d)
  }

  ghost predicate TopFree(s: seq<Descriptor>) { exists k :: 0 <= k < |s| && HoldsTop(s[k]) }

  /** The regions that entries give: below the last page, or one short entry's. */
  predicate EntryRegion(r: Region) {
    && r.NoPages > 0
    && r.BaseAddress % PAGE_SIZE == 0
    && (PageEnd(AsDescriptor(r)) < PAGES || (r.NoPages == PAGES - 1 && r.Type == EfiConventionalMemory))
  }

  lemma EntryGivesRegion(e: BiosEntry)
    requires Fits(e) && RegionOf(e).NoPages > 0
    ensures EntryRegion(RegionOf(e))
  {
    if Reaches(e) {
      EntryPlaced(e);
      EntryBelowTop(e);
    } else {
      Underflow(e);
    }
  }

  /** Where the carving arithmetic puts the end of a region, seen from the start of a descriptor. */
  lemma RegionFrom(d: Descriptor, r: Region)
    requires d.PhysicalStart % PAGE_SIZE == 0 && r.BaseAddress % PAGE_SIZE == 0 && d.PhysicalStart < r.BaseAddress
    requires r.NoPages < PAGES
    ensures First(d) < First(AsDescriptor(r))
    ensures Add64(Sub64(r.BaseAddress, d.PhysicalStart) / PAGE_SIZE, r.NoPages) == PageEnd(AsDescriptor(r)) - First(d)
  {
    PagesBetween(d.PhysicalStart, r.BaseAddress);
  }

  /** The place behind a region that ends in the address space. */
  lemma BehindRegion(r: Region)
    requires r.BaseAddress % PAGE_SIZE == 0 && PageEnd(AsDescriptor(r)) < PAGES
    ensures Add64(r.BaseAddress, PagesToBytes(r.NoPages)) == PageEnd(AsDescriptor(r)) * PAGE_SIZE
  {
    assert PagesToBytes(r.NoPages) == r.NoPages * PAGE_SIZE;
  }

  lemma TopBehind(d: Descriptor, end: nat)
    requires IsConventional(d) && d.PhysicalStart == end * PAGE_SIZE && end < PAGES
    requires 0 < d.NumberOfPages < PAGES && end + d.NumberOfPages >= PAGES
    ensures HoldsTop(d)
  {
  }

  /** Carving leaves the last page free. */
  lemma CarveKeepsTop(s: seq<Descriptor>, k: nat, r: Region)
    requires k < |s| && HoldsTop(s[k]) && EntryRegion(r)
    ensures TopFree(CarveAt(s, k, r).0)
  {
    var d, t, end := s[k], CarveAt(s, k, r).0, PageEnd(AsDescriptor(r));
    if d.PhysicalStart < r.BaseAddress {
      RegionFrom(d, r);
      if end < PAGES {
        BehindRegion(r);
        TopBehind(t[|s|], end);
        assert HoldsTop(t[|s|]);
      } else {
        assert HoldsTop(t[k]);
      }
    } else if d.PhysicalStart == r.BaseAddress && end < PAGES {
      BehindRegion(r);
      TopBehind(t[k], end);
      assert HoldsTop(t[k]);
    } else {
      assert HoldsTop(t[k]);
    }
  }

  lemma {:induction false} AddKeepsTop(s: seq<Descriptor>, i: nat, limit: nat, r: Region)
    requires i <= limit <= |s| && TopFree(s) && EntryRegion(r)
    ensures TopFree(AddFrom(s, i, limit, r))
    decreases limit - i
  {
    var k :| 0 <= k < |s| && HoldsTop(s[k]);
    if i == limit {
      assert HoldsTop((s + [AsDescriptor(r)])[k]);
    } else {
      var (t, done) := CarveAt(s, i, r);
      if k == i {
        CarveKeepsTop(s, k, r);
      } else {
        assert HoldsTop(t[k]);
      }
      if !done {
        AddKeepsTop(t, i + 1, limit, r);
      }
    }
  }

  lemma EntryKeepsTop(s: seq<Descriptor>, e: BiosEntry)
    requires TopFree(s) && Fits(e)
    ensures TopFree(AddDescriptor(s, RegionOf(e)))
  {
    if RegionOf(e).NoPages > 0 {
      EntryGivesRegion(e);
      AddKeepsTop(s, 0, |s|, RegionOf(e));
    }
  }

  lemma ShortEntryFreesTop(es: seq<BiosEntry>, n: nat)
    requires WellFormed(es) && n + 1 == |es| && AllReach(es[..n]) && !Reaches(es[n])
    ensures TopFree(AddAll([], Regions(es)))
  {
    var s := TableBeforeUnderflow(es, n);
    ShortHoldsTop(es[n]);
    TopAppended(s, DescriptorOf(es[n]));
    assert es[..n + 1] == es;
  }

  lemma ShortHoldsTop(e: BiosEntry)
    requires Usable(e) && Fits(e) && !Reaches(e)
    ensures HoldsTop(DescriptorOf(e))
  {
    Underflow(e);
  }

  lemma TopAppended(s: seq<Descriptor>, d: Descriptor)
    requires HoldsTop(d)
    ensures TopFree(s + [d])
  {
    assert HoldsTop((s + [d])[|s|]);
  }

  /** With a short entry anywhere in the list, the last page of the address space ends up free. */
  lemma {:induction false} ShortFreesTop(es: seq<BiosEntry>)
    requires WellFormed(es) && !AllReach(es)
    ensures TopFree(AddAll([], Regions(es)))
  {
    var n := |es| - 1;
    if AllReach(es[..n]) {
      ShortEntryFreesTop(es, n);
    } else {
      ShortFreesTop(es[..n]);
      EntryKeepsTop(AddAll([], Regions(es[..n])), es[n]);
      LastEntryAdded(es);
    }
  }

  /** The exact condition for the loader's rounding to be right: for a disjoint list the free pages
      of its table are the usable ones if and only if every misaligned usable entry reaches the next
      page boundary. */
  lemma ExactIffAllReach(es: seq<BiosEntry>)
    requires WellFormed(es)
    ensures FreeIsExact(es) <==> AllReach(es)
  {
    if AllReach(es) {
      forall p | 0 <= p < PAGES
        ensures Free(AddAll([], Regions(es)), p) <==> InUsable(es, p)
      {
        FreeIsUsable(es, p);
      }
    } else {
      ShortFreesTop(es);
      TopNotUsable(es);
      var s := AddAll([], Regions(es));
      var k :| 0 <= k < |s| && HoldsTop(s[k]);
      assert Covers(s[k], PAGES - 1);
      assert Free(s, PAGES - 1);
    }
  }

  lemma TopNotUsable(es: seq<BiosEntry>)
    requires WellFormed(es)
    ensures !InUsable(es, PAGES - 1)
  {
    forall i | 0 <= i < |es|
      ensures !Inside(es[i], PAGES - 1)
    {
      assert Fits(es[i]);
    }
  }

  // ---------------------------------------------------------------------
  // The ceiling
  // ---------------------------------------------------------------------

  /** The ceiling is at or below the page base of every non-usable entry in [1 MB, 4 GB). */
  lemma {:induction false} CeilingIsLowest(es: seq<BiosEntry>, j: nat)
    requires j < |es| && !Usable(es[j]) && ONE_MB <= Rounded(es[j]).0 < FOUR_GB
    ensures CeilingOf(es) <= Rounded(es[j]).0
  {
    if j < |es| - 1 {
      CeilingIsLowest(es[..|es| - 1], j);
    }
  }

  lemma UsableCovers(e: BiosEntry, p: int)
    requires Usable(e) && Fits(e) && Reaches(e)
    ensures Covers(DescriptorOf(e), p) <==> Inside(e, p)
  {
    RoundsInwardIffReaches(e);
  }

  /** The usable entry a free page of the final table comes from. */
  lemma FreeSource(es: seq<BiosEntry>, p: int) returns (i: nat)
    requires WellFormed(es) && AllReach(es) && Free(MemoryMapOf([], es), p)
    ensures i < |es| && Usable(es[i]) && Inside(es[i], p) && !AboveCeiling(DescriptorOf(es[i]), CeilingOf(es))
  {
    DisjointListKept(es);
    var t := MemoryMapOf([], es);
    var x :| 0 <= x < |t| && IsConventional(t[x]) && Covers(t[x], p);
    i := Source(es, x);
    assert t[x] == Lowered(DescriptorOf(es[i]), CeilingOf(es));
    UsableCovers(es[i], p);
  }

  lemma SourceStaysFree(es: seq<BiosEntry>, i: nat, p: int)
    requires WellFormed(es) && AllReach(es)
    requires i < |es| && Usable(es[i]) && Inside(es[i], p) && !AboveCeiling(DescriptorOf(es[i]), CeilingOf(es))
    ensures Free(MemoryMapOf([], es), p)
  {
    DisjointListKept(es);
    UsableCovers(es[i], p);
    KeptHas(es, i);
    var s, t := Kept(es), MemoryMapOf([], es);
    var x :| 0 <= x < |s| && s[x] == DescriptorOf(es[i]);
    assert t[x] == s[x];
  }

  /** The table after GenMemoryMap: exactly the usable pages whose entry starts below the
      ceiling, or outside (1 MB, 4 GB), are free. */
  lemma FreeAfterCeiling(es: seq<BiosEntry>, p: int)
    requires WellFormed(es) && AllReach(es)
    ensures Free(MemoryMapOf([], es), p)
            <==> exists i :: 0 <= i < |es| && Usable(es[i]) && Inside(es[i], p)
                             && !AboveCeiling(DescriptorOf(es[i]), CeilingOf(es))
  {
    if Free(MemoryMapOf([], es), p) {
      var i := FreeSource(es, p);
    }
    if i :| 0 <= i < |es| && Usable(es[i]) && Inside(es[i], p) && !AboveCeiling(DescriptorOf(es[i]), CeilingOf(es)) {
      SourceStaysFree(es, i, p);
    }
  }

  /** No free page holds a byte of a reserved, ACPI or NVS entry. */
  lemma FreeTouchesNoReservedByte(es: seq<BiosEntry>, p: int, j: nat, b: int)
    requires WellFormed(es) && AllReach(es) && Free(MemoryMapOf([], es), p)
    requires j < |es| && !Usable(es[j]) && p * PAGE_SIZE <= b < (p + 1) * PAGE_SIZE
    ensures !(es[j].BaseAddress <= b < es[j].BaseAddress + es[j].Length)
  {
    FreeAfterCeiling(es, p);
    var i :| 0 <= i < |es| && Usable(es[i]) && Inside(es[i], p);
    assert Disjoint(es[i], es[j]);
  }

  /** The loader's table is placed, and its Conventional descriptors overlap no other. */
  lemma MemoryMapExclusive(es: seq<BiosEntry>)
    requires WellFormed(es) && AllReach(es)
    ensures PlacedTable(MemoryMapOf([], es)) && Exclusive(MemoryMapOf([], es))
  {
    DisjointListKept(es);
    KeptPlaced(es);
    var s, t := Kept(es), MemoryMapOf([], es);
    forall x, y | 0 <= x < |t| && 0 <= y < |t| && x != y && IsConventional(t[x])
      ensures Apart(t[x], t[y])
    {
      assert IsConventional(s[x]) && Apart(s[x], s[y]);
    }
  }

  lemma UsableBelow(e: BiosEntry, f: BiosEntry)
    requires Usable(e) && Fits(e) && Reaches(e) && !Usable(f) && Fits(f) && Disjoint(e, f)
    requires DescriptorOf(e).PhysicalStart < Rounded(f).0
    ensures PageEnd(DescriptorOf(e)) * PAGE_SIZE <= Rounded(f).0 == PageFloor(f.BaseAddress)
  {
    RoundedPages(e);
    OtherBase(f);
    BelowFloor(PageEnd(DescriptorOf(e)), First(DescriptorOf(e)), e.BaseAddress, e.BaseAddress + e.Length,
               f.BaseAddress, f.BaseAddress + f.Length);
  }

  lemma OtherBase(f: BiosEntry)
    requires !Usable(f)
    ensures Rounded(f).0 == PageFloor(f.BaseAddress)
  {
    assert PagesToBytes(f.BaseAddress / PAGE_SIZE) == PageFloor(f.BaseAddress);
  }

  lemma BelowFloor(end: nat, first: nat, base: nat, top: nat, other: nat, otherTop: nat)
    requires end * PAGE_SIZE <= top && base <= first * PAGE_SIZE < PageFloor(other) && other <= otherTop
    requires top <= other || otherTop <= base
    ensures end * PAGE_SIZE <= PageFloor(other)
  {
  }

  /** Every Conventional descriptor that starts strictly between 1 MB and 4 GB ends at or below
      the page base of every non-usable entry in [1 MB, 4 GB), the lowest one included. */
  lemma CeilingRespected(es: seq<BiosEntry>, x: nat, j: nat)
    requires WellFormed(es) && AllReach(es)
    requires x < |MemoryMapOf([], es)|
    requires var d := MemoryMapOf([], es)[x]; IsConventional(d) && ONE_MB < d.PhysicalStart < FOUR_GB
    requires j < |es| && !Usable(es[j]) && ONE_MB <= Rounded(es[j]).0 < FOUR_GB
    ensures PageEnd(MemoryMapOf([], es)[x]) * PAGE_SIZE <= Rounded(es[j]).0 == PageFloor(es[j].BaseAddress)
  {
    DisjointListKept(es);
    CeilingIsLowest(es, j);
    var i := Source(es, x);
    var d := DescriptorOf(es[i]);
    assert MemoryMapOf([], es)[x] == Lowered(d, CeilingOf(es));
    assert i != j;
    UsableBelow(es[i], es[j]);
  }
}
