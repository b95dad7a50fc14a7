/** The whole table GenMemoryMap leaves, in the numbers of the BIOS list and of EFI_MEMORY_TYPE: which
    types and attributes each page of memory gets. */
module MemoryMarks {
  import opened Words
  import opened MemoryMap
  import opened PageViews
  import opened E820
  import opened FreePages

  /** The pages an entry speaks for: a usable entry (type 1) for the pages wholly inside it, any other
      entry for every page that it touches. */
  predicate SpeaksFor(e: BiosEntry, p: int) {
    if e.Type == 1 then e.BaseAddress <= p * 0x1000 && (p + 1) * 0x1000 <= e.BaseAddress + e.Length
    else p * 0x1000 < e.BaseAddress + e.Length && e.BaseAddress < (p + 1) * 0x1000
  }

  /** The first page boundary in an entry, and the last one before it. */
  function RoundedUp(e: BiosEntry): int { (e.BaseAddress + 0xFFF) / 0x1000 * 0x1000 }

  function RoundedDown(e: BiosEntry): int { e.BaseAddress / 0x1000 * 0x1000 }

  /** The entry holds memory the system does not own, from 1 MB up and below 4 GB. */
  predicate Obstructs(e: BiosEntry) { e.Type != 1 && 0x10_0000 <= RoundedDown(e) < 0x1_0000_0000 }

  /** Usable memory that starts behind such an entry, but below 4 GB. */
  ghost predicate Behind(es: seq<BiosEntry>, e: BiosEntry) {
    && 0x10_0000 < RoundedUp(e) < 0x1_0000_0000
    && exists j :: 0 <= j < |es| && Obstructs(es[j]) && RoundedDown(es[j]) <= RoundedUp(e)
  }

  /** The memory type and attribute of the pages of an entry: usable memory is conventional (7), or
      reserved (0) when it starts behind an obstruction; entries of type 3 are ACPI tables to reclaim
      (9), of type 4 ACPI non-volatile storage (10), and all others are reserved. Attribute 8 is
      write-back, 1 is uncached. */
  ghost function TypeAndAttribute(es: seq<BiosEntry>, e: BiosEntry): (int, int) {
    if e.Type == 1 then (if Behind(es, e) then 0 else 7, 8)
    else if e.Type == 3 then (9, 8)
    else if e.Type == 4 then (10, 1)
    else (0, 1)
  }

  predicate CoversPage(d: Descriptor, p: int) {
    d.PhysicalStart / 0x1000 <= p < d.PhysicalStart / 0x1000 + d.NumberOfPages
  }

  /** The ceiling is the lowest page base of an obstruction, and 4 GB - 1 when there is none. */
  lemma CeilingExact(es: seq<BiosEntry>, c: int)
    ensures CeilingOf(es) == c
            <==> if exists j :: 0 <= j < |es| && Obstructs(es[j])
                 then && (exists j :: 0 <= j < |es| && Obstructs(es[j]) && RoundedDown(es[j]) == c)
                      && (forall j :: 0 <= j < |es| && Obstructs(es[j]) ==> c <= RoundedDown(es[j]))
                 else c == 0xFFFF_FFFF
  {
    CeilingAttained(es);
    CeilingBelow(es);
  }

  lemma ObstructingBase(e: BiosEntry)
    requires e.Type != 1
    ensures !Usable(e) && Rounded(e).0 == RoundedDown(e)
  {
    OtherBase(e);
  }

  lemma CeilingBelow(es: seq<BiosEntry>)
    ensures forall j :: 0 <= j < |es| && Obstructs(es[j]) ==> CeilingOf(es) <= RoundedDown(es[j])
  {
    forall j | 0 <= j < |es| && Obstructs(es[j])
      ensures CeilingOf(es) <= RoundedDown(es[j])
    {
      ObstructingBase(es[j]);
      CeilingIsLowest(es, j);
    }
  }

  lemma {:induction false} CeilingAttained(es: seq<BiosEntry>)
    ensures if exists j :: 0 <= j < |es| && Obstructs(es[j])
            then exists j :: 0 <= j < |es| && Obstructs(es[j]) && RoundedDown(es[j]) == CeilingOf(es)
            else CeilingOf(es) == 0xFFFF_FFFF
  {
    if es != [] {
      var n := |es| - 1;
      var before, e := es[..n], es[n];
      CeilingAttained(before);
      if e.Type != 1 {
        ObstructingBase(e);
      }
      if j :| 0 <= j < n && Obstructs(before[j]) && RoundedDown(before[j]) == CeilingOf(before) {
        assert Obstructs(es[j]);
      }
      if Obstructs(e) {
        assert Obstructs(es[n]);
      }
    }
  }

  // ---------------------------------------------------------------------
  // One entry
  // ---------------------------------------------------------------------

  lemma UsableStart(e: BiosEntry)
    requires e.Type == 1 && Fits(e)
    ensures DescriptorOf(e).PhysicalStart == RoundedUp(e)
  {
    var page := e.BaseAddress / PAGE_SIZE;
    if e.BaseAddress % PAGE_SIZE != 0 {
      assert PagesToBytes(page + 1) == (page + 1) * PAGE_SIZE;
    }
  }

  lemma BehindIff(es: seq<BiosEntry>, e: BiosEntry)
    requires e.Type == 1 && Fits(e)
    ensures AboveCeiling(DescriptorOf(e), CeilingOf(es)) <==> Behind(es, e)
  {
    UsableStart(e);
    CeilingAttained(es);
    CeilingBelow(es);
  }

  lemma OtherCovers(e: BiosEntry, p: int)
    requires e.Type != 1 && Fits(e)
    ensures Covers(DescriptorOf(e), p) <==> SpeaksFor(e, p)
  {
    OtherPages(e);
    PagesTouched(PageEnd(DescriptorOf(e)), e.BaseAddress, e.BaseAddress + e.Length, p);
  }

  lemma PagesTouched(end: int, lo: int, hi: int, p: int)
    requires hi <= end * PAGE_SIZE < hi + PAGE_SIZE
    ensures lo / PAGE_SIZE <= p < end <==> p * 0x1000 < hi && lo < (p + 1) * 0x1000
  {
  }

  /** The descriptor of one entry, after the ceiling. */
  lemma EntryMarked(es: seq<BiosEntry>, e: BiosEntry, d: Descriptor, p: int)
    requires Fits(e) && Reaches(e) && d == Lowered(DescriptorOf(e), CeilingOf(es))
    ensures CoversPage(d, p) <==> SpeaksFor(e, p)
    ensures (d.Type, d.Attribute) == TypeAndAttribute(es, e)
  {
    if e.Type == 1 {
      UsableCovers(e, p);
      BehindIff(es, e);
    } else {
      OtherCovers(e, p);
    }
  }

  // ---------------------------------------------------------------------
  // The table
  // ---------------------------------------------------------------------

  /** Some descriptor of the table covers the page with this type and attribute. */
  ghost predicate Marked(t: seq<Descriptor>, p: int, mark: (int, int)) {
    exists k :: 0 <= k < |t| && CoversPage(t[k], p) && (t[k].Type, t[k].Attribute) == mark
  }

  lemma MarkSource(es: seq<BiosEntry>, p: int, mark: (int, int)) returns (i: nat)
    requires WellFormed(es) && AllReach(es) && Marked(MemoryMapOf([], es), p, mark)
    ensures i < |es| && SpeaksFor(es[i], p) && TypeAndAttribute(es, es[i]) == mark
  {
    DisjointListKept(es);
    var t := MemoryMapOf([], es);
    var k :| 0 <= k < |t| && CoversPage(t[k], p) && (t[k].Type, t[k].Attribute) == mark;
    i := Source(es, k);
    EntryMarked(es, es[i], t[k], p);
  }

  lemma MarkKept(es: seq<BiosEntry>, i: nat, p: int)
    requires WellFormed(es) && AllReach(es) && i < |es| && SpeaksFor(es[i], p)
    ensures Marked(MemoryMapOf([], es), p, TypeAndAttribute(es, es[i]))
  {
    DisjointListKept(es);
    var s, t := Kept(es), MemoryMapOf([], es);
    EntryMarked(es, es[i], Lowered(DescriptorOf(es[i]), CeilingOf(es)), p);
    KeptHas(es, i);
    var x :| 0 <= x < |s| && s[x] == DescriptorOf(es[i]);
    assert t[x] == Lowered(s[x], CeilingOf(es));
    assert CoversPage(t[x], p);
  }

  /** The marks of the finished table: a page has a type and attribute if and only if an entry that
      speaks for the page gives it these. */
  lemma TableMarks(es: seq<BiosEntry>, p: int, mark: (int, int))
    requires WellFormed(es) && AllReach(es)
    ensures Marked(MemoryMapOf([], es), p, mark)
            <==> exists i :: 0 <= i < |es| && SpeaksFor(es[i], p) && TypeAndAttribute(es, es[i]) == mark
  {
    if Marked(MemoryMapOf([], es), p, mark) {
      var i := MarkSource(es, p, mark);
    }
    if i :| 0 <= i < |es| && SpeaksFor(es[i], p) && TypeAndAttribute(es, es[i]) == mark {
      MarkKept(es, i, p);
    }
  }

  lemma SpeaksAlone(e: BiosEntry, f: BiosEntry, p: int)
    requires e.Type == 1 && SpeaksFor(e, p) && Disjoint(e, f)
    ensures !SpeaksFor(f, p)
  {
  }

  /** A page wholly inside a usable entry has one mark only. */
  lemma UsableMarkedOnce(es: seq<BiosEntry>, i: nat, p: int, mark: (int, int))
    requires WellFormed(es) && AllReach(es) && i < |es| && es[i].Type == 1 && SpeaksFor(es[i], p)
    ensures Marked(MemoryMapOf([], es), p, mark) <==> mark == (if Behind(es, es[i]) then 0 else 7, 8)
  {
    TableMarks(es, p, mark);
    forall j | 0 <= j < |es| && j != i
      ensures !SpeaksFor(es[j], p)
    {
      SpeaksAlone(es[i], es[j], p);
    }
  }
}
