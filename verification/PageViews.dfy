/** What the descriptor table means: which types and attributes each page carries.
    Carving and allocation are point updates of that meaning. */
module PageViews {
  import opened Words
  import opened MemoryMap

  /** First page of a descriptor, and the first page past it. */
  function First(d: Descriptor): nat { d.PhysicalStart / PAGE_SIZE }

  function PageEnd(d: Descriptor): nat { First(d) + d.NumberOfPages }

  predicate Covers(d: Descriptor, p: int) { First(d) <= p < PageEnd(d) }

  /** Page aligned, and inside the 64-bit address space. */
  predicate Placed(d: Descriptor) {
    d.PhysicalStart % PAGE_SIZE == 0 && d.PhysicalStart + d.NumberOfPages * PAGE_SIZE <= TWO_64
  }

  ghost predicate PlacedTable(s: seq<Descriptor>) { forall i :: 0 <= i < |s| ==> Placed(s[i]) }

  /** The two descriptors have no page in common. */
  predicate Apart(d: Descriptor, e: Descriptor) {
    PageEnd(d) <= First(e) || PageEnd(e) <= First(d) || d.NumberOfPages == 0 || e.NumberOfPages == 0
  }

  /** No two Conventional descriptors share a page. */
  ghost predicate ConventionalApart(s: seq<Descriptor>) {
    forall i, j :: 0 <= i < j < |s| && IsConventional(s[i]) && IsConventional(s[j]) ==> Apart(s[i], s[j])
  }

  /** No Conventional descriptor shares a page with any other descriptor. */
  ghost predicate Exclusive(s: seq<Descriptor>) {
    forall i, j :: 0 <= i < |s| && 0 <= j < |s| && i != j && IsConventional(s[i]) ==> Apart(s[i], s[j])
  }

  /** What a descriptor says of each of its pages. */
  datatype Mark = Mark(Type: MemoryType, Attribute: u64)

  function MarkOf(d: Descriptor): Mark { Mark(d.Type, d.Attribute) }

  function Gives(d: Descriptor, p: int, m: Mark): nat {
    if Covers(d, p) && MarkOf(d) == m then 1 else 0
  }

  /** The number of descriptors that cover page p and carry mark m. */
  function Count(s: seq<Descriptor>, p: int, m: Mark): nat {
    if s == [] then 0 else Count(s[..|s| - 1], p, m) + Gives(s[|s| - 1], p, m)
  }

  /** The page may be handed out: a Conventional descriptor covers it. */
  ghost predicate Free(s: seq<Descriptor>, p: int) {
    exists i :: 0 <= i < |s| && IsConventional(s[i]) && Covers(s[i], p)
  }

  lemma CountAppend(s: seq<Descriptor>, d: Descriptor, p: int, m: Mark)
    ensures Count(s + [d], p, m) == Count(s, p, m) + Gives(d, p, m)
  {
    assert (s + [d])[..|s|] == s;
  }

  lemma {:induction false} CountUpdate(s: seq<Descriptor>, k: nat, d: Descriptor, p: int, m: Mark)
    requires k < |s|
    ensures Count(s[k := d], p, m) == Count(s, p, m) - Gives(s[k], p, m) + Gives(d, p, m)
  {
    var n := |s| - 1;
    if k == n {
      assert s[k := d][..n] == s[..n];
    } else {
      assert s[k := d][..n] == s[..n][k := d];
      CountUpdate(s[..n], k, d, p, m);
    }
  }

  /** A mark counts on a page exactly when some descriptor gives it. */
  lemma {:induction false} CountPositive(s: seq<Descriptor>, p: int, m: Mark)
    ensures Count(s, p, m) > 0 <==> exists i :: 0 <= i < |s| && Covers(s[i], p) && MarkOf(s[i]) == m
  {
    if s != [] {
      var n := |s| - 1;
      CountPositive(s[..n], p, m);
      if Count(s[..n], p, m) > 0 {
        var i :| 0 <= i < n && Covers(s[..n][i], p) && MarkOf(s[..n][i]) == m;
        assert Covers(s[i], p);
      }
      if i :| 0 <= i < |s| && Covers(s[i], p) && MarkOf(s[i]) == m {
        assert i < n ==> s[..n][i] == s[i];
      }
    }
  }

  // ---------------------------------------------------------------------
  // EfiAddMemoryDescriptor is a point update
  // ---------------------------------------------------------------------

  /** Entry k is Conventional and contains the whole region. */
  predicate Holds(s: seq<Descriptor>, k: nat, r: Region)
    requires k < |s|
  {
    && IsConventional(s[k])
    && First(s[k]) <= First(AsDescriptor(r))
    && PageEnd(AsDescriptor(r)) <= PageEnd(s[k])
  }

  ghost predicate NoHolder(s: seq<Descriptor>, r: Region) {
    forall k :: 0 <= k < |s| ==> !Holds(s, k, r)
  }

  ghost predicate GoodRegion(r: Region) { r.NoPages > 0 && Placed(AsDescriptor(r)) }

  /** A descriptor that does not contain the region is left alone. */
  lemma CarveElsewhere(s: seq<Descriptor>, i: nat, r: Region)
    requires i < |s| && Placed(s[i]) && GoodRegion(r) && !Holds(s, i, r)
    ensures CarveAt(s, i, r) == (s, false)
  {
    var d := s[i];
    if d.PhysicalStart < r.BaseAddress {
      assert Sub64(r.BaseAddress, d.PhysicalStart) == r.BaseAddress - d.PhysicalStart;
      PagesBetween(d.PhysicalStart, r.BaseAddress);
    }
  }

  lemma PagesBetween(x: nat, y: nat)
    requires x <= y && x % PAGE_SIZE == 0 && y % PAGE_SIZE == 0
    ensures (y - x) / PAGE_SIZE == y / PAGE_SIZE - x / PAGE_SIZE
  {
  }

  /** What a region leaves of the descriptor k that contains it. */
  function CarvedOut(s: seq<Descriptor>, k: nat, r: Region): seq<Descriptor>
    requires k < |s| && Holds(s, k, r) && Placed(s[k]) && GoodRegion(r)
  {
    var d := s[k];
    var n := AsDescriptor(r);
    var left, right := First(n) - First(d), PageEnd(d) - PageEnd(n);
    var tail := if right == 0 then []
                else [Descriptor(EfiConventionalMemory, PageEnd(n) * PAGE_SIZE, 0, right, d.Attribute)];
    if left > 0 then s[k := d.(NumberOfPages := left)] + tail + [n]
    else if right > 0 then
      s[k := d.(PhysicalStart := PageEnd(n) * PAGE_SIZE, NumberOfPages := right)] + [n]
    else s[k := d.(Type := r.Type, Attribute := r.Attribute)]
  }

  lemma {:induction false} SkipTo(s: seq<Descriptor>, i: nat, j: nat, limit: nat, r: Region)
    requires i <= j <= limit <= |s| && PlacedTable(s) && GoodRegion(r)
    requires forall k :: i <= k < j ==> !Holds(s, k, r)
    ensures AddFrom(s, i, limit, r) == AddFrom(s, j, limit, r)
    decreases j - i
  {
    if i < j {
      CarveElsewhere(s, i, r);
      SkipTo(s, i + 1, j, limit, r);
    }
  }

  lemma CarveHolder(s: seq<Descriptor>, k: nat, r: Region)
    requires k < |s| && Placed(s[k]) && GoodRegion(r) && Holds(s, k, r)
    ensures var (t, done) := CarveAt(s, k, r);
            if First(s[k]) == First(AsDescriptor(r)) && PageEnd(s[k]) == PageEnd(AsDescriptor(r)) then
              done && t == CarvedOut(s, k, r)
            else
              !done && t + [AsDescriptor(r)] == CarvedOut(s, k, r)
  {
    var d := s[k];
    var n := AsDescriptor(r);
    assert Sub64(r.BaseAddress, d.PhysicalStart) == r.BaseAddress - d.PhysicalStart;
    assert Sub64(r.BaseAddress, d.PhysicalStart) / PAGE_SIZE == First(n) - First(d);
    var temp := Add64(Sub64(r.BaseAddress, d.PhysicalStart) / PAGE_SIZE, r.NoPages);
    assert temp == PageEnd(n) - First(d);
    assert d.PhysicalStart < r.BaseAddress <==> First(d) < First(n);
    if PageEnd(n) < PageEnd(d) {
      assert PagesToBytes(r.NoPages) == r.NoPages * PAGE_SIZE;
      assert Add64(r.BaseAddress, PagesToBytes(r.NoPages)) == PageEnd(n) * PAGE_SIZE;
    }
  }

  /** A region no Conventional descriptor contains is appended. */
  lemma AddWithoutHolder(s: seq<Descriptor>, r: Region)
    requires PlacedTable(s) && GoodRegion(r) && NoHolder(s, r)
    ensures AddDescriptor(s, r) == s + [AsDescriptor(r)]
  {
    SkipTo(s, 0, |s|, |s|, r);
  }

  /** With the Conventional descriptors apart, no other descriptor than k contains the region. */
  lemma OneHolder(s: seq<Descriptor>, k: nat, j: nat, r: Region)
    requires PlacedTable(s) && ConventionalApart(s) && GoodRegion(r)
    requires k < |s| && Holds(s, k, r) && j < |s| && j != k
    ensures !Holds(s, j, r)
  {
    assert IsConventional(s[j]) ==> if j < k then Apart(s[j], s[k]) else Apart(s[k], s[j]);
  }

  /** A region inside the Conventional descriptor k is carved out of exactly that one. */
  lemma AddWithHolder(s: seq<Descriptor>, k: nat, r: Region)
    requires PlacedTable(s) && ConventionalApart(s) && GoodRegion(r)
    requires k < |s| && Holds(s, k, r)
    ensures AddDescriptor(s, r) == CarvedOut(s, k, r)
  {
    forall j | 0 <= j < |s| && j != k
      ensures !Holds(s, j, r)
    {
      OneHolder(s, k, j, r);
    }
    SkipTo(s, 0, k, |s|, r);
    CarveHolder(s, k, r);
    SkipRest(s, k, r);
  }

  lemma SkipRest(s: seq<Descriptor>, k: nat, r: Region)
    requires PlacedTable(s) && GoodRegion(r)
    requires k < |s| && Holds(s, k, r)
    requires forall j :: k < j < |s| ==> !Holds(s, j, r)
    ensures AddFrom(s, k, |s|, r) == CarvedOut(s, k, r)
  {
    CarveHolder(s, k, r);
    var (t, done) := CarveAt(s, k, r);
    if !done {
      var j := k + 1;
      assert AddFrom(s, k, |s|, r) == AddFrom(t, j, |s|, r);
      assert t == CarvedOut(s, k, r)[..|t|];
      CarvedPlaced(s, k, r);
      forall i | j <= i < |s|
        ensures !Holds(t, i, r)
      {
        assert !Holds(s, i, r) && t[i] == s[i];
      }
      SkipTo(t, j, |s|, |s|, r);
    }
  }

  lemma CarvedPlaced(s: seq<Descriptor>, k: nat, r: Region)
    requires PlacedTable(s) && GoodRegion(r)
    requires k < |s| && Holds(s, k, r)
    ensures PlacedTable(CarvedOut(s, k, r))
    ensures |CarvedOut(s, k, r)| <= |s| + 2
  {
  }

  function Indicator(b: bool): int { if b then 1 else 0 }

  /** What the i-th descriptor gives, if there is one. */
  function GivesAt(t: seq<Descriptor>, i: nat, p: int, m: Mark): nat { if i < |t| then Gives(t[i], p, m) else 0 }

  /** Up to two entries at the end of a table. */
  lemma CountTail(t: seq<Descriptor>, n: nat, p: int, m: Mark)
    requires n <= |t| <= n + 2
    ensures Count(t, p, m) == Count(t[..n], p, m) + GivesAt(t, n, p, m) + GivesAt(t, n + 1, p, m)
  {
    if |t| == n {
      assert t[..n] == t;
    } else if |t| == n + 1 {
    } else {
      assert t[..n + 1][..n] == t[..n];
    }
  }

  /** Counting in a table of which entry k has changed and which has up to two new entries. */
  lemma CountChanged(s: seq<Descriptor>, k: nat, t: seq<Descriptor>, p: int, m: Mark)
    requires k < |s| <= |t| <= |s| + 2 && forall i :: 0 <= i < |s| && i != k ==> t[i] == s[i]
    ensures Count(t, p, m) == Count(s, p, m) - Gives(s[k], p, m) + Gives(t[k], p, m)
                              + GivesAt(t, |s|, p, m) + GivesAt(t, |s| + 1, p, m)
  {
    CountUpdate(s, k, t[k], p, m);
    assert t[..|s|] == s[k := t[k]];
    CountTail(t, |s|, p, m);
  }

  /** The parts give what the descriptor gave, except on the pages of the region. */
  lemma PartsGive(s: seq<Descriptor>, k: nat, r: Region, t: seq<Descriptor>, p: int, m: Mark)
    requires k < |s| && Holds(s, k, r) && Placed(s[k]) && GoodRegion(r) && t == CarvedOut(s, k, r)
    ensures Gives(t[k], p, m) + GivesAt(t, |s|, p, m) + GivesAt(t, |s| + 1, p, m)
            == if Covers(AsDescriptor(r), p) then Indicator(m == MarkOf(AsDescriptor(r))) else Gives(s[k], p, m)
  {
  }

  /** EfiAddMemoryDescriptor refines a point update: exactly the region's pages lose the
      Conventional mark they had and take the new one. */
  lemma AddIsPointUpdate(s: seq<Descriptor>, k: nat, r: Region, p: int, m: Mark)
    requires PlacedTable(s) && ConventionalApart(s) && GoodRegion(r)
    requires k < |s| && Holds(s, k, r)
    ensures var t := AddDescriptor(s, r);
            Count(t, p, m) == if Covers(AsDescriptor(r), p)
                              then Count(s, p, m) - Indicator(m == MarkOf(s[k])) + Indicator(m == MarkOf(AsDescriptor(r)))
                              else Count(s, p, m)
  {
    AddWithHolder(s, k, r);
    var t := CarvedOut(s, k, r);
    CountChanged(s, k, t, p, m);
    PartsGive(s, k, r, t, p, m);
  }

  /** The cases in which carving is meant to work: the region lies inside one Conventional
      descriptor, or touches no descriptor at all. */
  ghost predicate Clean(s: seq<Descriptor>, r: Region) {
    || (exists k :: 0 <= k < |s| && Holds(s, k, r))
    || (forall i :: 0 <= i < |s| ==> Apart(s[i], AsDescriptor(r)))
  }

  lemma ExclusiveImpliesApart(s: seq<Descriptor>)
    requires Exclusive(s)
    ensures ConventionalApart(s)
  {
  }

  lemma CarvedExclusive(s: seq<Descriptor>, k: nat, r: Region)
    requires PlacedTable(s) && Exclusive(s) && GoodRegion(r)
    requires k < |s| && Holds(s, k, r)
    ensures Exclusive(CarvedOut(s, k, r))
  {
    var t := CarvedOut(s, k, r);
    forall i | 0 <= i < |s| && i != k
      ensures t[i] == s[i]
      ensures forall j :: |s| <= j < |t| || j == k ==> First(s[k]) <= First(t[j]) && PageEnd(t[j]) <= PageEnd(s[k])
    {
    }
    forall i, j | 0 <= i < |t| && 0 <= j < |t| && i != j && IsConventional(t[i])
      ensures Apart(t[i], t[j])
    {
      if i < |s| && i != k {
        assert Apart(s[i], if j < |s| then s[j] else s[k]);
        assert Apart(s[i], s[k]);
      } else if j < |s| && j != k {
        assert Apart(s[k], s[j]);
      }
    }
  }

  /** In the intended cases no Conventional descriptor comes to overlap any other descriptor,
      and the table grows by at most two entries. */
  lemma AddKeepsExclusive(s: seq<Descriptor>, r: Region)
    requires PlacedTable(s) && Exclusive(s) && GoodRegion(r) && Clean(s, r)
    ensures var t := AddDescriptor(s, r);
            PlacedTable(t) && Exclusive(t) && |t| <= |s| + 2
  {
    ExclusiveImpliesApart(s);
    if k :| 0 <= k < |s| && Holds(s, k, r) {
      AddWithHolder(s, k, r);
      CarvedPlaced(s, k, r);
      CarvedExclusive(s, k, r);
    } else {
      AddWithoutHolder(s, r);
    }
  }

  /** Exactly when carving takes all of a region away from the free memory: the region lies
      inside one Conventional descriptor, or touches none. A region that only sticks out of a
      Conventional descriptor leaves the shared pages marked twice. */
  lemma RegionTakenIffCarvable(s: seq<Descriptor>, r: Region)
    requires PlacedTable(s) && ConventionalApart(s) && GoodRegion(r) && r.Type != EfiConventionalMemory
    ensures (forall p :: Covers(AsDescriptor(r), p) ==> !Free(AddDescriptor(s, r), p))
            <==> !NoHolder(s, r)
                 || (forall i :: 0 <= i < |s| && IsConventional(s[i]) ==> Apart(s[i], AsDescriptor(r)))
  {
    var n := AsDescriptor(r);
    var t := AddDescriptor(s, r);
    if k :| 0 <= k < |s| && Holds(s, k, r) {
      AddWithHolder(s, k, r);
      forall p, i | Covers(n, p) && 0 <= i < |t| && IsConventional(t[i])
        ensures !Covers(t[i], p)
      {
        if i < |s| && i != k {
          assert if i < k then Apart(s[i], s[k]) else Apart(s[k], s[i]);
        }
      }
    } else {
      AddWithoutHolder(s, r);
      if i :| 0 <= i < |s| && IsConventional(s[i]) && !Apart(s[i], n) {
        var p := if First(s[i]) <= First(n) then First(n) else First(s[i]);
        assert t[i] == s[i] && Covers(t[i], p) && Covers(n, p);
        assert Free(t, p);
      } else {
        forall p, i | Covers(n, p) && 0 <= i < |t| && IsConventional(t[i])
          ensures !Covers(t[i], p)
        {
          assert t[i] == s[i];
          assert Apart(s[i], n);
        }
      }
    }
  }

  /** No descriptor has a virtual address yet. */
  ghost predicate Unmapped(s: seq<Descriptor>) { forall i :: 0 <= i < |s| ==> s[i].VirtualStart == 0 }

  lemma {:induction false} AddFromUnmapped(s: seq<Descriptor>, i: nat, limit: nat, r: Region)
    requires i <= limit <= |s| && Unmapped(s)
    ensures Unmapped(AddFrom(s, i, limit, r))
    decreases limit - i
  {
    if i < limit {
      AddFromUnmapped(CarveAt(s, i, r).0, i + 1, limit, r);
    }
  }

  // ---------------------------------------------------------------------
  // Whole runs of additions
  // ---------------------------------------------------------------------

  /** The table after adding the regions one after the other. */
  function AddAll(s: seq<Descriptor>, rs: seq<Region>): (t: seq<Descriptor>)
    ensures |s| <= |t|
  {
    if rs == [] then s else AddDescriptor(AddAll(s, rs[..|rs| - 1]), rs[|rs| - 1])
  }

  /** Whatever is added, no descriptor gets a virtual address. */
  lemma {:induction false} AddAllUnmapped(s: seq<Descriptor>, rs: seq<Region>)
    requires Unmapped(s)
    ensures Unmapped(AddAll(s, rs))
  {
    if rs != [] {
      var before, r := AddAll(s, rs[..|rs| - 1]), rs[|rs| - 1];
      AddAllUnmapped(s, rs[..|rs| - 1]);
      AddFromUnmapped(before, 0, |before|, r);
    }
  }

  /** The last region of the run that covers page p. */
  function LastWriter(rs: seq<Region>, p: int): seq<Mark> {
    if rs == [] then []
    else if Covers(AsDescriptor(rs[|rs| - 1]), p) then [MarkOf(AsDescriptor(rs[|rs| - 1]))]
    else LastWriter(rs[..|rs| - 1], p)
  }

  /** Every addition of the run is one of the intended cases when its turn comes. */
  ghost predicate CleanRun(rs: seq<Region>) {
    rs == [] ||
    var before, r := rs[..|rs| - 1], rs[|rs| - 1];
    && CleanRun(before)
    && Placed(AsDescriptor(r))
    && (r.NoPages > 0 ==> Clean(AddAll([], before), r))
  }

  lemma {:induction false} CleanRunExclusive(rs: seq<Region>)
    requires CleanRun(rs)
    ensures PlacedTable(AddAll([], rs)) && Exclusive(AddAll([], rs)) && |AddAll([], rs)| <= 2 * |rs|
  {
    if rs != [] {
      var before, r := rs[..|rs| - 1], rs[|rs| - 1];
      CleanRunExclusive(before);
      if r.NoPages > 0 {
        AddKeepsExclusive(AddAll([], before), r);
      }
    }
  }

  /** The table built by a clean run is the map from pages to marks in which the last writer
      of a page wins: one descriptor covers the page, with that writer's mark, and no other does. */
  lemma {:induction false} LastWriterWins(rs: seq<Region>, p: int, m: Mark)
    requires CleanRun(rs)
    ensures Count(AddAll([], rs), p, m) == if LastWriter(rs, p) == [m] then 1 else 0
  {
    if rs != [] {
      var before, r := rs[..|rs| - 1], rs[|rs| - 1];
      var s, n := AddAll([], before), AsDescriptor(r);
      LastWriterWins(before, p, m);
      if r.NoPages > 0 {
        CleanRunExclusive(before);
        ExclusiveImpliesApart(s);
        if k :| 0 <= k < |s| && Holds(s, k, r) {
          AddIsPointUpdate(s, k, r, p, m);
          if Covers(n, p) {
            CountPositive(s, p, MarkOf(s[k]));
            LastWriterWins(before, p, MarkOf(s[k]));
          }
        } else {
          AddWithoutHolder(s, r);
          CountAppend(s, n, p, m);
          if Covers(n, p) {
            CountPositive(s, p, m);
          }
        }
      }
    }
  }
}
