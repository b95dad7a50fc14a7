/** What FindSpace means for the pages, and how successive allocations stack. */
module Allocation {
  import opened Words
  import opened MemoryMap
  import opened PageViews

  /** At most one entry is the highest eligible one. */
  lemma PickUnique(s: seq<Descriptor>, n: nat, h: nat, j: nat, k: nat)
    requires h <= |s| && IsPick(s, n, h, j) && IsPick(s, n, h, k)
    ensures j == k
  {
  }

  /** The table and the request determine the result. */
  lemma FindSpaceDeterministic(s: seq<Descriptor>, n: nat, t: MemoryType, a: u64,
                               s1: seq<Descriptor>, b1: u64, s2: seq<Descriptor>, b2: u64)
    requires FindSpaceResult(s, n, t, a, s1, b1) && FindSpaceResult(s, n, t, a, s2, b2)
    ensures s1 == s2 && b1 == b2
  {
    if j: nat, k: nat :| IsPick(s, n, Horizon(s), j) && (s1, b1) == TakeTop(s, j, n, t, a)
                         && IsPick(s, n, Horizon(s), k) && (s2, b2) == TakeTop(s, k, n, t, a) {
      PickUnique(s, n, Horizon(s), j, k);
    }
  }

  /** The range taken is the top n pages of entry k, inside (0, 4 GB]. */
  lemma TakenRange(s: seq<Descriptor>, k: nat, n: nat, t: MemoryType, a: u64)
    requires k < |s| && Placed(s[k]) && Eligible(s[k], n)
    ensures var base := TakeTop(s, k, n, t, a).1;
            && base == (PageEnd(s[k]) - n) * PAGE_SIZE
            && 0 < base
            && base + n * PAGE_SIZE == PageEnd(s[k]) * PAGE_SIZE <= FOUR_GB
  {
    var d := s[k];
    assert End64(d) == d.PhysicalStart + d.NumberOfPages * PAGE_SIZE;
    assert PagesToBytes(d.NumberOfPages - n) == (d.NumberOfPages - n) * PAGE_SIZE;
  }

  /** On a placed table the address is zero exactly when nothing is eligible. */
  lemma FailsIffNoneEligible(s: seq<Descriptor>, n: nat, t: MemoryType, a: u64, s': seq<Descriptor>, base: u64)
    requires PlacedTable(s) && FindSpaceResult(s, n, t, a, s', base)
    ensures base == 0 <==> NoneEligible(s, n, Horizon(s))
    ensures base == 0 ==> s' == s
  {
    if k: nat :| IsPick(s, n, Horizon(s), k) && (s', base) == TakeTop(s, k, n, t, a) {
      TakenRange(s, k, n, t, a);
    }
  }

  /** The entry a successful allocation was taken from. */
  lemma PickedEntry(s: seq<Descriptor>, n: nat, t: MemoryType, a: u64, s': seq<Descriptor>, base: u64) returns (k: nat)
    requires PlacedTable(s) && FindSpaceResult(s, n, t, a, s', base) && base != 0
    ensures IsPick(s, n, Horizon(s), k) && (s', base) == TakeTop(s, k, n, t, a)
    ensures base == (PageEnd(s[k]) - n) * PAGE_SIZE && base + n * PAGE_SIZE <= FOUR_GB
  {
    k :| IsPick(s, n, Horizon(s), k) && (s', base) == TakeTop(s, k, n, t, a);
    TakenRange(s, k, n, t, a);
  }

  /** FindSpace refines allocation: the top n pages of the entry picked change from Conventional
      to the type asked for, and no other page changes its mark. */
  lemma AllocationIsPointUpdate(s: seq<Descriptor>, k: nat, n: nat, t: MemoryType, a: u64, p: int, m: Mark)
    requires k < |s| && Placed(s[k]) && Eligible(s[k], n)
    ensures var (s', base) := TakeTop(s, k, n, t, a);
            Count(s', p, m) == if base / PAGE_SIZE <= p < base / PAGE_SIZE + n
                               then Count(s, p, m) - Indicator(m == MarkOf(s[k])) + Indicator(m == Mark(t, a))
                               else Count(s, p, m)
  {
    TakenRange(s, k, n, t, a);
    var (s', base) := TakeTop(s, k, n, t, a);
    assert base / PAGE_SIZE == PageEnd(s[k]) - n;
    CountUpdate(s, k, s'[k], p, m);
    if s[k].NumberOfPages != n {
      CountAppend(s[k := s'[k]], s'[|s|], p, m);
    }
  }

  /** The pages handed out carry the type and attribute asked for. */
  lemma AllocationMarks(s: seq<Descriptor>, n: nat, t: MemoryType, a: u64, s': seq<Descriptor>, base: u64, p: int)
    requires PlacedTable(s) && FindSpaceResult(s, n, t, a, s', base) && base != 0 && t != EfiConventionalMemory
    requires base / PAGE_SIZE <= p < base / PAGE_SIZE + n
    ensures Count(s', p, Mark(t, a)) > 0
  {
    var k := PickedEntry(s, n, t, a, s', base);
    AllocationIsPointUpdate(s, k, n, t, a, p, Mark(t, a));
  }

  /** No page loses a mark that is not Conventional, and no descriptor gets a virtual address. */
  lemma AllocationKeepsMarks(s: seq<Descriptor>, n: nat, t: MemoryType, a: u64, s': seq<Descriptor>, base: u64, p: int, m: Mark)
    requires PlacedTable(s) && FindSpaceResult(s, n, t, a, s', base) && m.Type != EfiConventionalMemory
    ensures Count(s', p, m) >= Count(s, p, m)
    ensures Unmapped(s) ==> Unmapped(s')
  {
    if k: nat :| IsPick(s, n, Horizon(s), k) && (s', base) == TakeTop(s, k, n, t, a) {
      AllocationIsPointUpdate(s, k, n, t, a, p, m);
    }
  }

  /** Entry x of the new table is part of this entry of the old one. */
  function Origin(s: seq<Descriptor>, k: nat, x: nat): nat { if x < |s| then x else k }

  lemma LowerPart(d: Descriptor, n: nat, e: Descriptor)
    requires Placed(d) && n <= d.NumberOfPages
    requires e.PhysicalStart == d.PhysicalStart && e.NumberOfPages == d.NumberOfPages - n
    ensures Placed(e) && First(e) == First(d) && PageEnd(e) == PageEnd(d) - n
  {
  }

  lemma UpperPart(d: Descriptor, n: nat, e: Descriptor)
    requires Placed(d) && n <= d.NumberOfPages
    requires e.PhysicalStart == (PageEnd(d) - n) * PAGE_SIZE && e.NumberOfPages == n
    ensures Placed(e) && First(e) == PageEnd(d) - n && PageEnd(e) == PageEnd(d)
  {
  }

  lemma TakenParts(s: seq<Descriptor>, k: nat, n: nat, t: MemoryType, a: u64, x: nat)
    requires k < |s| && PlacedTable(s) && Eligible(s[k], n)
    requires x < |TakeTop(s, k, n, t, a).0|
    ensures var d, e := TakeTop(s, k, n, t, a).0[x], s[Origin(s, k, x)];
            && Placed(d)
            && First(e) <= First(d)
            && PageEnd(d) <= PageEnd(e)
            && (IsConventional(d) ==> IsConventional(e))
  {
    TakenRange(s, k, n, t, a);
    var d := TakeTop(s, k, n, t, a).0[x];
    if x == |s| {
      UpperPart(s[k], n, d);
    } else if x == k {
      LowerPart(s[k], s[k].NumberOfPages - d.NumberOfPages, d);
    } else {
      assert d == s[x];
    }
  }

  /** The two parts of entry k share no page. */
  lemma TakenSplit(s: seq<Descriptor>, k: nat, n: nat, t: MemoryType, a: u64)
    requires k < |s| && PlacedTable(s) && Eligible(s[k], n)
    ensures var u := TakeTop(s, k, n, t, a).0;
            |u| > |s| ==> Apart(u[k], u[|s|])
  {
    TakenRange(s, k, n, t, a);
  }

  /** No two entries of the new table share a page one of them leaves Conventional. */
  lemma TakenApart(s: seq<Descriptor>, k: nat, n: nat, t: MemoryType, a: u64, u: seq<Descriptor>, i: nat, j: nat)
    requires k < |s| && PlacedTable(s) && Exclusive(s) && Eligible(s[k], n) && u == TakeTop(s, k, n, t, a).0
    requires i < |u| && j < |u| && i != j && IsConventional(u[i])
    ensures Apart(u[i], u[j])
  {
    TakenParts(s, k, n, t, a, i);
    TakenParts(s, k, n, t, a, j);
    if Origin(s, k, i) == Origin(s, k, j) {
      TakenSplit(s, k, n, t, a);
    } else {
      assert Apart(s[Origin(s, k, i)], s[Origin(s, k, j)]);
    }
  }

  /** Allocation keeps the table placed and its Conventional descriptors exclusive. */
  lemma AllocationKeepsExclusive(s: seq<Descriptor>, n: nat, t: MemoryType, a: u64, s': seq<Descriptor>, base: u64)
    requires PlacedTable(s) && Exclusive(s) && FindSpaceResult(s, n, t, a, s', base)
    ensures PlacedTable(s') && Exclusive(s')
  {
    if k: nat :| IsPick(s, n, Horizon(s), k) && (s', base) == TakeTop(s, k, n, t, a) {
      forall x | 0 <= x < |s'|
        ensures Placed(s'[x])
      {
        TakenParts(s, k, n, t, a, x);
      }
      forall i, j | 0 <= i < |s'| && 0 <= j < |s'| && i != j && IsConventional(s'[i])
        ensures Apart(s'[i], s'[j])
      {
        TakenApart(s, k, n, t, a, s', i, j);
      }
    }
  }

  /** Allocation never makes a page free: a page free afterwards was free before. */
  lemma FreeOnlyShrinks(s: seq<Descriptor>, n: nat, t: MemoryType, a: u64, s': seq<Descriptor>, base: u64, p: int)
    requires PlacedTable(s) && FindSpaceResult(s, n, t, a, s', base) && t != EfiConventionalMemory
    requires Free(s', p)
    ensures Free(s, p)
  {
    var i :| 0 <= i < |s'| && IsConventional(s'[i]) && Covers(s'[i], p);
    if k: nat :| IsPick(s, n, Horizon(s), k) && (s', base) == TakeTop(s, k, n, t, a) {
      assert i < |s| && IsConventional(s[i]) && Covers(s[i], p);
    }
  }

  /** Every page handed out was free, and no descriptor of the new table leaves it free. */
  lemma AllocatedWasFree(s: seq<Descriptor>, n: nat, t: MemoryType, a: u64, s': seq<Descriptor>, base: u64, p: int)
    requires PlacedTable(s) && Exclusive(s) && FindSpaceResult(s, n, t, a, s', base) && base != 0
    requires t != EfiConventionalMemory
    requires base / PAGE_SIZE <= p < base / PAGE_SIZE + n
    ensures Free(s, p) && !Free(s', p)
  {
    var k := PickedEntry(s, n, t, a, s', base);
    assert Covers(s[k], p);
    forall i | 0 <= i < |s'| && IsConventional(s'[i])
      ensures !Covers(s'[i], p)
    {
      if i < |s| && i != k {
        assert IsConventional(s[i]) && Apart(s[i], s[k]);
      }
    }
  }

  /** The entry ends above 1 MB. An end at 2^64 is taken for zero. */
  predicate ReachesUp(d: Descriptor) {
    0x10_0000 < d.PhysicalStart + d.NumberOfPages * 0x1000 < 0x1_0000_0000_0000_0000
  }

  /** An entry that n pages may be taken from: conventional memory (type 7) of that size which ends above
      1 MB and at or below 4 GB. */
  predicate Serves(d: Descriptor, n: nat) {
    && d.Type == 7 && d.NumberOfPages >= n && d.PhysicalStart > 0
    && 0x10_0000 < d.PhysicalStart + d.NumberOfPages * 0x1000 <= 0x1_0000_0000
  }

  /** It lies before the first runtime entry (types 5 and 6) that ends above 1 MB. */
  ghost predicate Candidate(s: seq<Descriptor>, n: nat, j: nat) {
    && j < |s| && Serves(s[j], n)
    && forall i :: 0 <= i < j && s[i].Type in {5, 6} ==> !ReachesUp(s[i])
  }

  lemma EntryInNumbers(d: Descriptor, n: nat)
    requires Placed(d)
    ensures EndsScan(d) <==> d.Type in {5, 6} && ReachesUp(d)
    ensures Eligible(d, n) <==> Serves(d, n)
  {
    var bytes := d.NumberOfPages * 0x1000;
    assert d.NumberOfPages < TWO_64 / PAGE_SIZE ==> PagesToBytes(d.NumberOfPages) == bytes;
    assert d.PhysicalStart + bytes < TWO_64 ==> End64(d) == d.PhysicalStart + bytes;
    assert d.PhysicalStart + bytes == TWO_64 ==> End64(d) == 0;
  }

  lemma CandidateIff(s: seq<Descriptor>, n: nat, j: nat)
    requires PlacedTable(s) && j < |s|
    ensures Candidate(s, n, j) <==> j < Horizon(s) && Eligible(s[j], n)
  {
    EntryInNumbers(s[j], n);
    forall i | 0 <= i < |s|
      ensures EndsScan(s[i]) <==> s[i].Type in {5, 6} && ReachesUp(s[i])
    {
      EntryInNumbers(s[i], n);
    }
    if Horizon(s) < j {
      assert EndsScan(s[Horizon(s)]);
    }
  }

  /** The pages handed out are the top n pages of the candidate that starts highest; without a candidate
      the address is zero. */
  lemma HighestCandidate(s: seq<Descriptor>, n: nat, t: MemoryType, a: u64, s': seq<Descriptor>, base: u64)
    requires PlacedTable(s) && FindSpaceResult(s, n, t, a, s', base)
    ensures base == 0 <==> forall j :: 0 <= j < |s| ==> !Candidate(s, n, j)
    ensures base != 0 ==>
              exists k :: && 0 <= k < |s| && Candidate(s, n, k)
                          && base == s[k].PhysicalStart + (s[k].NumberOfPages - n) * 0x1000
                          && forall j :: 0 <= j < |s| && Candidate(s, n, j) ==> s[j].PhysicalStart <= s[k].PhysicalStart
  {
    forall j | 0 <= j < |s|
      ensures Candidate(s, n, j) <==> j < Horizon(s) && Eligible(s[j], n)
    {
      CandidateIff(s, n, j);
    }
    FailsIffNoneEligible(s, n, t, a, s', base);
    if base != 0 {
      var k := PickedEntry(s, n, t, a, s', base);
      TopPages(s[k], n, base);
      assert Candidate(s, n, k);
    }
  }

  lemma TopPages(d: Descriptor, n: nat, base: nat)
    requires Placed(d) && n <= d.NumberOfPages && base == (PageEnd(d) - n) * PAGE_SIZE
    ensures base == d.PhysicalStart + (d.NumberOfPages - n) * 0x1000
  {
  }

  // ---------------------------------------------------------------------
  // Successive allocations
  // ---------------------------------------------------------------------

  datatype Request = Request(NoPages: nat, Type: MemoryType, Attribute: u64)

  function Total(rs: seq<Request>): nat {
    if rs == [] then 0 else Total(rs[..|rs| - 1]) + rs[|rs| - 1].NoPages
  }

  /** The tables and addresses of a run of FindSpace calls. */
  ghost predicate AllocationRun(ts: seq<seq<Descriptor>>, rs: seq<Request>, bases: seq<u64>) {
    && |ts| == |rs| + 1
    && |bases| == |rs|
    && forall i :: 0 <= i < |rs| ==>
         FindSpaceResult(ts[i], rs[i].NoPages, rs[i].Type, rs[i].Attribute, ts[i + 1], bases[i])
  }

  /** Entry k starts higher than every other entry that could serve one of the requests. */
  ghost predicate StaysHighest(s: seq<Descriptor>, k: nat, rs: seq<Request>) {
    && k < Horizon(s)
    && IsConventional(s[k])
    && ONE_MB <= s[k].PhysicalStart
    && PageEnd(s[k]) * PAGE_SIZE <= FOUR_GB
    && forall i, j :: 0 <= i < |rs| && 0 <= j < Horizon(s) && j != k && Eligible(s[j], rs[i].NoPages)
         ==> s[j].PhysicalStart < s[k].PhysicalStart
  }

  /** The table s is s0 with `used` pages taken off the top of entry k, and with allocations appended. */
  ghost predicate TakenFrom(s0: seq<Descriptor>, k: nat, used: nat, s: seq<Descriptor>)
    requires k < |s0| && used <= s0[k].NumberOfPages
  {
    && |s0| <= |s|
    && s[k] == s0[k].(NumberOfPages := s0[k].NumberOfPages - used)
    && (forall j :: 0 <= j < |s0| && j != k ==> s[j] == s0[j])
    && (forall j :: |s0| <= j < |s| ==> !IsConventional(s[j]))
  }

  lemma HorizonOfTaken(s0: seq<Descriptor>, k: nat, used: nat, s: seq<Descriptor>)
    requires k < Horizon(s0) && IsConventional(s0[k]) && used <= s0[k].NumberOfPages && TakenFrom(s0, k, used, s)
    ensures Horizon(s) >= Horizon(s0)
    ensures Horizon(s0) < |s0| ==> Horizon(s) == Horizon(s0)
  {
    forall j | 0 <= j < Horizon(s0)
      ensures !EndsScan(s[j])
    {
      assert !EndsScan(s0[j]);
    }
    if Horizon(s0) < |s0| {
      HorizonUnique(s, Horizon(s0));
    }
  }

  lemma EndExact(d: Descriptor)
    requires Placed(d) && PageEnd(d) * PAGE_SIZE <= FOUR_GB
    ensures End64(d) == PageEnd(d) * PAGE_SIZE == d.PhysicalStart + d.NumberOfPages * PAGE_SIZE
  {
  }

  lemma StillEligible(s0: seq<Descriptor>, k: nat, used: nat, s: seq<Descriptor>, rs: seq<Request>, i: nat)
    requires PlacedTable(s0) && StaysHighest(s0, k, rs) && i < |rs|
    requires used + rs[i].NoPages <= s0[k].NumberOfPages && used < s0[k].NumberOfPages
    requires TakenFrom(s0, k, used, s)
    ensures Placed(s[k]) && Eligible(s[k], rs[i].NoPages)
  {
    LowerPart(s0[k], used, s[k]);
    EndExact(s[k]);
  }

  /** Entry k is still the one FindSpace picks. */
  lemma StillPicked(s0: seq<Descriptor>, k: nat, used: nat, s: seq<Descriptor>, rs: seq<Request>, i: nat)
    requires PlacedTable(s0) && StaysHighest(s0, k, rs) && i < |rs|
    requires used + rs[i].NoPages <= s0[k].NumberOfPages && used < s0[k].NumberOfPages
    requires TakenFrom(s0, k, used, s)
    ensures Placed(s[k]) && Eligible(s[k], rs[i].NoPages)
    ensures k < Horizon(s) && IsPick(s, rs[i].NoPages, Horizon(s), k)
  {
    var n := rs[i].NoPages;
    HorizonOfTaken(s0, k, used, s);
    StillEligible(s0, k, used, s, rs, i);
    forall j | 0 <= j < Horizon(s) && j != k && Eligible(s[j], n)
      ensures s[j].PhysicalStart < s[k].PhysicalStart
    {
      assert j < |s0| && s[j] == s0[j];
    }
  }

  /** The entry picked serves the request. */
  lemma ServedBy(s: seq<Descriptor>, k: nat, n: nat, t: MemoryType, a: u64, s': seq<Descriptor>, base: u64)
    requires k < Horizon(s) && IsPick(s, n, Horizon(s), k) && FindSpaceResult(s, n, t, a, s', base)
    ensures (s', base) == TakeTop(s, k, n, t, a)
  {
    if j: nat :| IsPick(s, n, Horizon(s), j) && (s', base) == TakeTop(s, j, n, t, a) {
      PickUnique(s, n, Horizon(s), j, k);
    }
  }

  /** Taking more pages off the top of entry k. */
  lemma TakesMore(s0: seq<Descriptor>, k: nat, used: nat, s: seq<Descriptor>, n: nat, t: MemoryType, a: u64)
    requires k < |s0| && used + n < s0[k].NumberOfPages && TakenFrom(s0, k, used, s) && t != EfiConventionalMemory
    ensures TakenFrom(s0, k, used + n, TakeTop(s, k, n, t, a).0)
  {
  }

  /** The next request is served from the top of what is left of entry k. */
  lemma TakeNext(s0: seq<Descriptor>, k: nat, used: nat, s: seq<Descriptor>, rs: seq<Request>, i: nat,
                 s': seq<Descriptor>, base: u64)
    requires PlacedTable(s0) && StaysHighest(s0, k, rs) && i < |rs|
    requires used + rs[i].NoPages <= s0[k].NumberOfPages && used < s0[k].NumberOfPages
    requires TakenFrom(s0, k, used, s)
    requires FindSpaceResult(s, rs[i].NoPages, rs[i].Type, rs[i].Attribute, s', base)
    requires rs[i].Type != EfiConventionalMemory
    ensures base == (PageEnd(s0[k]) - used - rs[i].NoPages) * PAGE_SIZE
    ensures used + rs[i].NoPages < s0[k].NumberOfPages ==> TakenFrom(s0, k, used + rs[i].NoPages, s')
  {
    var n, t, a := rs[i].NoPages, rs[i].Type, rs[i].Attribute;
    StillPicked(s0, k, used, s, rs, i);
    ServedBy(s, k, n, t, a, s', base);
    TakenRange(s, k, n, t, a);
    assert First(s[k]) == First(s0[k]);
    if used + n < s0[k].NumberOfPages {
      TakesMore(s0, k, used, s, n, t, a);
    }
  }

  /** While one descriptor stays the highest eligible one and has pages left, the allocations
      stack downward from its end without gaps. */
  lemma {:induction false} StackDownward(ts: seq<seq<Descriptor>>, rs: seq<Request>, bases: seq<u64>, k: nat, i: nat)
    requires AllocationRun(ts, rs, bases) && i < |rs|
    requires PlacedTable(ts[0]) && StaysHighest(ts[0], k, rs)
    requires forall j :: 0 <= j < |rs| ==> rs[j].Type != EfiConventionalMemory
    requires Total(rs[..i + 1]) <= ts[0][k].NumberOfPages && Total(rs[..i]) < ts[0][k].NumberOfPages
    ensures TakenFrom(ts[0], k, Total(rs[..i]), ts[i])
    ensures bases[i] == (PageEnd(ts[0][k]) - Total(rs[..i + 1])) * PAGE_SIZE
    ensures i > 0 ==> bases[i] + rs[i].NoPages * PAGE_SIZE == bases[i - 1]
    ensures i == 0 ==> bases[i] + rs[i].NoPages * PAGE_SIZE == PageEnd(ts[0][k]) * PAGE_SIZE
  {
    assert rs[..i + 1][..i] == rs[..i];
    if i > 0 {
      assert rs[..i][..i - 1] == rs[..i - 1];
      StackDownward(ts, rs, bases, k, i - 1);
      TakeNext(ts[0], k, Total(rs[..i - 1]), ts[i - 1], rs, i - 1, ts[i], bases[i - 1]);
    }
    TakeNext(ts[0], k, Total(rs[..i]), ts[i], rs, i, ts[i + 1], bases[i]);
  }
}
