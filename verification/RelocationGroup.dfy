/** Relocating an image is a group action of the adjustments: what follows from applying the
    relocations of one directory more than once. */
module RelocationGroup {
  import opened Words
  import opened Cells
  import opened PeRelocation

  ghost predicate TargetsApart(fs: seq<Fixup>) {
    forall i, j :: 0 <= i < j < |fs| && Width(fs[i]) > 0 && Width(fs[j]) > 0 ==>
      fs[i].Offset + Width(fs[i]) <= fs[j].Offset || fs[j].Offset + Width(fs[j]) <= fs[i].Offset
  }

  ghost predicate HasHigh(fs: seq<Fixup>) { exists i :: 0 <= i < |fs| && fs[i].Kind == REL_BASED_HIGH }

  ghost predicate InTarget(f: Fixup, k: int) { f.Offset <= k < f.Offset + Width(f) }

  function CellOf(b: seq<u8>, f: Fixup): nat
    requires InImage(f, |b|)
  {
    Cell(b, f.Offset, Width(f))
  }

  /** What one entry makes of the value of its cell. */
  function Moved(f: Fixup, v: nat, adjust: u64): nat { (v + Delta(f, adjust)) % Radix(Width(f)) }

  ghost predicate Separate(f: Fixup, g: Fixup) { Misses(f, g.Offset, g.Offset + Width(g)) }

  lemma PatchMoves(b: seq<u8>, f: Fixup, adjust: u64)
    requires InImage(f, |b|) && Width(f) > 0
    ensures CellOf(Patch(b, f, adjust), f) == Moved(f, CellOf(b, f), adjust)
  {
    CellOfSet(b, f.Offset, Width(f), Moved(f, CellOf(b, f), adjust));
  }

  lemma PatchKeeps(b: seq<u8>, f: Fixup, adjust: u64, g: Fixup)
    requires InImage(f, |b|) && InImage(g, |b|) && Separate(f, g)
    ensures CellOf(Patch(b, f, adjust), g) == CellOf(b, g)
  {
    PatchMiss(b, f, adjust, g.Offset, g.Offset + Width(g));
  }

  lemma PatchAllKeeps(b: seq<u8>, fs: seq<Fixup>, adjust: u64, g: Fixup)
    requires AllInImage(fs, |b|) && InImage(g, |b|) && forall i :: 0 <= i < |fs| ==> Separate(fs[i], g)
    ensures CellOf(PatchAll(b, fs, adjust), g) == CellOf(b, g)
  {
    PatchMisses(b, fs, adjust, g.Offset, g.Offset + Width(g));
  }

  /** Each target moves by its own entry, once. */
  lemma {:induction false} TargetMoves(b: seq<u8>, fs: seq<Fixup>, adjust: u64, i: nat)
    requires AllInImage(fs, |b|) && TargetsApart(fs) && i < |fs| && Width(fs[i]) > 0
    ensures CellOf(PatchAll(b, fs, adjust), fs[i]) == Moved(fs[i], CellOf(b, fs[i]), adjust)
  {
    var n := |fs| - 1;
    var before, f := fs[..n], fs[n];
    var c := PatchAll(b, before, adjust);
    if i < n {
      TargetMoves(b, before, adjust, i);
      PatchKeeps(c, f, adjust, fs[i]);
    } else {
      forall j | 0 <= j < n
        ensures Separate(before[j], f)
      {
        assert fs[j] == before[j];
      }
      PatchAllKeeps(b, before, adjust, f);
      PatchMoves(c, f, adjust);
    }
  }

  /** Bytes outside every target keep their value. */
  lemma ByteStays(b: seq<u8>, fs: seq<Fixup>, adjust: u64, k: nat)
    requires AllInImage(fs, |b|) && k < |b|
    requires forall i :: 0 <= i < |fs| ==> !InTarget(fs[i], k)
    ensures PatchAll(b, fs, adjust)[k] == b[k]
  {
    forall i | 0 <= i < |fs|
      ensures Misses(fs[i], k, k + 1)
    {
      assert !InTarget(fs[i], k);
    }
    PatchMisses(b, fs, adjust, k, k + 1);
    assert PatchAll(b, fs, adjust)[k] == PatchAll(b, fs, adjust)[k..k + 1][0] == b[k..k + 1][0];
  }

  /** A byte of a target on which two images agree. */
  lemma SameInTarget(b: seq<u8>, c: seq<u8>, f: Fixup, k: nat)
    requires |b| == |c| && InImage(f, |b|) && InTarget(f, k) && CellOf(b, f) == CellOf(c, f)
    ensures b[k] == c[k]
  {
    var o, w := f.Offset, Width(f);
    CellBytes(b, c, o, w);
    assert b[k] == b[o..o + w][k - o] == c[o..o + w][k - o] == c[k];
  }

  /** Two images that agree on every target and outside all targets are equal. */
  lemma SameImage(b: seq<u8>, c: seq<u8>, fs: seq<Fixup>)
    requires |b| == |c| && AllInImage(fs, |b|)
    requires forall i :: 0 <= i < |fs| && Width(fs[i]) > 0 ==> CellOf(b, fs[i]) == CellOf(c, fs[i])
    requires forall k :: 0 <= k < |b| && (forall i :: 0 <= i < |fs| ==> !InTarget(fs[i], k)) ==> b[k] == c[k]
    ensures b == c
  {
    forall k | 0 <= k < |b|
      ensures b[k] == c[k]
    {
      if i :| 0 <= i < |fs| && InTarget(fs[i], k) {
        SameInTarget(b, c, fs[i], k);
      }
    }
  }

  // Modular arithmetic at the word sizes

  lemma Mod16(x: nat, y: nat)
    ensures (x % TWO_16 + y) % TWO_16 == (x + y) % TWO_16
  {
    assert x + y == x / TWO_16 * TWO_16 + (x % TWO_16 + y);
  }

  lemma Mod32(x: nat, y: nat)
    ensures (x % TWO_32 + y) % TWO_32 == (x + y) % TWO_32
  {
    assert x + y == x / TWO_32 * TWO_32 + (x % TWO_32 + y);
  }

  lemma Nested32(x: nat)
    ensures x % TWO_64 % TWO_32 == x % TWO_32
  {
  }

  lemma Nested16(x: nat)
    ensures x % TWO_32 % TWO_16 == x % TWO_16
    ensures x % TWO_64 % TWO_16 == x % TWO_16
  {
    assert x == x / TWO_32 * TWO_16 * TWO_16 + x % TWO_32;
    SameLow(x % TWO_32, x / TWO_32 * TWO_16);
    assert x == x / TWO_64 * (TWO_32 * TWO_16) * TWO_16 + x % TWO_64;
    SameLow(x % TWO_64, x / TWO_64 * (TWO_32 * TWO_16));
  }

  lemma SameLow(r: nat, q: nat)
    ensures (q * TWO_16 + r) % TWO_16 == r % TWO_16
  {
  }

  lemma LowAddsUp(v: nat, a: u64, b: u64)
    ensures ((v + a % TWO_16) % TWO_16 + b % TWO_16) % TWO_16 == (v + Add64(a, b) % TWO_16) % TWO_16
  {
    var x, y := a % TWO_16, b % TWO_16;
    Mod16(v + x, y);
    Nested16(a + b);
    Mod16(a + b, v);
    Mod16(a, b + v);
    Mod16(b, x + v);
  }

  lemma HighLowAddsUp(v: nat, a: u64, b: u64)
    ensures ((v + a % TWO_32) % TWO_32 + b % TWO_32) % TWO_32 == (v + Add64(a, b) % TWO_32) % TWO_32
  {
    var x, y := a % TWO_32, b % TWO_32;
    Mod32(v + x, y);
    Nested32(a + b);
    Mod32(a + b, v);
    Mod32(a, b + v);
    Mod32(b, x + v);
  }

  /** The high half of a sum is the sum of the high halves and the carry. */
  lemma HighHalf(a: u64, b: u64)
    ensures Add64(a, b) % TWO_32 / TWO_16
            == (a % TWO_32 / TWO_16 + b % TWO_32 / TWO_16 + (a % TWO_16 + b % TWO_16) / TWO_16) % TWO_16
  {
    var x, y := a % TWO_32, b % TWO_32;
    Nested32(a + b);
    Mod32(a, b);
    Mod32(b, x);
    assert Add64(a, b) % TWO_32 == (x + y) % TWO_32;
    Nested16(a);
    Nested16(b);
    SmallHighHalf(x, y);
  }

  lemma DivideSum(high: nat, low: nat)
    ensures (high * TWO_16 + low) / TWO_16 == high + low / TWO_16
  {
  }

  lemma HighOfLow32(s: nat)
    ensures s % TWO_32 / TWO_16 == s / TWO_16 % TWO_16
  {
    var q, r := s / TWO_32, s % TWO_32;
    DivideSum(q * TWO_16, r);
    assert s == q * TWO_16 * TWO_16 + r;
    SameLow(r / TWO_16, q);
  }

  lemma SmallHighHalf(x: u32, y: u32)
    ensures (x + y) % TWO_32 / TWO_16 == (x / TWO_16 + y / TWO_16 + (x % TWO_16 + y % TWO_16) / TWO_16) % TWO_16
  {
    HighOfLow32(x + y);
    var high, low := x / TWO_16 + y / TWO_16, x % TWO_16 + y % TWO_16;
    DivideSum(high, low);
    assert x + y == high * TWO_16 + low;
  }

  lemma HighAddsUp(v: nat, a: u64, b: u64)
    ensures ((v + a % TWO_32 / TWO_16) % TWO_16 + b % TWO_32 / TWO_16) % TWO_16 == (v + Add64(a, b) % TWO_32 / TWO_16) % TWO_16
            <==> a % TWO_16 + b % TWO_16 < TWO_16
  {
    var ah, bh := a % TWO_32 / TWO_16, b % TWO_32 / TWO_16;
    var carry := (a % TWO_16 + b % TWO_16) / TWO_16;
    HighHalf(a, b);
    Mod16(v + ah, bh);
    Mod16(ah + bh + carry, v);
    CarryShows(v + ah + bh, carry);
  }

  lemma CarryShows(x: nat, carry: nat)
    requires carry <= 1
    ensures x % TWO_16 == (x + carry) % TWO_16 <==> carry == 0
  {
  }

  /** Moved with the modulus of each kind of cell written out. */
  function MovedBy(kind: nat, v: nat, a: u64): nat {
    if kind == REL_BASED_HIGH then (v + a % TWO_32 / TWO_16) % TWO_16
    else if kind == REL_BASED_LOW then (v + a % TWO_16) % TWO_16
    else if kind == REL_BASED_HIGHLOW then (v + a % TWO_32) % TWO_32
    else (v + a) % TWO_64
  }

  lemma MovedIs(f: Fixup, v: nat, a: u64)
    requires Width(f) > 0
    ensures Moved(f, v, a) == MovedBy(f.Kind, v, a)
  {
    RadixValues();
  }

  lemma MovedInNumbers(kind: nat, v: nat, adjust: u64)
    requires kind in {1, 2, 3, 10}
    ensures MovedBy(kind, v, adjust)
            == if kind == 10 then (v + adjust) % 0x1_0000_0000_0000_0000
               else if kind == 3 then (v + adjust) % 0x1_0000_0000
               else if kind == 2 then (v + adjust) % 0x1_0000
               else (v + adjust % 0x1_0000_0000 / 0x1_0000) % 0x1_0000
  {
    if kind == 3 {
      Mod32(adjust, v);
    } else if kind == 2 {
      Mod16(adjust, v);
    }
  }

  lemma {:induction false} TargetCell(b: seq<u8>, fs: seq<Fixup>, adjust: u64, i: nat, o: nat, w: nat, c: seq<u8>)
    requires AllInImage(fs, |b|) && TargetsApart(fs) && i < |fs| && o == fs[i].Offset && c == PatchAll(b, fs, adjust)
    requires w == Width(fs[i]) > 0
    ensures o + w <= |b| && Cell(c, o, w) == MovedBy(fs[i].Kind, Cell(b, o, w), adjust)
  {
    TargetMoves(b, fs, adjust, i);
    MovedIs(fs[i], CellOf(b, fs[i]), adjust);
  }

  /** What relocating by `adjust` leaves where entry i points: kind 10 has moved eight bytes by it, kind 3
      four, kind 2 two, and kind 1 two by the upper half of its low 32 bits. */
  lemma {:induction false} TargetValue(b: seq<u8>, fs: seq<Fixup>, adjust: u64, i: nat, o: nat, c: seq<u8>)
    requires AllInImage(fs, |b|) && TargetsApart(fs) && i < |fs| && o == fs[i].Offset && c == PatchAll(b, fs, adjust)
    ensures fs[i].Kind == 10 ==>
              o + 8 <= |b| && Cell(c, o, 8) == (Cell(b, o, 8) + adjust) % 0x1_0000_0000_0000_0000
    ensures fs[i].Kind == 3 ==> o + 4 <= |b| && Cell(c, o, 4) == (Cell(b, o, 4) + adjust) % 0x1_0000_0000
    ensures fs[i].Kind == 2 ==> o + 2 <= |b| && Cell(c, o, 2) == (Cell(b, o, 2) + adjust) % 0x1_0000
    ensures fs[i].Kind == 1 ==>
              o + 2 <= |b| && Cell(c, o, 2) == (Cell(b, o, 2) + adjust % 0x1_0000_0000 / 0x1_0000) % 0x1_0000
  {
    if fs[i].Kind in {1, 2, 3, 10} {
      TargetCell(b, fs, adjust, i, o, Width(fs[i]), c);
      MovedInNumbers(fs[i].Kind, Cell(b, o, Width(fs[i])), adjust);
    }
  }

  lemma Rebased64(v: nat, w: nat, adjust: u64, linked: u64, base: u64, x: nat)
    requires linked + adjust == base || linked + adjust == base + TWO_64
    requires w == (v + adjust) % 0x1_0000_0000_0000_0000 && v == (linked + x) % 0x1_0000_0000_0000_0000
    ensures w == (base + x) % 0x1_0000_0000_0000_0000
  {
  }

  lemma Rebased32(v: nat, w: nat, adjust: u64, linked: u64, base: u64, x: nat)
    requires linked + adjust == base || linked + adjust == base + TWO_64
    requires w == (v + adjust) % 0x1_0000_0000 && v == (linked + x) % 0x1_0000_0000
    ensures w == (base + x) % 0x1_0000_0000
  {
    Mod32(linked + x, adjust);
  }

  /** A 64-bit pointer moves from one base to another. */
  lemma PointerMoves(b: seq<u8>, fs: seq<Fixup>, adjust: u64, linked: u64, base: u64, i: nat, o: nat, x: nat, c: seq<u8>)
    requires AllInImage(fs, |b|) && TargetsApart(fs) && c == PatchAll(b, fs, adjust)
    requires i < |fs| && fs[i].Kind == 10 && o == fs[i].Offset
    requires linked + adjust == base || linked + adjust == base + TWO_64
    ensures o + 8 <= |b|
    ensures Cell(b, o, 8) == (linked + x) % 0x1_0000_0000_0000_0000 ==>
              Cell(c, o, 8) == (base + x) % 0x1_0000_0000_0000_0000
  {
    TargetValue(b, fs, adjust, i, o, c);
    if Cell(b, o, 8) == (linked + x) % 0x1_0000_0000_0000_0000 {
      Rebased64(Cell(b, o, 8), Cell(c, o, 8), adjust, linked, base, x);
    }
  }

  lemma NarrowPointerMoves(b: seq<u8>, fs: seq<Fixup>, adjust: u64, linked: u64, base: u64, i: nat, o: nat, x: nat,
                           c: seq<u8>)
    requires AllInImage(fs, |b|) && TargetsApart(fs) && c == PatchAll(b, fs, adjust)
    requires i < |fs| && fs[i].Kind == 3 && o == fs[i].Offset
    requires linked + adjust == base || linked + adjust == base + TWO_64
    ensures o + 4 <= |b|
    ensures Cell(b, o, 4) == (linked + x) % 0x1_0000_0000 ==> Cell(c, o, 4) == (base + x) % 0x1_0000_0000
  {
    TargetValue(b, fs, adjust, i, o, c);
    if Cell(b, o, 4) == (linked + x) % 0x1_0000_0000 {
      Rebased32(Cell(b, o, 4), Cell(c, o, 4), adjust, linked, base, x);
    }
  }

  /** The entry points at byte k, by its kind. */
  predicate PointsAt(f: Fixup, k: int) {
    || (f.Kind == 10 && f.Offset <= k < f.Offset + 8)
    || (f.Kind == 3 && f.Offset <= k < f.Offset + 4)
    || ((f.Kind == 2 || f.Kind == 1) && f.Offset <= k < f.Offset + 2)
  }

  /** No other byte changes. */
  lemma OthersKept(b: seq<u8>, fs: seq<Fixup>, adjust: u64, k: nat)
    requires AllInImage(fs, |b|) && k < |b| && forall i :: 0 <= i < |fs| ==> !PointsAt(fs[i], k)
    ensures PatchAll(b, fs, adjust)[k] == b[k]
  {
    forall i | 0 <= i < |fs|
      ensures !InTarget(fs[i], k)
    {
      assert !PointsAt(fs[i], k);
    }
    ByteStays(b, fs, adjust, k);
  }

  lemma Dir64AddsUp(v: nat, a: u64, b: u64)
    ensures ((v + a) % TWO_64 + b) % TWO_64 == (v + Add64(a, b)) % TWO_64
  {
    assert v + a == (v + a) / TWO_64 * TWO_64 + (v + a) % TWO_64;
    assert a + b == (a + b) / TWO_64 * TWO_64 + (a + b) % TWO_64;
  }

  lemma KindsAddUp(kind: nat, v: nat, a: u64, b: u64)
    ensures kind != REL_BASED_HIGH || a % TWO_16 + b % TWO_16 < TWO_16
            <==> MovedBy(kind, MovedBy(kind, v, a), b) == MovedBy(kind, v, Add64(a, b))
  {
    if kind == REL_BASED_LOW {
      LowAddsUp(v, a, b);
    } else if kind == REL_BASED_HIGHLOW {
      HighLowAddsUp(v, a, b);
    } else if kind == REL_BASED_HIGH {
      HighAddsUp(v, a, b);
    } else {
      Dir64AddsUp(v, a, b);
    }
  }

  /** Adjustments add up on one cell, except that a HIGH cell loses the carry of the low halves. */
  lemma MovesAddUp(f: Fixup, v: nat, a: u64, b: u64)
    requires Width(f) > 0
    ensures f.Kind != REL_BASED_HIGH || a % TWO_16 + b % TWO_16 < TWO_16
            <==> Moved(f, Moved(f, v, a), b) == Moved(f, v, Add64(a, b))
  {
    MovedIs(f, v, a);
    MovedIs(f, Moved(f, v, a), b);
    MovedIs(f, v, Add64(a, b));
    KindsAddUp(f.Kind, v, a, b);
  }

  /** Relocating by a and then by b is relocating by a + b, exactly when there is no HIGH entry
      or the low halves of a and b add up without a carry. */
  lemma AdjustmentsAddUp(m: seq<u8>, fs: seq<Fixup>, a: u64, b: u64)
    requires AllInImage(fs, |m|) && TargetsApart(fs)
    ensures PatchAll(PatchAll(m, fs, a), fs, b) == PatchAll(m, fs, Add64(a, b))
            <==> !HasHigh(fs) || a % TWO_16 + b % TWO_16 < TWO_16
  {
    var twice, once := PatchAll(PatchAll(m, fs, a), fs, b), PatchAll(m, fs, Add64(a, b));
    forall i | 0 <= i < |fs| && Width(fs[i]) > 0
      ensures CellOf(twice, fs[i]) == CellOf(once, fs[i])
              <==> fs[i].Kind != REL_BASED_HIGH || a % TWO_16 + b % TWO_16 < TWO_16
    {
      TargetMoves(m, fs, a, i);
      TargetMoves(PatchAll(m, fs, a), fs, b, i);
      TargetMoves(m, fs, Add64(a, b), i);
      MovesAddUp(fs[i], CellOf(m, fs[i]), a, b);
    }
    forall k | 0 <= k < |m| && (forall i :: 0 <= i < |fs| ==> !InTarget(fs[i], k))
      ensures twice[k] == once[k]
    {
      ByteStays(m, fs, a, k);
      ByteStays(PatchAll(m, fs, a), fs, b, k);
      ByteStays(m, fs, Add64(a, b), k);
    }
    if !HasHigh(fs) || a % TWO_16 + b % TWO_16 < TWO_16 {
      SameImage(twice, once, fs);
    } else {
      var i :| 0 <= i < |fs| && fs[i].Kind == REL_BASED_HIGH;
      assert CellOf(twice, fs[i]) != CellOf(once, fs[i]);
    }
  }

  /** Relocating by zero changes nothing. */
  lemma {:induction false} ZeroIsIdentity(m: seq<u8>, fs: seq<Fixup>)
    requires AllInImage(fs, |m|)
    ensures PatchAll(m, fs, 0) == m
  {
    if fs != [] {
      ZeroIsIdentity(m, fs[..|fs| - 1]);
      PatchZero(m, fs[|fs| - 1]);
    }
  }

  lemma PatchZero(m: seq<u8>, f: Fixup)
    requires InImage(f, |m|)
    ensures Patch(m, f, 0) == m
  {
    if Width(f) > 0 {
      assert Delta(f, 0) == 0;
      KeepSmall(CellOf(m, f), Radix(Width(f)));
      SetSame(m, f.Offset, Width(f));
    }
  }

  lemma SetSame(m: seq<u8>, o: nat, w: nat)
    requires o + w <= |m|
    ensures SetCell(m, o, w, Cell(m, o, w)) == m
  {
    EncodeDecode(m[o..o + w]);
    Reassembled(m, o, o + w);
  }

  lemma Reassembled(m: seq<u8>, lo: nat, hi: nat)
    requires lo <= hi <= |m|
    ensures m[..lo] + m[lo..hi] + m[hi..] == m
  {
  }

  lemma KeepSmall(v: nat, m: nat)
    requires v < m
    ensures v % m == v
  {
  }

  // ---------------------------------------------------------------------
  // Whole images
  // ---------------------------------------------------------------------

  /** The directory reads the same in two images that agree on it. */
  lemma {:induction false} SameEntries(b: seq<u8>, c: seq<u8>, lo: nat, hi: nat, pos: nat, stop: nat, va: nat)
    requires |b| == |c| && hi <= |b| && lo <= pos && stop <= hi && (pos < stop ==> (stop - pos) % 2 == 0)
    requires lo <= hi && b[lo..hi] == c[lo..hi]
    ensures Entries(b, pos, stop, va) == Entries(c, pos, stop, va)
    decreases stop - pos
  {
    if pos < stop {
      SameCell(b, c, lo, hi, pos, 2);
      assert EntryAt(b, pos, va) == EntryAt(c, pos, va);
      SameEntries(b, c, lo, hi, pos + 2, stop, va);
    }
  }

  lemma SameHeader(b: seq<u8>, c: seq<u8>, lo: nat, hi: nat, pos: nat)
    requires |b| == |c| && lo <= pos && pos + 8 <= hi <= |b| && b[lo..hi] == c[lo..hi]
    ensures BlockVA(b, pos) == BlockVA(c, pos) && BlockSize(b, pos) == BlockSize(c, pos)
  {
    SameCell(b, c, lo, hi, pos, 4);
    SameCell(b, c, lo, hi, pos + 4, 4);
  }

  lemma {:induction false} SameDirectory(b: seq<u8>, c: seq<u8>, lo: nat, hi: nat, pos: nat)
    requires |b| == |c| && lo <= pos && lo <= hi && Tiled(b, pos, hi) && b[lo..hi] == c[lo..hi]
    ensures Tiled(c, pos, hi) && AllEntries(c, pos, hi) == AllEntries(b, pos, hi)
    decreases hi - pos
  {
    if pos < hi {
      SameHeader(b, c, lo, hi, pos);
      var next := pos + BlockSize(b, pos);
      if next < |b| {
        SameEntries(b, c, lo, hi, pos + SIZEOF_BASE_RELOCATION, next, BlockVA(b, pos));
        SameDirectory(b, c, lo, hi, next);
      }
    }
  }

  /** The image the loader leaves when it relocates m by adjust. */
  function Relocated(m: seq<u8>, start: nat, end: nat, adjust: u64): seq<u8>
    requires Relocatable(m, start, end)
  {
    PatchAll(m, Handled(AllEntries(m, start, end)), adjust)
  }

  /** A relocated image has the same directory, and can be relocated again. */
  lemma RelocatableAgain(m: seq<u8>, start: nat, end: nat, adjust: u64)
    requires Relocatable(m, start, end)
    ensures var c := Relocated(m, start, end, adjust);
            Relocatable(c, start, end) && AllEntries(c, start, end) == AllEntries(m, start, end)
  {
    PatchMisses(m, Handled(AllEntries(m, start, end)), adjust, start, end);
    SameDirectory(m, Relocated(m, start, end, adjust), start, end, start);
  }

  /** Two runs of the loader's relocation add up to one, exactly when no HIGH entry loses a carry. */
  lemma RelocationsAddUp(m: seq<u8>, start: nat, end: nat, a: u64, b: u64)
    requires Relocatable(m, start, end) && TargetsApart(Handled(AllEntries(m, start, end)))
    ensures Relocatable(Relocated(m, start, end, a), start, end)
    ensures Relocated(Relocated(m, start, end, a), start, end, b) == Relocated(m, start, end, Add64(a, b))
            <==> !HasHigh(Handled(AllEntries(m, start, end))) || a % TWO_16 + b % TWO_16 < TWO_16
  {
    RelocatableAgain(m, start, end, a);
    AdjustmentsAddUp(m, Handled(AllEntries(m, start, end)), a, b);
  }

  lemma Negation(a: u64)
    ensures Add64(a, Sub64(0, a)) == 0
    ensures a % TWO_16 + Sub64(0, a) % TWO_16 == if a % TWO_16 == 0 then 0 else TWO_16
  {
    if a > 0 {
      assert Sub64(0, a) == TWO_64 - a;
      LowOfDifference(TWO_32 * TWO_16, a);
    }
  }

  lemma LowOfDifference(n: nat, a: nat)
    requires 0 < a <= n * TWO_16
    ensures (n * TWO_16 - a) % TWO_16 == if a % TWO_16 == 0 then 0 else TWO_16 - a % TWO_16
  {
    var q, r := a / TWO_16, a % TWO_16;
    if r == 0 {
      SameLow(0, n - q);
    } else {
      SameLow(TWO_16 - r, n - q - 1);
    }
  }

  /** Relocating by a and then by -a restores the image, exactly when there is no HIGH entry or
      a is a multiple of 64 KB. */
  lemma RelocationUndone(m: seq<u8>, start: nat, end: nat, a: u64)
    requires Relocatable(m, start, end) && TargetsApart(Handled(AllEntries(m, start, end)))
    ensures Relocatable(Relocated(m, start, end, a), start, end)
    ensures Relocated(Relocated(m, start, end, a), start, end, Sub64(0, a)) == m
            <==> !HasHigh(Handled(AllEntries(m, start, end))) || a % TWO_16 == 0
  {
    RelocationsAddUp(m, start, end, a, Sub64(0, a));
    ZeroIsIdentity(m, Handled(AllEntries(m, start, end)));
    Negation(a);
  }
}
