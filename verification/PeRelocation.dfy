/** Base relocations of a PE image (section 5.6 of the PE/COFF specification, revision 8), as
    EfiLdrPeCoffLoadPeRelocate in DuetPkg/EfiLdr/PeLoader.c applies and logs them, with 64-bit UINTN. */
module PeRelocation {
  import opened Words
  import opened Cells

  const REL_BASED_ABSOLUTE: nat := 0
  const REL_BASED_HIGH: nat := 1
  const REL_BASED_LOW: nat := 2
  const REL_BASED_HIGHLOW: nat := 3
  const REL_BASED_DIR64: nat := 10

  const SIZEOF_BASE_RELOCATION: nat := 8

  /** One relocation entry: its type and the image offset it points at. */
  datatype Fixup = Fixup(Kind: nat, Offset: nat)

  predicate Supported(f: Fixup) {
    f.Kind in {REL_BASED_ABSOLUTE, REL_BASED_HIGH, REL_BASED_LOW, REL_BASED_HIGHLOW, REL_BASED_DIR64}
  }

  /** The bytes an entry patches. */
  function Width(f: Fixup): (w: nat)
    ensures w in {0, 2, 4, 8}
  {
    if f.Kind == REL_BASED_HIGH || f.Kind == REL_BASED_LOW then 2
    else if f.Kind == REL_BASED_HIGHLOW then 4
    else if f.Kind == REL_BASED_DIR64 then 8
    else 0
  }

  /** What an entry adds to its cell. */
  function Delta(f: Fixup, adjust: u64): nat {
    if f.Kind == REL_BASED_HIGH then adjust % TWO_32 / TWO_16
    else if f.Kind == REL_BASED_LOW then adjust % TWO_16
    else if f.Kind == REL_BASED_HIGHLOW then adjust % TWO_32
    else adjust
  }

  predicate InImage(f: Fixup, size: nat) { f.Offset + Width(f) <= size }

  predicate Misses(f: Fixup, lo: nat, hi: nat) { Width(f) == 0 || f.Offset + Width(f) <= lo || hi <= f.Offset }

  /** One entry applied to the image. */
  function Patch(b: seq<u8>, f: Fixup, adjust: u64): (c: seq<u8>)
    requires InImage(f, |b|)
    ensures |c| == |b|
  {
    if Width(f) == 0 then b
    else SetCell(b, f.Offset, Width(f), (Cell(b, f.Offset, Width(f)) + Delta(f, adjust)) % Radix(Width(f)))
  }

  ghost predicate AllInImage(fs: seq<Fixup>, size: nat) { forall i :: 0 <= i < |fs| ==> InImage(fs[i], size) }

  /** A run of entries applied in order. */
  function PatchAll(b: seq<u8>, fs: seq<Fixup>, adjust: u64): (c: seq<u8>)
    requires AllInImage(fs, |b|)
    ensures |c| == |b|
  {
    if fs == [] then b else Patch(PatchAll(b, fs[..|fs| - 1], adjust), fs[|fs| - 1], adjust)
  }

  // ---------------------------------------------------------------------
  // The relocation directory
  // ---------------------------------------------------------------------

  function BlockVA(b: seq<u8>, pos: nat): nat
    requires pos + 8 <= |b|
  {
    Cell(b, pos, 4)
  }

  function BlockSize(b: seq<u8>, pos: nat): nat
    requires pos + 8 <= |b|
  {
    Cell(b, pos + 4, 4)
  }

  /** The blocks tile [pos, end). Only a block that leaves the image may stick out. */
  ghost predicate Tiled(b: seq<u8>, pos: nat, end: nat)
    decreases end - pos
  {
    && end <= |b|
    && (pos < end ==>
          && pos + 8 <= end
          && BlockSize(b, pos) > 0
          && BlockSize(b, pos) % 2 == 0
          && (pos + BlockSize(b, pos) < |b| ==>
                pos + BlockSize(b, pos) <= end && Tiled(b, pos + BlockSize(b, pos), end)))
  }

  function EntryAt(b: seq<u8>, pos: nat, va: nat): Fixup
    requires pos + 2 <= |b|
  {
    Fixup(Cell(b, pos, 2) / 0x1000, va + Cell(b, pos, 2) % 0x1000)
  }

  /** The entries between pos and stop. */
  function Entries(b: seq<u8>, pos: nat, stop: nat, va: nat): (fs: seq<Fixup>)
    requires stop <= |b| && (pos < stop ==> (stop - pos) % 2 == 0)
    ensures pos < stop ==> |fs| == (stop - pos) / 2
    ensures pos >= stop ==> fs == []
    decreases stop - pos
  {
    if pos >= stop then [] else [EntryAt(b, pos, va)] + Entries(b, pos + 2, stop, va)
  }

  /** The entries of all blocks up to the first block that leaves the image. */
  function AllEntries(b: seq<u8>, pos: nat, end: nat): (fs: seq<Fixup>)
    requires Tiled(b, pos, end)
    ensures pos < end ==> |fs| <= (end - pos) / 2
    ensures pos >= end ==> fs == []
    decreases end - pos
  {
    if pos >= end then []
    else
      var next := pos + BlockSize(b, pos);
      if next >= |b| then []
      else Entries(b, pos + SIZEOF_BASE_RELOCATION, next, BlockVA(b, pos)) + AllEntries(b, next, end)
  }

  lemma EntryFields(low: int, high: int)
    requires 0 <= low < 0x100 && 0 <= high < 0x100
    ensures (low + 0x100 * high) / 0x1000 == high / 16
    ensures (low + 0x100 * high) % 0x1000 == low + 0x100 * (high % 16)
  {
  }

  /** Entry i of a block, byte by byte: the kind in the upper four bits, the place in the page in the
      lower twelve. */
  lemma {:induction false} EntryBytes(b: seq<u8>, pos: nat, stop: nat, va: nat, i: nat, at: nat)
    requires stop <= |b| && at == pos + 2 * i < stop && (stop - pos) % 2 == 0
    ensures Entries(b, pos, stop, va)[i] == Fixup(b[at + 1] / 16, va + b[at] as int + 0x100 * (b[at + 1] as int % 16))
    decreases i
  {
    if i == 0 {
      CellOfTwo(b, pos);
      EntryFields(b[pos], b[pos + 1]);
    } else {
      EntryBytes(b, pos + 2, stop, va, i - 1, at);
    }
  }

  /** The header of a block, byte by byte: the address of a page and the size of the block. */
  lemma HeaderBytes(b: seq<u8>, pos: nat)
    requires pos + 8 <= |b|
    ensures BlockVA(b, pos) == b[pos] as int + 0x100 * b[pos + 1] as int
                               + 0x1_0000 * b[pos + 2] as int + 0x100_0000 * b[pos + 3] as int
    ensures BlockSize(b, pos) == b[pos + 4] as int + 0x100 * b[pos + 5] as int
                                 + 0x1_0000 * b[pos + 6] as int + 0x100_0000 * b[pos + 7] as int
  {
    CellOfFour(b, pos);
    CellOfFour(b, pos + 4);
  }

  lemma {:induction false} EntriesBytes(b: seq<u8>, pos: nat, stop: nat, va: nat, fs: seq<Fixup>, n: nat)
    requires stop <= |b| && (pos < stop ==> (stop - pos) % 2 == 0)
    requires n <= |fs| && Entries(b, pos, stop, va) == fs[..n]
    ensures forall i, at | 0 <= i < n && at == pos + 2 * i ::
              fs[i] == Fixup(b[at + 1] / 16, va + b[at] as int + 0x100 * (b[at + 1] as int % 16))
  {
    forall i, at | 0 <= i < n && at == pos + 2 * i
      ensures fs[i] == Fixup(b[at + 1] / 16, va + b[at] as int + 0x100 * (b[at + 1] as int % 16))
    {
      EntryBytes(b, pos, stop, va, i, at);
      assert fs[..n][i] == fs[i];
    }
  }

  lemma {:induction false} BlockEntries(b: seq<u8>, pos: nat, end: nat, va: nat, size: nat, n: nat, fs: seq<Fixup>)
    returns (es: seq<Fixup>)
    requires Tiled(b, pos, end) && pos < end && pos + size < |b| && fs == AllEntries(b, pos, end)
    requires va == BlockVA(b, pos) && size == BlockSize(b, pos) && n == if size < 8 then 0 else (size - 8) / 2
    ensures (size - 8) % 2 == 0 && (pos + size) - (pos + 8) == size - 8
    ensures es == Entries(b, pos + 8, pos + size, va) && |es| == n <= |fs|
    ensures es == fs[..n] && fs[n..] == AllEntries(b, pos + size, end)
  {
    var next := pos + BlockSize(b, pos);
    es := Entries(b, pos + SIZEOF_BASE_RELOCATION, next, BlockVA(b, pos));
    var rest := AllEntries(b, next, end);
    assert fs == es + rest;
  }

  /** The entries of a directory, byte by byte. Behind the header of a block, two-byte entries follow until
      its size is reached, and then the other blocks. A block that leaves the image ends the list. */
  lemma {:induction false} FirstBlock(b: seq<u8>, pos: nat, end: nat, va: nat, size: nat, n: nat, fs: seq<Fixup>)
    requires Tiled(b, pos, end) && pos < end && fs == AllEntries(b, pos, end)
    requires va == BlockVA(b, pos) && size == BlockSize(b, pos) && n == if size < 8 then 0 else (size - 8) / 2
    ensures pos + size >= |b| ==> fs == []
    ensures pos + size < |b| ==>
              && |fs| >= n
              && fs[n..] == AllEntries(b, pos + size, end)
              && forall i, at | 0 <= i < n && at == pos + 8 + 2 * i ::
                   fs[i] == Fixup(b[at + 1] / 16, va + b[at] as int + 0x100 * (b[at + 1] as int % 16))
  {
    if pos + size < |b| {
      var es := BlockEntries(b, pos, end, va, size, n, fs);
      EntriesBytes(b, pos + 8, pos + size, va, fs, n);
    }
  }

  /** No block leaves the image. */
  predicate StaysInside(b: seq<u8>, pos: nat, end: nat)
    requires Tiled(b, pos, end)
    decreases end - pos
  {
    pos >= end ||
    var next := pos + BlockSize(b, pos);
    next < |b| && StaysInside(b, next, end)
  }

  /** The entries before the first one of a type the loader does not handle. */
  function Handled(fs: seq<Fixup>): (gs: seq<Fixup>)
    ensures |gs| <= |fs| && gs == fs[..|gs|]
    ensures forall i :: 0 <= i < |gs| ==> Supported(gs[i])
    ensures |gs| < |fs| ==> !Supported(fs[|gs|])
  {
    if fs == [] || !Supported(fs[0]) then [] else [fs[0]] + Handled(fs[1..])
  }

  // ---------------------------------------------------------------------
  // The fixup log
  // ---------------------------------------------------------------------

  /** ALIGN_VALUE by 4 */
  function Align4(x: nat): (y: nat)
    ensures x <= y
  {
    if x % 4 == 0 then x else x + 4 - x % 4
  }

  /** ALIGN_VALUE by 8 */
  function Align8(x: nat): (y: nat)
    ensures x <= y
  {
    if x % 8 == 0 then x else x + 8 - x % 8
  }

  /** Where the relocated value of an entry is logged when the log holds `used` bytes. */
  function LogSlot(used: nat, f: Fixup): (slot: nat)
    ensures used <= slot
  {
    if Width(f) == 4 then Align4(used) else if Width(f) == 8 then Align8(used) else used
  }

  /** Eight bytes are logged at the next multiple of eight, four at the next multiple of four, and two
      where the log ends. */
  lemma SlotInNumbers(used: nat, f: Fixup, slot: nat)
    requires slot == LogSlot(used, f)
    ensures f.Kind == 10 ==> slot % 8 == 0 && used <= slot < used + 8
    ensures f.Kind == 3 ==> slot % 4 == 0 && used <= slot < used + 4
    ensures f.Kind !in {3, 10} ==> slot == used
  {
  }

  /** The bytes of log a run of entries takes. */
  function LogUsed(fs: seq<Fixup>): nat {
    if fs == [] then 0
    else LogSlot(LogUsed(fs[..|fs| - 1]), fs[|fs| - 1]) + Width(fs[|fs| - 1])
  }

  ghost predicate NoDir64(fs: seq<Fixup>) { forall i :: 0 <= i < |fs| ==> fs[i].Kind != REL_BASED_DIR64 }

  lemma Align4Below(x: nat, n: nat)
    requires x <= 4 * n
    ensures Align4(x) <= 4 * n
  {
    assert x == 4 * (x / 4) + x % 4;
  }

  lemma Align8Below(x: nat, n: nat)
    requires x <= 8 * n
    ensures Align8(x) <= 8 * n
  {
    assert x == 8 * (x / 8) + x % 8;
  }

  /** One more entry takes at most one more word. */
  lemma LogStep8(used: nat, f: Fixup, n: nat)
    requires used <= 8 * n
    ensures LogSlot(used, f) + Width(f) <= 8 * n + 8
  {
    Align4Below(used, 2 * n);
    Align8Below(used, n);
  }

  lemma LogStep4(used: nat, f: Fixup, n: nat)
    requires used <= 4 * n && f.Kind != REL_BASED_DIR64
    ensures LogSlot(used, f) + Width(f) <= 4 * n + 4
  {
    Align4Below(used, n);
  }

  lemma {:induction false} LogBound8(fs: seq<Fixup>)
    ensures LogUsed(fs) <= 8 * |fs|
  {
    if fs != [] {
      LogBound8(fs[..|fs| - 1]);
      LogStep8(LogUsed(fs[..|fs| - 1]), fs[|fs| - 1], |fs| - 1);
    }
  }

  lemma {:induction false} LogBound4(fs: seq<Fixup>)
    requires NoDir64(fs)
    ensures LogUsed(fs) <= 4 * |fs|
  {
    if fs != [] {
      LogBound4(fs[..|fs| - 1]);
      LogStep4(LogUsed(fs[..|fs| - 1]), fs[|fs| - 1], |fs| - 1);
    }
  }

  /** After n entries, in any mix, the log holds at most n words of the given size. */
  lemma LogBound(fs: seq<Fixup>, uintn: nat)
    requires uintn == 8 || (uintn == 4 && NoDir64(fs))
    ensures LogUsed(fs) <= |fs| * uintn
  {
    if uintn == 8 {
      LogBound8(fs);
    } else {
      LogBound4(fs);
    }
  }

  /** The pages the loader reserves for the log of a directory of `size` bytes. */
  function LogPages(size: nat, uintn: nat): nat { SizeToPages(size / 2 * uintn) }

  lemma PagesHold(size: nat)
    ensures size <= SizeToPages(size) * PAGE_SIZE
  {
  }

  lemma WordsOf(n: nat, m: nat, uintn: nat)
    requires n <= m && (uintn == 4 || uintn == 8)
    ensures n * uintn <= m * uintn
  {
  }

  /** The log of a tiled directory fits the pages reserved for it. */
  lemma LogFits(b: seq<u8>, start: nat, end: nat, uintn: nat)
    requires start <= end && Tiled(b, start, end)
    requires uintn == 8 || (uintn == 4 && NoDir64(AllEntries(b, start, end)))
    ensures LogUsed(AllEntries(b, start, end)) <= LogPages(end - start, uintn) * PAGE_SIZE
  {
    var fs := AllEntries(b, start, end);
    LogBound(fs, uintn);
    WordsOf(|fs|, (end - start) / 2, uintn);
    PagesHold((end - start) / 2 * uintn);
  }

  lemma {:induction false} LogMonotone(fs: seq<Fixup>, n: nat)
    requires n <= |fs|
    ensures LogUsed(fs[..n]) <= LogUsed(fs)
  {
    if n < |fs| {
      LogMonotone(fs[..|fs| - 1], n);
      assert fs[..|fs| - 1][..n] == fs[..n];
    } else {
      assert fs[..n] == fs;
    }
  }

  /** The log holds, in the slot of entry i, the value the entry left in its cell. */
  ghost predicate Logged(log: seq<u8>, b: seq<u8>, fs: seq<Fixup>, adjust: u64, i: nat)
    requires AllInImage(fs, |b|) && i < |fs|
  {
    var slot := LogSlot(LogUsed(fs[..i]), fs[i]);
    slot + Width(fs[i]) <= |log| &&
    Cell(log, slot, Width(fs[i])) == Cell(PatchAll(b, fs[..i + 1], adjust), fs[i].Offset, Width(fs[i]))
  }

  /** What the log holds of entry i: its new value, in the width of its kind. Behind it the log goes on. */
  lemma LogInNumbers(log: seq<u8>, b: seq<u8>, fs: seq<Fixup>, adjust: u64, i: nat, slot: nat, o: nat, c: seq<u8>)
    requires AllInImage(fs, |b|) && i < |fs| && Logged(log, b, fs, adjust, i)
    requires slot == LogSlot(LogUsed(fs[..i]), fs[i]) && o == fs[i].Offset && c == PatchAll(b, fs[..i + 1], adjust)
    ensures fs[i].Kind == 10 ==>
              slot + 8 <= |log| && o + 8 <= |c| && Cell(log, slot, 8) == Cell(c, o, 8) && LogUsed(fs[..i + 1]) == slot + 8
    ensures fs[i].Kind == 3 ==>
              slot + 4 <= |log| && o + 4 <= |c| && Cell(log, slot, 4) == Cell(c, o, 4) && LogUsed(fs[..i + 1]) == slot + 4
    ensures fs[i].Kind in {1, 2} ==>
              slot + 2 <= |log| && o + 2 <= |c| && Cell(log, slot, 2) == Cell(c, o, 2) && LogUsed(fs[..i + 1]) == slot + 2
    ensures fs[i].Kind !in {1, 2, 3, 10} ==> LogUsed(fs[..i + 1]) == slot
  {
    assert fs[..i + 1][..i] == fs[..i];
  }

  ghost predicate AllLogged(log: seq<u8>, b: seq<u8>, fs: seq<Fixup>, adjust: u64, n: nat)
    requires AllInImage(fs, |b|) && n <= |fs|
  {
    forall i :: 0 <= i < n ==> Logged(log, b, fs, adjust, i)
  }

  // ---------------------------------------------------------------------
  // The loops
  // ---------------------------------------------------------------------

  datatype Outcome = Finished | LoadError | DeadLoop

  /** How the walk over the directory ends. */
  function OutcomeOf(b: seq<u8>, start: nat, end: nat): Outcome
    requires Tiled(b, start, end)
  {
    var fs := AllEntries(b, start, end);
    if |Handled(fs)| < |fs| then DeadLoop
    else if StaysInside(b, start, end) then Finished else LoadError
  }

  /** The loader hangs if and only if an entry is of another kind than 0, 1, 2, 3 and 10. */
  lemma HangsIff(b: seq<u8>, start: nat, end: nat)
    requires Tiled(b, start, end)
    ensures OutcomeOf(b, start, end) == DeadLoop
            <==> exists f :: f in AllEntries(b, start, end) && f.Kind !in {0, 1, 2, 3, 10}
  {
    var fs := AllEntries(b, start, end);
    var n := |Handled(fs)|;
    if n < |fs| {
      assert fs[n] in fs && fs[n].Kind !in {0, 1, 2, 3, 10};
    } else {
      assert Handled(fs) == fs;
    }
  }

  lemma {:induction false} PatchMiss(b: seq<u8>, f: Fixup, adjust: u64, lo: nat, hi: nat)
    requires InImage(f, |b|) && lo <= hi <= |b| && Misses(f, lo, hi)
    ensures Patch(b, f, adjust)[lo..hi] == b[lo..hi]
  {
    if Width(f) > 0 {
      CellElsewhere(b, f.Offset, Width(f), (Cell(b, f.Offset, Width(f)) + Delta(f, adjust)) % Radix(Width(f)), lo, hi - lo);
    }
  }

  lemma {:induction false} PatchMisses(b: seq<u8>, fs: seq<Fixup>, adjust: u64, lo: nat, hi: nat)
    requires AllInImage(fs, |b|) && lo <= hi <= |b|
    requires forall i :: 0 <= i < |fs| ==> Misses(fs[i], lo, hi)
    ensures PatchAll(b, fs, adjust)[lo..hi] == b[lo..hi]
  {
    if fs != [] {
      PatchMisses(b, fs[..|fs| - 1], adjust, lo, hi);
      PatchMiss(PatchAll(b, fs[..|fs| - 1], adjust), fs[|fs| - 1], adjust, lo, hi);
    }
  }

  /** A cell inside a region two byte sequences agree on. */
  lemma SameCell(b: seq<u8>, c: seq<u8>, lo: nat, hi: nat, o: nat, w: nat)
    requires lo <= o && o + w <= hi <= |b| && |b| == |c| && b[lo..hi] == c[lo..hi]
    ensures Cell(b, o, w) == Cell(c, o, w)
  {
    assert b[o..o + w] == c[o..o + w] by {
      forall k | o <= k < o + w
        ensures b[k] == c[k]
      {
        assert b[k] == b[lo..hi][k - lo] && c[k] == c[lo..hi][k - lo];
      }
    }
  }

  /** What the loops need of the directory: tiled, and every entry that is applied points into
      the image and misses the directory itself. */
  ghost predicate Relocatable(b: seq<u8>, start: nat, end: nat) {
    && start <= end
    && Tiled(b, start, end)
    && var fs := Handled(AllEntries(b, start, end));
       AllInImage(fs, |b|) && forall i :: 0 <= i < |fs| ==> Misses(fs[i], start, end)
  }

  /** What a run of the loops makes of the image b. */
  ghost predicate RelocationResult(b: seq<u8>, start: nat, end: nat, adjust: u64, outcome: Outcome, c: seq<u8>) {
    && Relocatable(b, start, end)
    && outcome == OutcomeOf(b, start, end)
    && c == PatchAll(b, Handled(AllEntries(b, start, end)), adjust)
  }

  /** Patching one entry and logging the new value. */
  method PatchAndLog(image: array<u8>, log: array<u8>, f: Fixup, Adjust: u64, FixupData: nat) returns (next: nat)
    requires image != log && InImage(f, image.Length)
    requires LogSlot(FixupData, f) + Width(f) <= log.Length
    modifies image, log
    ensures image[..] == Patch(old(image[..]), f, Adjust)
    ensures next == LogSlot(FixupData, f) + Width(f)
    ensures log[..] == if Width(f) == 0 then old(log[..])
                       else SetCell(old(log[..]), LogSlot(FixupData, f), Width(f), Cell(image[..], f.Offset, Width(f)))
  {
    if Width(f) == 0 {
      return FixupData;
    }
    ghost var before := image[..];
    var cell := Cell(image[..], f.Offset, Width(f));
    var value := (cell + Delta(f, Adjust)) % Radix(Width(f));
    Store(image, f.Offset, Width(f), value);
    assert image[..] == Patch(before, f, Adjust);
    CellOfSet(before, f.Offset, Width(f), value);
    var slot := LogSlot(FixupData, f);
    Store(log, slot, Width(f), value);
    next := slot + Width(f);
  }

  /** The first n entries have been applied and logged. */
  ghost predicate Applied(b: seq<u8>, fs: seq<Fixup>, adjust: u64, n: nat, image: seq<u8>, log: seq<u8>, used: nat)
    requires AllInImage(fs, |b|)
  {
    && n <= |fs|
    && image == PatchAll(b, fs[..n], adjust)
    && used == LogUsed(fs[..n])
    && AllLogged(log, b, fs, adjust, n)
  }

  /** The slot of an entry ends before the log space of any later entry starts. */
  lemma SlotBelow(fs: seq<Fixup>, i: nat, n: nat)
    requires i < n <= |fs|
    ensures LogSlot(LogUsed(fs[..i]), fs[i]) + Width(fs[i]) <= LogUsed(fs[..n])
  {
    LogMonotone(fs[..n], i + 1);
    assert fs[..n][..i + 1] == fs[..i + 1];
    assert fs[..i + 1][..i] == fs[..i];
  }

  /** What entry i left in the log is still there when entry n is logged behind it. */
  lemma StillLogged(b: seq<u8>, fs: seq<Fixup>, adjust: u64, i: nat, n: nat, log: seq<u8>, log': seq<u8>, slot: nat, value: nat)
    requires AllInImage(fs, |b|) && i < n < |fs| && Logged(log, b, fs, adjust, i)
    requires LogUsed(fs[..n]) <= slot && slot + Width(fs[n]) <= |log|
    requires log' == if Width(fs[n]) == 0 then log else SetCell(log, slot, Width(fs[n]), value)
    ensures Logged(log', b, fs, adjust, i)
  {
    SlotBelow(fs, i, n);
    if Width(fs[n]) > 0 {
      CellElsewhere(log, slot, Width(fs[n]), value, LogSlot(LogUsed(fs[..i]), fs[i]), Width(fs[i]));
    }
  }

  /** What entry n leaves in its cell is logged. */
  lemma NewLogged(b: seq<u8>, fs: seq<Fixup>, adjust: u64, n: nat, log: seq<u8>, log': seq<u8>, slot: nat, value: nat)
    requires AllInImage(fs, |b|) && n < |fs| && slot == LogSlot(LogUsed(fs[..n]), fs[n]) && slot + Width(fs[n]) <= |log|
    requires value == Cell(PatchAll(b, fs[..n + 1], adjust), fs[n].Offset, Width(fs[n]))
    requires log' == if Width(fs[n]) == 0 then log else SetCell(log, slot, Width(fs[n]), value)
    ensures Logged(log', b, fs, adjust, n)
  {
    if Width(fs[n]) > 0 {
      CellOfSet(log, slot, Width(fs[n]), value);
    }
  }

  lemma OneMoreLogged(b: seq<u8>, fs: seq<Fixup>, adjust: u64, n: nat, log: seq<u8>, log': seq<u8>, slot: nat, value: nat)
    requires AllInImage(fs, |b|) && n < |fs| && AllLogged(log, b, fs, adjust, n)
    requires slot == LogSlot(LogUsed(fs[..n]), fs[n]) && slot + Width(fs[n]) <= |log|
    requires value == Cell(PatchAll(b, fs[..n + 1], adjust), fs[n].Offset, Width(fs[n]))
    requires log' == if Width(fs[n]) == 0 then log else SetCell(log, slot, Width(fs[n]), value)
    ensures AllLogged(log', b, fs, adjust, n + 1)
  {
    forall i | 0 <= i < n + 1
      ensures Logged(log', b, fs, adjust, i)
    {
      if i < n {
        StillLogged(b, fs, adjust, i, n, log, log', slot, value);
      } else {
        NewLogged(b, fs, adjust, n, log, log', slot, value);
      }
    }
  }

  lemma OneMore(b: seq<u8>, fs: seq<Fixup>, adjust: u64, n: nat)
    requires AllInImage(fs, |b|) && n < |fs|
    ensures PatchAll(b, fs[..n + 1], adjust) == Patch(PatchAll(b, fs[..n], adjust), fs[n], adjust)
    ensures LogUsed(fs[..n + 1]) == LogSlot(LogUsed(fs[..n]), fs[n]) + Width(fs[n])
  {
    assert fs[..n + 1][..n] == fs[..n] && fs[..n + 1][n] == fs[n];
  }

  lemma AppliedStep(b: seq<u8>, fs: seq<Fixup>, adjust: u64, n: nat, image: seq<u8>, log: seq<u8>, used: nat,
                    image': seq<u8>, log': seq<u8>)
    requires AllInImage(fs, |b|) && n < |fs| && Applied(b, fs, adjust, n, image, log, used)
    requires image' == Patch(image, fs[n], adjust)
    requires var slot := LogSlot(used, fs[n]);
             && slot + Width(fs[n]) <= |log|
             && log' == if Width(fs[n]) == 0 then log else SetCell(log, slot, Width(fs[n]), Cell(image', fs[n].Offset, Width(fs[n])))
    ensures Applied(b, fs, adjust, n + 1, image', log', LogSlot(used, fs[n]) + Width(fs[n]))
  {
    OneMore(b, fs, adjust, n);
    var slot, value := LogSlot(used, fs[n]), Cell(image', fs[n].Offset, Width(fs[n]));
    OneMoreLogged(b, fs, adjust, n, log, log', slot, value);
  }

  /** The rest of the directory seen from inside a block. */
  ghost predicate At(b: seq<u8>, all: seq<Fixup>, n: nat, pos: nat, stop: nat, va: nat, end: nat) {
    && pos <= stop + 6
    && stop <= end
    && (pos < stop ==> (stop - pos) % 2 == 0)
    && Tiled(b, stop, end)
    && n <= |all|
    && all[n..] == Entries(b, pos, stop, va) + AllEntries(b, stop, end)
  }

  lemma NextEntry(b: seq<u8>, all: seq<Fixup>, n: nat, pos: nat, stop: nat, va: nat, end: nat)
    requires At(b, all, n, pos, stop, va, end) && pos < stop
    ensures n < |all| && all[n] == EntryAt(b, pos, va)
    ensures At(b, all, n + 1, pos + 2, stop, va, end)
  {
    var es, rest := Entries(b, pos, stop, va), AllEntries(b, stop, end);
    assert all[n] == all[n..][0] == es[0];
    assert all[n + 1..] == all[n..][1..] == es[1..] + rest;
  }

  lemma BlockDone(b: seq<u8>, all: seq<Fixup>, n: nat, pos: nat, stop: nat, va: nat, end: nat)
    requires At(b, all, n, pos, stop, va, end) && pos >= stop
    ensures n <= |all| && all[n..] == AllEntries(b, stop, end)
  {
    assert Entries(b, pos, stop, va) == [];
  }

  /** The entries that are applied: those before the first unhandled type, all of them inside
      the image and outside the directory. */
  ghost predicate Plan(size: nat, start: nat, end: nat, all: seq<Fixup>, good: seq<Fixup>) {
    && AllInImage(good, size)
    && (forall i :: 0 <= i < |good| ==> Misses(good[i], start, end) && Supported(good[i]))
    && |good| <= |all|
    && good == all[..|good|]
    && (|good| < |all| ==> !Supported(all[|good|]))
  }

  /** The word the loop reads at a place inside the directory is still the original one. */
  lemma DirectoryUnchanged(b: seq<u8>, start: nat, end: nat, all: seq<Fixup>, good: seq<Fixup>, adjust: u64,
                           n: nat, o: nat, w: nat)
    requires Plan(|b|, start, end, all, good) && n <= |good|
    requires start <= o && o + w <= end <= |b|
    ensures Cell(PatchAll(b, good[..n], adjust), o, w) == Cell(b, o, w)
  {
    PatchMisses(b, good[..n], adjust, start, end);
    SameCell(b, PatchAll(b, good[..n], adjust), start, end, o, w);
  }

  /** The entry the loop reads is the next one of the directory, and is handled or ends the walk. */
  lemma EntryUnchanged(b: seq<u8>, start: nat, end: nat, all: seq<Fixup>, good: seq<Fixup>, adjust: u64, n: nat,
                       pos: nat, stop: nat, va: nat, image: seq<u8>)
    requires Plan(|b|, start, end, all, good) && n <= |good| && image == PatchAll(b, good[..n], adjust)
    requires start <= pos < stop && end <= |b| && At(b, all, n, pos, stop, va, end)
    ensures n < |all| && EntryAt(image, pos, va) == all[n]
    ensures if Supported(all[n]) then n < |good| && good[n] == all[n] else n == |good|
    ensures At(b, all, n + 1, pos + 2, stop, va, end)
  {
    NextEntry(b, all, n, pos, stop, va, end);
    DirectoryUnchanged(b, start, end, all, good, adjust, n, pos, 2);
    if n < |good| {
      assert good[n] == all[n];
    }
  }

  /** One round of the entry loop. */
  method RelocateEntry(image: array<u8>, log: array<u8>, Adjust: u64, Reloc: nat, FixupBase: nat, FixupData: nat,
                       ghost b: seq<u8>, ghost start: nat, ghost end: nat, ghost stop: nat,
                       ghost all: seq<Fixup>, ghost good: seq<Fixup>, ghost n: nat)
    returns (ok: bool, next: nat, ghost m: nat)
    requires image != log && image.Length == |b| && start <= Reloc < stop && end <= |b|
    requires Plan(|b|, start, end, all, good) && LogUsed(good) <= log.Length
    requires At(b, all, n, Reloc, stop, FixupBase, end)
    requires Applied(b, good, Adjust, n, image[..], log[..], FixupData)
    modifies image, log
    ensures Applied(b, good, Adjust, m, image[..], log[..], next)
    ensures if ok then At(b, all, m, Reloc + 2, stop, FixupBase, end) else m == |good| < |all|
  {
    EntryUnchanged(b, start, end, all, good, Adjust, n, Reloc, stop, FixupBase, image[..]);
    var f := EntryAt(image[..], Reloc, FixupBase);
    if !Supported(f) {
      return false, FixupData, n;
    }
    next := LogOne(image, log, f, Adjust, FixupData, b, good, n);
    ok, m := true, n + 1;
  }

  /** One handled entry of the loop. */
  method LogOne(image: array<u8>, log: array<u8>, f: Fixup, Adjust: u64, FixupData: nat,
                ghost b: seq<u8>, ghost good: seq<Fixup>, ghost n: nat) returns (next: nat)
    requires image != log && image.Length == |b| && AllInImage(good, |b|) && LogUsed(good) <= log.Length
    requires n < |good| && good[n] == f && Applied(b, good, Adjust, n, image[..], log[..], FixupData)
    modifies image, log
    ensures Applied(b, good, Adjust, n + 1, image[..], log[..], next)
  {
    LogMonotone(good, n + 1);
    assert good[..n + 1][..n] == good[..n];
    next := PatchAndLog(image, log, f, Adjust, FixupData);
    AppliedStep(b, good, Adjust, n, old(image[..]), old(log[..]), FixupData, image[..], log[..]);
  }

  /** The entry loop over one block. */
  method RelocateBlock(image: array<u8>, log: array<u8>, Adjust: u64, first: nat, RelocEnd: nat, FixupBase: nat, Data: nat,
                       ghost b: seq<u8>, ghost start: nat, ghost end: nat,
                       ghost all: seq<Fixup>, ghost good: seq<Fixup>, ghost done: nat)
    returns (ok: bool, FixupData: nat, ghost n: nat)
    requires image != log && image.Length == |b| && start <= first && end <= |b|
    requires Plan(|b|, start, end, all, good) && LogUsed(good) <= log.Length
    requires At(b, all, done, first, RelocEnd, FixupBase, end)
    requires Applied(b, good, Adjust, done, image[..], log[..], Data)
    modifies image, log
    ensures Applied(b, good, Adjust, n, image[..], log[..], FixupData)
    ensures ok ==> n <= |all| && all[n..] == AllEntries(b, RelocEnd, end)
    ensures !ok ==> n == |good| < |all|
  {
    var Reloc := first;
    FixupData, n := Data, done;
    while Reloc < RelocEnd
      invariant first <= Reloc
      invariant At(b, all, n, Reloc, RelocEnd, FixupBase, end)
      invariant Applied(b, good, Adjust, n, image[..], log[..], FixupData)
    {
      ok, FixupData, n := RelocateEntry(image, log, Adjust, Reloc, FixupBase, FixupData, b, start, end, RelocEnd, all, good, n);
      if !ok {
        return;
      }
      Reloc := Reloc + 2;
    }
    BlockDone(b, all, n, Reloc, RelocEnd, FixupBase, end);
    ok := true;
  }

  lemma HeaderEven(size: nat)
    requires size > 0 && size % 2 == 0
    ensures size >= 2 && (size - SIZEOF_BASE_RELOCATION) % 2 == 0
  {
  }

  lemma NextBlock(b: seq<u8>, all: seq<Fixup>, n: nat, pos: nat, end: nat, next: nat, va: nat)
    requires pos < end && Tiled(b, pos, end) && n <= |all| && all[n..] == AllEntries(b, pos, end)
    requires next == pos + BlockSize(b, pos) && va == BlockVA(b, pos)
    ensures if next >= |b| then n == |all| && !StaysInside(b, pos, end)
            else && At(b, all, n, pos + SIZEOF_BASE_RELOCATION, next, va, end)
                 && StaysInside(b, pos, end) == StaysInside(b, next, end)
  {
    if next >= |b| {
      assert |all[n..]| == 0;
    } else {
      HeaderEven(BlockSize(b, pos));
      assert AllEntries(b, pos, end) == Entries(b, pos + SIZEOF_BASE_RELOCATION, next, va) + AllEntries(b, next, end);
    }
  }

  /** The header of the next block is still the original one. */
  lemma HeaderUnchanged(b: seq<u8>, start: nat, end: nat, all: seq<Fixup>, good: seq<Fixup>, adjust: u64, n: nat,
                        pos: nat, image: seq<u8>)
    requires Plan(|b|, start, end, all, good) && n <= |good| && image == PatchAll(b, good[..n], adjust)
    requires start <= pos && pos + 8 <= end <= |b|
    ensures BlockVA(image, pos) == BlockVA(b, pos) && BlockSize(image, pos) == BlockSize(b, pos)
  {
    DirectoryUnchanged(b, start, end, all, good, adjust, n, pos, 4);
    DirectoryUnchanged(b, start, end, all, good, adjust, n, pos + 4, 4);
  }

  /** One round of the block loop: header, bounds check and entry loop. Finished means go on. */
  method NextRelocationBlock(image: array<u8>, log: array<u8>, Adjust: u64, RelocBase: nat, Data: nat,
                             ghost b: seq<u8>, ghost start: nat, ghost end: nat,
                             ghost all: seq<Fixup>, ghost good: seq<Fixup>, ghost done: nat)
    returns (step: Outcome, RelocEnd: nat, FixupData: nat, ghost n: nat)
    requires image != log && image.Length == |b| && start <= RelocBase < end <= |b|
    requires Plan(|b|, start, end, all, good) && LogUsed(good) <= log.Length
    requires Tiled(b, RelocBase, end) && done <= |all| && all[done..] == AllEntries(b, RelocBase, end)
    requires Applied(b, good, Adjust, done, image[..], log[..], Data)
    modifies image, log
    ensures Applied(b, good, Adjust, n, image[..], log[..], FixupData)
    ensures step == DeadLoop ==> n == |good| < |all|
    ensures step == LoadError ==> n == |all| && !StaysInside(b, RelocBase, end)
    ensures step == Finished ==>
              && RelocBase < RelocEnd <= end
              && Tiled(b, RelocEnd, end)
              && n <= |all|
              && all[n..] == AllEntries(b, RelocEnd, end)
              && StaysInside(b, RelocBase, end) == StaysInside(b, RelocEnd, end)
  {
    HeaderUnchanged(b, start, end, all, good, Adjust, done, RelocBase, image[..]);
    var FixupBase := BlockVA(image[..], RelocBase);
    RelocEnd := RelocBase + BlockSize(image[..], RelocBase);
    NextBlock(b, all, done, RelocBase, end, RelocEnd, FixupBase);
    if RelocEnd >= image.Length {
      return LoadError, RelocEnd, Data, done;
    }
    var ok;
    ok, FixupData, n := RelocateBlock(image, log, Adjust, RelocBase + SIZEOF_BASE_RELOCATION, RelocEnd, FixupBase,
                                      Data, b, start, end, all, good, done);
    step := if ok then Finished else DeadLoop;
  }

  /** The block loop of EfiLdrPeCoffLoadPeRelocate. */
  method RelocateBlocks(image: array<u8>, log: array<u8>, start: nat, end: nat, Adjust: u64,
                        ghost b: seq<u8>, ghost all: seq<Fixup>, ghost good: seq<Fixup>)
    returns (outcome: Outcome)
    requires image != log && image[..] == b && start <= end && Tiled(b, start, end)
    requires all == AllEntries(b, start, end) && Plan(|b|, start, end, all, good) && LogUsed(good) <= log.Length
    modifies image, log
    ensures outcome == if |good| < |all| then DeadLoop
                       else if StaysInside(b, start, end) then Finished else LoadError
    ensures Applied(b, good, Adjust, |good|, image[..], log[..], LogUsed(good))
  {
    var RelocBase, FixupData := start, 0;
    ghost var n: nat := 0;
    ghost var inside := StaysInside(b, start, end);
    while RelocBase < end
      invariant start <= RelocBase <= end && Tiled(b, RelocBase, end)
      invariant n <= |all| && all[n..] == AllEntries(b, RelocBase, end)
      invariant inside == StaysInside(b, RelocBase, end)
      invariant Applied(b, good, Adjust, n, image[..], log[..], FixupData)
      decreases end - RelocBase
    {
      var step, RelocEnd;
      step, RelocEnd, FixupData, n := NextRelocationBlock(image, log, Adjust, RelocBase, FixupData, b, start, end, all, good, n);
      if step != Finished {
        assert n == |good| && good[..n] == good;
        return step;
      }
      RelocBase := RelocEnd;
    }
    assert n == |good| && good[..n] == good;
    outcome := Finished;
  }

  /** EfiLdrPeCoffLoadPeRelocate once the directory and the log pages have been found: `image`
      holds the loaded image b, `log` the fixup pages, start and end delimit the directory. */
  method Relocate(image: array<u8>, log: array<u8>, start: nat, end: nat, Adjust: u64, ghost b: seq<u8>)
    returns (outcome: Outcome)
    requires image != log && image[..] == b && Relocatable(b, start, end)
    requires LogPages(end - start, 8) * PAGE_SIZE <= log.Length
    modifies image, log
    ensures RelocationResult(b, start, end, Adjust, outcome, image[..])
    ensures var fs := Handled(AllEntries(b, start, end));
            forall i :: 0 <= i < |fs| ==> Logged(log[..], b, fs, Adjust, i)
  {
    ghost var all := AllEntries(b, start, end);
    LogFits(b, start, end, 8);
    LogMonotone(all, |Handled(all)|);
    outcome := RelocateBlocks(image, log, start, end, Adjust, b, all, Handled(all));
    assert Handled(all)[..|Handled(all)|] == Handled(all);
  }
}
