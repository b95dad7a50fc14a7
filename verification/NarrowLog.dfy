/** The fixup log of a build with 4-byte words: the sizes of a relocation directory for which the
    pages reserved hold the log of every directory, DIR64 entries included. */
module NarrowLog {
  import opened Words
  import opened Cells
  import opened PeRelocation

  /** A directory has a block header of eight bytes before its first entry. */
  lemma {:induction false} EntriesAfterHeader(b: seq<u8>, pos: nat, end: nat)
    requires Tiled(b, pos, end) && pos < end
    ensures 2 * |AllEntries(b, pos, end)| + SIZEOF_BASE_RELOCATION <= end - pos
    decreases end - pos
  {
    var next := pos + BlockSize(b, pos);
    if next < |b| && next < end {
      EntriesAfterHeader(b, next, end);
    }
  }

  /** Any entry takes at most eight bytes of log. */
  lemma WideEnough(b: seq<u8>, start: nat, size: nat)
    requires Tiled(b, start, start + size) && size > 0
    ensures LogUsed(AllEntries(b, start, start + size)) + 32 <= 4 * size
  {
    EntriesAfterHeader(b, start, start + size);
    LogBound(AllEntries(b, start, start + size), 8);
  }

  // ---------------------------------------------------------------------
  // One block of DIR64 entries
  // ---------------------------------------------------------------------

  /** n entries of type DIR64 at offset 0 of their page. */
  function Dir64Entries(n: nat): (b: seq<u8>)
    ensures |b| == 2 * n
  {
    if n == 0 then [] else Dir64Entries(n - 1) + Encode(0xA000, 2)
  }

  lemma {:induction false} Dir64EntryAt(n: nat, i: nat)
    requires i < n
    ensures Dir64Entries(n)[2 * i..2 * i + 2] == Encode(0xA000, 2)
  {
    if i < n - 1 {
      Dir64EntryAt(n - 1, i);
      assert Dir64Entries(n)[2 * i..2 * i + 2] == Dir64Entries(n - 1)[2 * i..2 * i + 2];
    }
  }

  /** One block of n entries that all patch the eight bytes at va. */
  function Block(va: u32, n: nat): (b: seq<u8>)
    ensures |b| == 2 * n + 8
  {
    Encode(va, 4) + Encode(2 * n + 8, 4) + Dir64Entries(n)
  }

  /** An image of any contents, header included, with that block and one more byte behind them. */
  function OneBlock(front: seq<u8>, va: u32, n: nat): (b: seq<u8>)
    ensures |b| == |front| + 2 * n + 9
  {
    front + Block(va, n) + [0]
  }

  lemma BlockHeader(va: u32, n: nat)
    requires 2 * n + 8 < TWO_32
    ensures Decode(Block(va, n)[..4]) == va && Decode(Block(va, n)[4..8]) == 2 * n + 8
  {
    RadixValues();
    assert Block(va, n)[..4] == Encode(va, 4);
    assert Block(va, n)[4..8] == Encode(2 * n + 8, 4);
    DecodeEncode(va, 4);
    DecodeEncode(2 * n + 8, 4);
  }

  /** A cell of a part of an image. */
  lemma CellInside(b: seq<u8>, front: seq<u8>, part: seq<u8>, rest: seq<u8>, o: nat, w: nat)
    requires b == front + part + rest && o + w <= |part|
    ensures Cell(b, |front| + o, w) == Decode(part[o..o + w])
  {
    assert b[|front| + o..|front| + o + w] == part[o..o + w];
  }

  lemma OneBlockHeader(front: seq<u8>, va: u32, n: nat, b: seq<u8>)
    requires 2 * n + 8 < TWO_32 && b == OneBlock(front, va, n)
    ensures BlockVA(b, |front|) == va && BlockSize(b, |front|) == 2 * n + 8
  {
    BlockHeader(va, n);
    CellInside(b, front, Block(va, n), [0], 0, 4);
    CellInside(b, front, Block(va, n), [0], 4, 4);
  }

  /** The entry at pos is a DIR64 one at offset 0 of its page. */
  predicate IsDir64(b: seq<u8>, pos: nat) { pos + 2 <= |b| && Cell(b, pos, 2) == 0xA000 }

  lemma OneBlockEntry(front: seq<u8>, va: u32, n: nat, i: nat, b: seq<u8>)
    requires i < n && b == OneBlock(front, va, n)
    ensures IsDir64(b, |front| + 8 + 2 * i)
  {
    RadixValues();
    Dir64EntryAt(n, i);
    assert Block(va, n)[2 * i + 8..2 * i + 10] == Dir64Entries(n)[2 * i..2 * i + 2];
    DecodeEncode(0xA000, 2);
    CellInside(b, front, Block(va, n), [0], 2 * i + 8, 2);
  }

  /** n entries of type DIR64 from `at` on. */
  ghost predicate Dir64Run(b: seq<u8>, at: nat, n: nat) { forall j: nat :: j < n ==> IsDir64(b, at + 2 * j) }

  /** Every entry is a DIR64 one that patches the cell at va. */
  ghost predicate AllAt(fs: seq<Fixup>, va: nat) { forall i :: 0 <= i < |fs| ==> fs[i] == Fixup(REL_BASED_DIR64, va) }

  lemma {:induction false} EntriesDir64(b: seq<u8>, at: nat, n: nat, i: nat, va: nat)
    requires i <= n && at + 2 * n <= |b| && Dir64Run(b, at, n)
    ensures AllAt(Entries(b, at + 2 * i, at + 2 * n, va), va)
    decreases n - i
  {
    if i < n {
      assert IsDir64(b, at + 2 * i);
      EntriesDir64(b, at, n, i + 1, va);
    }
  }

  /** A directory of one block. */
  lemma BlockAlone(b: seq<u8>, start: nat, end: nat, va: nat)
    requires |b| == end + 1 && start + 8 <= end && (end - start) % 2 == 0
    requires BlockSize(b, start) == end - start && BlockVA(b, start) == va
    ensures Tiled(b, start, end) && StaysInside(b, start, end)
    ensures AllEntries(b, start, end) == Entries(b, start + 8, end, va)
  {
    assert Tiled(b, end, end) && AllEntries(b, end, end) == [];
    var fs := Entries(b, start + 8, end, va);
    assert AllEntries(b, start, end) == fs + [] == fs;
  }

  lemma {:induction false} AllHandled(fs: seq<Fixup>, va: nat)
    requires AllAt(fs, va)
    ensures Handled(fs) == fs
  {
    if fs != [] {
      AllHandled(fs[1..], va);
      assert fs == [fs[0]] + fs[1..];
    }
  }

  lemma {:induction false} Dir64LogUsed(fs: seq<Fixup>, va: nat)
    requires AllAt(fs, va)
    ensures LogUsed(fs) == 8 * |fs|
  {
    if fs != [] {
      Dir64LogUsed(fs[..|fs| - 1], va);
    }
  }

  lemma OneBlockEntries(front: seq<u8>, va: u32, n: nat, b: seq<u8>, at: nat)
    requires b == OneBlock(front, va, n) && at == |front| + 8
    ensures Dir64Run(b, at, n)
  {
    forall j: nat | j < n
      ensures IsDir64(b, at + 2 * j)
    {
      OneBlockEntry(front, va, n, j, b);
    }
  }

  /** A block of DIR64 entries whose target lies in front of it is a directory that is run to its
      end, and its log takes eight bytes for every entry. */
  lemma {:induction false} BlockRuns(b: seq<u8>, start: nat, end: nat, va: nat, n: nat, fs: seq<Fixup>)
    requires |b| == end + 1 && end == start + 2 * n + 8 && va + 8 <= start
    requires BlockSize(b, start) == 2 * n + 8 && BlockVA(b, start) == va && Dir64Run(b, start + 8, n)
    requires Tiled(b, start, end) && StaysInside(b, start, end)
    requires fs == AllEntries(b, start, end) == Entries(b, start + 8, end, va)
    ensures Relocatable(b, start, end) && OutcomeOf(b, start, end) == Finished && LogUsed(Handled(fs)) == 8 * n
  {
    EntriesDir64(b, start + 8, n, 0, va);
    AllHandled(fs, va);
    Dir64LogUsed(fs, va);
  }

  /** The image is one: the block is run to its end when its target lies in front of it. */
  lemma OneBlockLog(front: seq<u8>, va: u32, n: nat, b: seq<u8>, start: nat, end: nat)
    requires start == |front| && end == start + 2 * n + 8 && 2 * n + 8 < TWO_32 && b == OneBlock(front, va, n)
    requires va + 8 <= start
    ensures Relocatable(b, start, end) && OutcomeOf(b, start, end) == Finished
    ensures LogUsed(Handled(AllEntries(b, start, end))) == 8 * n
  {
    OneBlockHeader(front, va, n, b);
    OneBlockEntries(front, va, n, b, start + 8);
    BlockAlone(b, start, end, va);
    BlockRuns(b, start, end, va, n, AllEntries(b, start, end));
  }

  // ---------------------------------------------------------------------
  // When the reserved pages suffice
  // ---------------------------------------------------------------------

  /** In every image that begins with `front`, the log of a well-formed directory of `size` bytes behind
      it that is run to its end fits the pages reserved for it. */
  ghost predicate AlwaysFits(front: seq<u8>, size: nat) { forall b: seq<u8> :: front <= b ==> FitsAt(b, |front|, size) }

  ghost predicate FitsAt(b: seq<u8>, start: nat, size: nat) {
    Relocatable(b, start, start + size) && OutcomeOf(b, start, start + size) == Finished
    ==> LogUsed(Handled(AllEntries(b, start, start + size))) <= LogPages(size, 4) * PAGE_SIZE
  }

  /** The sizes that fit: directories of up to 1032 bytes, and those just above 2048. */
  predicate NarrowEnough(size: nat) { size <= 1032 || 2048 < size <= 2056 }

  lemma FitsNarrow(size: nat)
    ensures 8 <= size && size % 2 == 0 ==> (4 * size - 32 <= LogPages(size, 4) * PAGE_SIZE <==> NarrowEnough(size))
  {
    if 8 <= size && size % 2 == 0 {
      var pages := LogPages(size, 4);
      assert (pages - 1) * PAGE_SIZE < 2 * size <= pages * PAGE_SIZE;
      if pages > 2 {
        assert 4 * size - 32 > pages * PAGE_SIZE;
      }
    }
  }

  lemma EvenSum(x: nat, y: nat)
    requires x % 2 == 0 && y % 2 == 0
    ensures (x + y) % 2 == 0
  {
  }

  /** Well-formed directories have an even size. */
  lemma {:induction false} EvenSize(b: seq<u8>, pos: nat, end: nat)
    requires Tiled(b, pos, end) && StaysInside(b, pos, end) && pos <= end
    ensures (end - pos) % 2 == 0
    decreases end - pos
  {
    if pos < end {
      var next := pos + BlockSize(b, pos);
      EvenSize(b, next, end);
      EvenSum(BlockSize(b, pos), end - next);
      assert BlockSize(b, pos) + (end - next) == end - pos;
    }
  }

  lemma NarrowFits(b: seq<u8>, start: nat, size: nat)
    requires size % 2 == 1 || NarrowEnough(size)
    ensures FitsAt(b, start, size)
  {
    if Relocatable(b, start, start + size) && OutcomeOf(b, start, start + size) == Finished && size > 0 {
      FinishedFits(b, start, size, AllEntries(b, start, start + size));
    }
  }

  lemma {:induction false} FinishedFits(b: seq<u8>, start: nat, size: nat, fs: seq<Fixup>)
    requires size > 0 && (size % 2 == 1 || NarrowEnough(size))
    requires Tiled(b, start, start + size) && StaysInside(b, start, start + size) && fs == AllEntries(b, start, start + size)
    ensures LogUsed(Handled(fs)) <= LogPages(size, 4) * PAGE_SIZE
  {
    EvenSize(b, start, start + size);
    assert size % 2 == 0;
    FitsNarrow(size);
    HandledFits(b, start, size, fs);
  }

  lemma {:induction false} HandledFits(b: seq<u8>, start: nat, size: nat, fs: seq<Fixup>)
    requires size > 0 && Tiled(b, start, start + size) && fs == AllEntries(b, start, start + size)
    ensures LogUsed(Handled(fs)) <= if size > 8 then 4 * (size - 8) else 0
  {
    WideEnough(b, start, size);
    LogMonotone(fs, |Handled(fs)|);
  }

  lemma Overflows(n: nat, size: nat)
    requires size == 2 * n + 8 && !NarrowEnough(size)
    ensures 8 * n > LogPages(size, 4) * PAGE_SIZE
  {
    FitsNarrow(size);
  }

  lemma FrontKept(front: seq<u8>, va: u32, n: nat)
    ensures front <= OneBlock(front, va, n)
  {
  }

  lemma Unfit(b: seq<u8>, start: nat, size: nat, end: nat, used: nat)
    requires end == start + size && Relocatable(b, start, end) && OutcomeOf(b, start, end) == Finished
    requires used == LogUsed(Handled(AllEntries(b, start, end))) && used > LogPages(size, 4) * PAGE_SIZE
    ensures !FitsAt(b, start, size)
  {
  }

  /** The image with one block, whatever it begins with and wherever in that the entries point. */
  lemma BlockBehind(front: seq<u8>, va: u32, n: nat, start: nat, end: nat) returns (b: seq<u8>)
    requires va + 8 <= |front| && start == |front| && end == start + 2 * n + 8 && 2 * n + 8 < TWO_32
    ensures front <= b && Relocatable(b, start, end) && OutcomeOf(b, start, end) == Finished
    ensures LogUsed(Handled(AllEntries(b, start, end))) == 8 * n
  {
    b := OneBlock(front, va, n);
    FrontKept(front, va, n);
    OneBlockLog(front, va, n, b, start, end);
  }

  /** Whatever the image begins with, some directory of any other even size outgrows its pages. */
  lemma WideOverflows(front: seq<u8>, va: u32, n: nat, size: u32) returns (b: seq<u8>)
    requires va + 8 <= |front| && size == 2 * n + 8 && !NarrowEnough(size)
    ensures front <= b && !FitsAt(b, |front|, size)
  {
    var start, end := |front|, |front| + size;
    b := BlockBehind(front, va, n, start, end);
    Overflows(n, size);
    Unfit(b, start, size, end, 8 * n);
  }

  /** With 4-byte words the pages reserved hold the log of every well-formed directory of `size` bytes
      behind any given image header if and only if the size is odd, which none has, or small enough: a
      longer one that is a single block of DIR64 entries outgrows them. */
  lemma NarrowLogFitsIff(front: seq<u8>, size: u32)
    requires |front| >= 8
    ensures AlwaysFits(front, size) <==> size % 2 == 1 || NarrowEnough(size)
    ensures size >= 8 && size % 2 == 0 ==>
              (AlwaysFits(front, size) <==> 8 * ((size - 8) / 2) <= LogPages(size, 4) * PAGE_SIZE)
  {
    FitsNarrow(size);
    if size % 2 == 1 || NarrowEnough(size) {
      forall b: seq<u8> | front <= b
        ensures FitsAt(b, |front|, size)
      {
        NarrowFits(b, |front|, size);
      }
    } else {
      var n := (size - 8) / 2;
      var b := WideOverflows(front, 0, n, size);
    }
  }
}
