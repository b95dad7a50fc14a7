/** Block transfers of a VGA device: the pixels of the picture, painted through the planes. */
module VgaBlt {
  import opened Bits
  import opened Frames
  import opened VgaPlanar

  /** The memory and the graphics controller registers that block transfers use. */
  class Controller {
    const Memory: array<Cell>
    var Latch: Cell
    var BitMaskRegister: byte
    var WriteMode: nat
    var Function: nat
    var ReadMap: nat

    /** A read fills the latches with all four planes and returns the selected one. */
    method Read(a: nat) returns (data: byte)
      requires a < Memory.Length
      modifies this`Latch
      ensures Latch == Memory[a] && data == Plane(Memory[a], ReadMap)
    {
      Latch := Memory[a];
      data := Plane(Memory[a], ReadMap);
    }

    /** A write in write mode 2 with the function "replace". */
    method Write(a: nat, c: Colour)
      requires a < Memory.Length && WriteMode == 2 && Function == 0
      modifies Memory
      ensures Memory[..] == old(Memory[..])[a := Merge(Latch, BitMaskRegister, c)]
    {
      Memory[a] := Merge(Latch, BitMaskRegister, c);
    }
  }

  /** Loads the latches from an address and writes a colour to its enabled pixels. */
  method PaintMasked(vga: Controller, a: nat, ghost left: nat, ghost right: nat, c: Colour, ghost at: nat,
                     ghost f: seq<Colour>, ghost g: seq<Colour>)
    requires a < vga.Memory.Length && vga.WriteMode == 2 && vga.Function == 0
    requires Enables(vga.BitMaskRegister, left, right) && Pixels(vga.Memory[..]) == f
    requires at == 8 * a + left && g == Overwrite(f, at, Repeat(c, right - left))
    modifies vga`Latch, vga.Memory
    ensures Pixels(vga.Memory[..]) == g
  {
    ghost var mem := vga.Memory[..];
    var _ := vga.Read(a);
    WritePaints(mem, a, vga.Latch, vga.BitMaskRegister, left, right, c);
    vga.Write(a, c);
  }

  /** Writes a colour to all pixels of a run of addresses, with no read before. */
  method PaintBytes(vga: Controller, a: nat, count: nat, c: Colour, ghost at: nat, ghost data: seq<Colour>,
                    ghost f: seq<Colour>, ghost g: seq<Colour>)
    requires vga.WriteMode == 2 && vga.Function == 0
    requires Enables(vga.BitMaskRegister, 0, 8) && Pixels(vga.Memory[..]) == f
    requires at == 8 * a && data == Repeat(c, 8 * count) && at + |data| <= |f| && g == Overwrite(f, at, data)
    modifies vga.Memory
    ensures Pixels(vga.Memory[..]) == g
  {
    for i := 0 to count
      invariant Pixels(vga.Memory[..]) == Overwrite(f, at, Repeat(c, 8 * i))
    {
      WritePaints(vga.Memory[..], a + i, vga.Latch, vga.BitMaskRegister, 0, 8, c);
      OverwriteTwice(f, at, Repeat(c, 8 * i), Repeat(c, 8), Repeat(c, 8 * (i + 1)));
      vga.Write(a + i, c);
    }
  }

  // ---------------------------------------------------------------------
  // One colour
  // ---------------------------------------------------------------------

  function Flat(c: Colour, width: nat, height: nat): (rows: seq<seq<Colour>>)
    ensures |rows| == height && forall r :: 0 <= r < height ==> rows[r] == Repeat(c, width)
  {
    seq(height, _ => Repeat(c, width))
  }

  /** The rectangle of the picture. */
  function Window(x: nat, y: nat, width: nat, height: nat): Rect { Rect(WIDTH, x, y, width, height) }

  lemma WindowStart(D: Rect, i: nat)
    requires D.Stride == WIDTH
    ensures Start(D, i) == 640 * (D.Top + i) + D.Left
  {
    TimesIsProduct(D.Top + i, 640);
  }

  lemma WindowFits(x: nat, y: nat, width: nat, height: nat, size: nat)
    requires x + width <= WIDTH && y + height <= HEIGHT && size >= WIDTH * HEIGHT
    ensures Fits(Window(x, y, width, height), size)
  {
    var D := Window(x, y, width, height);
    forall r | 0 <= r < height
      ensures Start(D, r) + width <= size
    {
      WindowStart(D, r);
    }
  }

  /** Row i of a rectangle of one colour. */
  lemma FlatNext(f: seq<Colour>, D: Rect, c: Colour, rows: seq<seq<Colour>>, i: nat, at: nat)
    requires Fits(D, |f|) && rows == Flat(c, D.Width, D.Height) && i < D.Height && D.Stride == WIDTH
    requires at == 640 * (D.Top + i) + D.Left
    ensures at + D.Width <= |f|
    ensures PaintTo(f, D, rows, i + 1) == Overwrite(PaintTo(f, D, rows, i), at, Repeat(c, D.Width))
  {
    WindowStart(D, i);
  }

  /** Paints the enabled pixels of one column of addresses. */
  method PaintColumn(vga: Controller, start: nat, mask: byte, ghost left: nat, ghost right: nat, c: Colour, height: nat,
                     ghost D: Rect, ghost rows: seq<seq<Colour>>, ghost f: seq<Colour>)
    requires D.Height == height && vga.WriteMode == 2 && vga.Function == 0 && Pixels(vga.Memory[..]) == f
    requires Enables(mask, left, right) && left < right && D.Width == right - left
    requires D.Stride == WIDTH && Fits(D, |f|) && 8 * start + left == 640 * D.Top + D.Left
    requires rows == Flat(c, D.Width, height) && Fills(D, rows)
    modifies vga`Latch, vga`BitMaskRegister, vga.Memory
    ensures Pixels(vga.Memory[..]) == Paint(f, D, rows)
  {
    vga.BitMaskRegister := mask;
    var address := start;
    for i := 0 to height
      invariant address == start + 80 * i && vga.BitMaskRegister == mask
      invariant Pixels(vga.Memory[..]) == PaintTo(f, D, rows, i)
    {
      PaintColumnRow(vga, address, left, right, c, D, rows, i, f);
      address := address + BYTES_PER_SCAN_LINE;
    }
  }

  method PaintColumnRow(vga: Controller, address: nat, ghost left: nat, ghost right: nat, c: Colour, ghost D: Rect,
                        ghost rows: seq<seq<Colour>>, ghost i: nat, ghost f: seq<Colour>)
    requires vga.WriteMode == 2 && vga.Function == 0
    requires Enables(vga.BitMaskRegister, left, right) && left < right && D.Width == right - left
    requires D.Stride == WIDTH && Fits(D, |f|) && i < D.Height && 8 * address + left == 640 * (D.Top + i) + D.Left
    requires rows == Flat(c, D.Width, D.Height) && Fills(D, rows) && Pixels(vga.Memory[..]) == PaintTo(f, D, rows, i)
    modifies vga`Latch, vga.Memory
    ensures Pixels(vga.Memory[..]) == PaintTo(f, D, rows, i + 1)
  {
    ghost var at, g, h := 8 * address + left, PaintTo(f, D, rows, i), PaintTo(f, D, rows, i + 1);
    FlatNext(f, D, c, rows, i, at);
    PaintMasked(vga, address, left, right, c, at, g, h);
  }

  /** Paints runs of whole addresses. */
  method PaintMiddle(vga: Controller, start: nat, count: nat, c: Colour, height: nat, ghost D: Rect,
                     ghost rows: seq<seq<Colour>>, ghost f: seq<Colour>)
    requires D.Height == height && vga.WriteMode == 2 && vga.Function == 0 && Pixels(vga.Memory[..]) == f
    requires D.Stride == WIDTH && D.Width == 8 * count && Fits(D, |f|) && 8 * start == 640 * D.Top + D.Left
    requires rows == Flat(c, D.Width, height) && Fills(D, rows)
    modifies vga`BitMaskRegister, vga.Memory
    ensures Pixels(vga.Memory[..]) == Paint(f, D, rows)
  {
    vga.BitMaskRegister := ONES;
    var address := start;
    for i := 0 to height
      invariant address == start + 80 * i && vga.BitMaskRegister == ONES
      invariant Pixels(vga.Memory[..]) == PaintTo(f, D, rows, i)
    {
      PaintMiddleRow(vga, address, count, c, D, rows, i, f);
      address := address + BYTES_PER_SCAN_LINE;
    }
  }

  method PaintMiddleRow(vga: Controller, address: nat, count: nat, c: Colour, ghost D: Rect,
                        ghost rows: seq<seq<Colour>>, ghost i: nat, ghost f: seq<Colour>)
    requires vga.WriteMode == 2 && vga.Function == 0 && vga.BitMaskRegister == ONES && D.Width == 8 * count
    requires D.Stride == WIDTH && Fits(D, |f|) && i < D.Height && 8 * address == 640 * (D.Top + i) + D.Left
    requires rows == Flat(c, D.Width, D.Height) && Fills(D, rows) && Pixels(vga.Memory[..]) == PaintTo(f, D, rows, i)
    modifies vga.Memory
    ensures Pixels(vga.Memory[..]) == PaintTo(f, D, rows, i + 1)
  {
    ghost var at, g, h := 8 * address, PaintTo(f, D, rows, i), PaintTo(f, D, rows, i + 1);
    FlatNext(f, D, c, rows, i, at);
    PaintBytes(vga, address, count, c, at, Repeat(c, D.Width), g, h);
  }

  /** Byte k lies in the rectangle. */
  ghost predicate InRect(D: Rect, k: int) { exists r: nat :: r < D.Height && InRow(D, r, k) }

  /** A rectangle of one colour, pixel by pixel. */
  lemma FlatPixel(f: seq<Colour>, D: Rect, c: Colour, k: nat)
    requires Fits(D, |f|) && k < |f|
    ensures Paint(f, D, Flat(c, D.Width, D.Height))[k] == if InRect(D, k) then c else f[k]
  {
    var rows := Flat(c, D.Width, D.Height);
    var g := Paint(f, D, rows);
    if InRect(D, k) {
      var r: nat :| r < D.Height && InRow(D, r, k);
      PaintedRow(f, D, rows, D.Height, r);
      assert g[k] == RowOf(g, D, r)[k - Start(D, r)];
    } else {
      UnpaintedByte(f, D, rows, D.Height, k);
    }
  }

  lemma InJoined(A: Rect, B: Rect, C: Rect, k: nat)
    requires A.Stride == B.Stride == C.Stride && A.Top == B.Top == C.Top && A.Height == B.Height == C.Height
    requires C.Left == A.Left && B.Left == A.Left + A.Width && C.Width == A.Width + B.Width
    ensures InRect(C, k) <==> InRect(A, k) || InRect(B, k)
  {
    if InRect(A, k) {
      var r: nat :| r < A.Height && InRow(A, r, k);
      assert InRow(C, r, k);
    }
    if InRect(B, k) {
      var r: nat :| r < B.Height && InRow(B, r, k);
      assert InRow(C, r, k);
    }
    if InRect(C, k) {
      var r: nat :| r < C.Height && InRow(C, r, k);
      assert InRow(A, r, k) || InRow(B, r, k);
    }
  }

  /** Two rectangles of one colour side by side are one rectangle. */
  lemma PaintJoined(f: seq<Colour>, A: Rect, B: Rect, C: Rect, c: Colour)
    requires Fits(A, |f|) && Fits(B, |f|) && Fits(C, |f|)
    requires A.Stride == B.Stride == C.Stride && A.Top == B.Top == C.Top && A.Height == B.Height == C.Height
    requires C.Left == A.Left && B.Left == A.Left + A.Width && C.Width == A.Width + B.Width
    ensures Paint(Paint(f, A, Flat(c, A.Width, A.Height)), B, Flat(c, B.Width, B.Height))
         == Paint(f, C, Flat(c, C.Width, C.Height))
  {
    var g := Paint(f, A, Flat(c, A.Width, A.Height));
    var h, p := Paint(g, B, Flat(c, B.Width, B.Height)), Paint(f, C, Flat(c, C.Width, C.Height));
    forall k | 0 <= k < |f|
      ensures h[k] == p[k]
    {
      FlatPixel(f, A, c, k);
      FlatPixel(g, B, c, k);
      FlatPixel(f, C, c, k);
      InJoined(A, B, C, k);
    }
  }

  /** A rectangle with no columns paints nothing. */
  lemma PaintNothing(f: seq<Colour>, A: Rect, c: Colour)
    requires Fits(A, |f|) && A.Width == 0
    ensures Paint(f, A, Flat(c, A.Width, A.Height)) == f
  {
    var g := Paint(f, A, Flat(c, A.Width, A.Height));
    forall k | 0 <= k < |f|
      ensures g[k] == f[k]
    {
      FlatPixel(f, A, c, k);
    }
  }

  /** Paint of one colour. */
  function PaintFlat(f: seq<Colour>, x: nat, y: nat, width: nat, height: nat, c: Colour): (g: seq<Colour>)
    requires x + width <= WIDTH && y + height <= HEIGHT && |f| >= WIDTH * HEIGHT
    ensures |g| == |f|
  {
    WindowFits(x, y, width, height, |f|);
    Paint(f, Window(x, y, width, height), Flat(c, width, height))
  }

  lemma FlatJoined(f: seq<Colour>, x: nat, y: nat, a: nat, b: nat, height: nat, c: Colour)
    requires x + a + b <= WIDTH && y + height <= HEIGHT && |f| >= WIDTH * HEIGHT
    ensures PaintFlat(PaintFlat(f, x, y, a, height, c), x + a, y, b, height, c) == PaintFlat(f, x, y, a + b, height, c)
  {
    WindowFits(x, y, a, height, |f|);
    WindowFits(x + a, y, b, height, |f|);
    WindowFits(x, y, a + b, height, |f|);
    PaintJoined(f, Window(x, y, a, height), Window(x + a, y, b, height), Window(x, y, a + b, height), c);
  }

  lemma FlatNothing(f: seq<Colour>, x: nat, y: nat, height: nat, c: Colour)
    requires x <= WIDTH && y + height <= HEIGHT && |f| >= WIDTH * HEIGHT
    ensures PaintFlat(f, x, y, 0, height, c) == f
  {
    WindowFits(x, y, 0, height, |f|);
    PaintNothing(f, Window(x, y, 0, height), c);
  }

  // ---------------------------------------------------------------------
  // EfiBltVideoFill
  // ---------------------------------------------------------------------

  /** The three passes of a fill: a masked left column, whole bytes, a masked right column. */
  datatype Passes = Passes(Start: int, Bytes: nat, Left: byte, Right: byte)

  /** The passes for a fill of `width` pixels from pixel x of scan line y, as the masks are written. */
  function PassesOf(x: nat, y: nat, width: nat): Passes
    requires width > 0
  {
    PassesFrom(80 * y + x / 8, (x + width - 1) / 8 - x / 8, LeftMask(x % 8), RightMask((x + width - 1) % 8))
  }

  function PassesFrom(start: nat, bytes: nat, left: byte, right: byte): Passes {
    var left1 := if bytes == 0 then And(left, right) else left;
    var right1 := if bytes == 0 then ZERO else right;
    var start2 := if left1 == ONES then start - 1 else start;
    var bytes2 := if left1 == ONES then bytes + 1 else bytes;
    var left2 := if left1 == ONES then ZERO else left1;
    Passes(start2, if right1 == ONES then bytes2 + 1 else bytes2, left2, if right1 == ONES then ZERO else right1)
  }

  /** A fill of exactly the eight pixels of one address paints nothing. */
  predicate Skipped(x: nat, width: nat) { x % 8 == 0 && width == 8 }

  /** From pixel n of the picture on, which is pixel k of its address, the passes paint l pixels,
      then m, then r. */
  predicate Covers(p: Passes, n: nat, k: nat, l: nat, m: nat, r: nat) {
    && (if p.Left == ZERO then l == 0 else l > 0 && 8 * p.Start + k == n && Enables(p.Left, k, k + l))
    && (if p.Bytes <= 1 then m == 0 else m == 8 * (p.Bytes - 1) && 8 * (p.Start + 1) == n + l)
    && (if p.Right == ZERO then r == 0 else r > 0 && 8 * (p.Start + p.Bytes) == n + l + m && Enables(p.Right, 0, r))
  }

  /** A fill inside one address. */
  lemma OnePass(a: nat, k: nat, e: nat, left: byte, right: byte)
    requires k <= e < 8 && Enables(left, k, 8) && Enables(right, 0, e + 1)
    ensures Covers(PassesFrom(a, 0, left, right), 8 * a + k, k, if k == 0 && e == 7 then 0 else e + 1 - k, 0, 0)
  {
    BothEnable(left, right, k, e + 1);
    EnablesAll(And(left, right), k, e + 1);
  }

  /** A fill over several addresses. */
  lemma ManyPasses(a: nat, bytes: nat, k: nat, e: nat, left: byte, right: byte, l: nat, m: nat, r: nat)
    requires k < 8 && e < 8 && bytes > 0 && Enables(left, k, 8) && Enables(right, 0, e + 1)
    requires l == (if k == 0 then 0 else 8 - k) && r == (if e == 7 then 0 else e + 1)
    requires l + m + r == 8 * bytes + e + 1 - k
    ensures Covers(PassesFrom(a, bytes, left, right), 8 * a + k, k, l, m, r)
  {
    EnablesAll(left, k, 8);
    EnablesAll(right, 0, e + 1);
  }

  /** Side by side the passes cover exactly the width of the fill, unless it is exactly the eight
      pixels of one address: then they cover nothing. */
  lemma PassesCover(x: nat, y: nat, width: nat) returns (l: nat, m: nat, r: nat)
    requires width > 0
    ensures Covers(PassesOf(x, y, width), 640 * y + x, x % 8, l, m, r)
    ensures l + m + r == if Skipped(x, width) then 0 else width
  {
    var a, k, bytes, e := Ends(x, y, width);
    var left, right := LeftMask(k), RightMask(e);
    l, m, r := CoverFrom(a, bytes, k, e, width, left, right);
  }

  /** The address and column of the first pixel, and the column of the last with the addresses between. */
  lemma Ends(x: nat, y: nat, width: nat) returns (a: nat, k: nat, bytes: nat, e: nat)
    requires width > 0
    ensures a == 80 * y + x / 8 && k == x % 8 && bytes == (x + width - 1) / 8 - x / 8 && e == (x + width - 1) % 8
    ensures k < 8 && e < 8 && 8 * a + k == 640 * y + x && width == 8 * bytes + e + 1 - k
  {
    a, k, bytes, e := 80 * y + x / 8, x % 8, (x + width - 1) / 8 - x / 8, (x + width - 1) % 8;
  }

  lemma CoverFrom(a: nat, bytes: nat, k: nat, e: nat, width: nat, left: byte, right: byte) returns (l: nat, m: nat, r: nat)
    requires k < 8 && e < 8 && Enables(left, k, 8) && Enables(right, 0, e + 1) && 0 < width == 8 * bytes + e + 1 - k
    ensures Covers(PassesFrom(a, bytes, left, right), 8 * a + k, k, l, m, r)
    ensures l + m + r == if k == 0 && width == 8 then 0 else width
  {
    if bytes == 0 {
      l, m, r := if k == 0 && e == 7 then 0 else width, 0, 0;
      OnePass(a, k, e, left, right);
    } else {
      l, r := if k == 0 then 0 else 8 - k, if e == 7 then 0 else e + 1;
      m := width - l - r;
      ManyPasses(a, bytes, k, e, left, right, l, m, r);
    }
  }

  /** A masked pass, skipped when its mask is empty. */
  method MaskedPass(vga: Controller, start: int, mask: byte, c: Colour, height: nat, ghost left: nat, ghost x: nat,
                    ghost y: nat, ghost w: nat, ghost f: seq<Colour>, ghost g: seq<Colour>)
    requires x + w <= WIDTH && y + height <= HEIGHT && |f| >= WIDTH * HEIGHT && g == PaintFlat(f, x, y, w, height, c)
    requires Pixels(vga.Memory[..]) == f && vga.WriteMode == 2 && vga.Function == 0
    requires if mask == ZERO then w == 0 else w > 0 && 8 * start + left == 640 * y + x && Enables(mask, left, left + w)
    modifies vga`Latch, vga`BitMaskRegister, vga.Memory
    ensures Pixels(vga.Memory[..]) == g
  {
    if mask != ZERO {
      WindowFits(x, y, w, height, |f|);
      PaintColumn(vga, start, mask, left, left + w, c, height, Window(x, y, w, height), Flat(c, w, height), f);
    } else {
      FlatNothing(f, x, y, height, c);
    }
  }

  /** The pass over whole bytes. */
  method MiddlePass(vga: Controller, start: int, bytes: nat, c: Colour, height: nat, ghost x: nat, ghost y: nat,
                    ghost w: nat, ghost f: seq<Colour>, ghost g: seq<Colour>)
    requires x + w <= WIDTH && y + height <= HEIGHT && |f| >= WIDTH * HEIGHT && g == PaintFlat(f, x, y, w, height, c)
    requires Pixels(vga.Memory[..]) == f && vga.WriteMode == 2 && vga.Function == 0
    requires if bytes <= 1 then w == 0 else w == 8 * (bytes - 1) && 8 * (start + 1) == 640 * y + x
    modifies vga`BitMaskRegister, vga.Memory
    ensures Pixels(vga.Memory[..]) == g
  {
    if bytes > 1 {
      WindowFits(x, y, w, height, |f|);
      PaintMiddle(vga, start + 1, bytes - 1, c, height, Window(x, y, w, height), Flat(c, w, height), f);
    } else {
      FlatNothing(f, x, y, height, c);
    }
  }

  lemma FlatThree(f: seq<Colour>, x: nat, y: nat, l: nat, m: nat, r: nat, height: nat, c: Colour, g: seq<Colour>,
                  h: seq<Colour>, all: seq<Colour>)
    requires x + l + m + r <= WIDTH && y + height <= HEIGHT && |f| >= WIDTH * HEIGHT
    requires g == PaintFlat(f, x, y, l, height, c) && h == PaintFlat(g, x + l, y, m, height, c)
    requires all == PaintFlat(f, x, y, l + m + r, height, c)
    ensures all == PaintFlat(h, x + l + m, y, r, height, c)
  {
    FlatJoined(f, x, y, l, m, height, c);
    FlatJoined(f, x, y, l + m, r, height, c);
    assert x + (l + m) == x + l + m;
  }

  /** The three passes. */
  method RunPasses(vga: Controller, p: Passes, c: Colour, height: nat, ghost x: nat, ghost y: nat, ghost l: nat,
                   ghost m: nat, ghost r: nat, ghost f: seq<Colour>, ghost all: seq<Colour>)
    requires x + l + m + r <= WIDTH && y + height <= HEIGHT && Covers(p, 640 * y + x, x % 8, l, m, r)
    requires Pixels(vga.Memory[..]) == f && |f| >= WIDTH * HEIGHT && vga.WriteMode == 2 && vga.Function == 0
    requires all == PaintFlat(f, x, y, l + m + r, height, c)
    modifies vga`Latch, vga`BitMaskRegister, vga.Memory
    ensures Pixels(vga.Memory[..]) == all
  {
    ghost var g := PaintFlat(f, x, y, l, height, c);
    ghost var h := PaintFlat(g, x + l, y, m, height, c);
    FlatThree(f, x, y, l, m, r, height, c, g, h, all);
    MaskedPass(vga, p.Start, p.Left, c, height, x % 8, x, y, l, f, g);
    MiddlePass(vga, p.Start, p.Bytes, c, height, x + l, y, m, g, h);
    MaskedPass(vga, p.Start + p.Bytes, p.Right, c, height, 0, x + l + m, y, r, h, all);
  }

  lemma FillResult(f: seq<Colour>, c: Colour, x: nat, y: nat, width: nat, height: nat, w: nat, all: seq<Colour>)
    requires x + width <= WIDTH && y + height <= HEIGHT && |f| >= WIDTH * HEIGHT
    requires w == if Skipped(x, width) then 0 else width
    requires all == if Skipped(x, width) then f else PaintFlat(f, x, y, width, height, c)
    ensures all == PaintFlat(f, x, y, w, height, c)
  {
    FlatNothing(f, x, y, height, c);
  }

  method FillWith(vga: Controller, p: Passes, c: Colour, height: nat, ghost x: nat, ghost y: nat, ghost width: nat,
                  ghost f: seq<Colour>, ghost all: seq<Colour>)
    requires x + width <= WIDTH && y + height <= HEIGHT && width > 0 && p == PassesOf(x, y, width)
    requires Pixels(vga.Memory[..]) == f && |f| >= WIDTH * HEIGHT && vga.WriteMode == 2 && vga.Function == 0
    requires all == if Skipped(x, width) then f else PaintFlat(f, x, y, width, height, c)
    modifies vga`Latch, vga`BitMaskRegister, vga.Memory
    ensures Pixels(vga.Memory[..]) == all
  {
    ghost var l, m, r := PassesCover(x, y, width);
    FillResult(f, c, x, y, width, height, l + m + r, all);
    RunPasses(vga, p, c, height, x, y, l, m, r, f, all);
  }

  /** EfiBltVideoFill paints exactly its rectangle, except when it is exactly the eight pixels of one
      address wide: then it paints nothing. */
  method VideoFill(vga: Controller, c: Colour, x: nat, y: nat, width: nat, height: nat, ghost f: seq<Colour>)
    requires x + width <= WIDTH && y + height <= HEIGHT && width > 0
    requires Pixels(vga.Memory[..]) == f && |f| >= WIDTH * HEIGHT
    modifies vga`WriteMode, vga`Function, vga`Latch, vga`BitMaskRegister, vga.Memory
    ensures Pixels(vga.Memory[..]) == if Skipped(x, width) then f else PaintFlat(f, x, y, width, height, c)
  {
    ghost var all := if Skipped(x, width) then f else PaintFlat(f, x, y, width, height, c);
    vga.WriteMode, vga.Function := 2, 0;
    FillWith(vga, PassesOf(x, y, width), c, height, x, y, width, f, all);
  }
}
