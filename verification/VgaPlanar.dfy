/** The planar frame buffer of a VGA device in a 16-colour mode: four bit planes behind every
    address, written through latches and a bit mask register. */
module VgaPlanar {
  import opened Bits
  import opened Frames

  const WIDTH: nat := 640
  const HEIGHT: nat := 480
  const BYTES_PER_SCAN_LINE: nat := 80
  const BYTES_PER_BIT_PLANE: nat := 38400

  /** A colour number of four bits, the lowest first. */
  datatype Colour = Colour(B0: bool, B1: bool, B2: bool, B3: bool)

  /** The bytes of the four bit planes at one address. */
  datatype Cell = Cell(P0: byte, P1: byte, P2: byte, P3: byte)

  function Plane(c: Cell, p: nat): byte { if p == 0 then c.P0 else if p == 1 then c.P1 else if p == 2 then c.P2 else c.P3 }

  /** Pixel k of the eight at one address; the highest bit of each plane is the leftmost pixel. */
  function ColourAt(c: Cell, k: nat): Colour
    requires k < 8
  {
    Colour(c.P0.Bits[7 - k], c.P1.Bits[7 - k], c.P2.Bits[7 - k], c.P3.Bits[7 - k])
  }

  /** The picture: pixel n of the scan lines laid end to end. */
  function Pixels(mem: seq<Cell>): (f: seq<Colour>)
    ensures |f| == 8 * |mem|
  {
    seq(8 * |mem|, n requires 0 <= n < 8 * |mem| => ColourAt(mem[n / 8], n % 8))
  }

  lemma PixelAt(mem: seq<Cell>, n: nat)
    requires n < 8 * |mem|
    ensures Pixels(mem)[n] == ColourAt(mem[n / 8], n % 8)
  {
  }

  /** One plane of a write in mode 2 with function "replace": the colour bit where the mask is set,
      the latch elsewhere. */
  function MergeByte(latch: byte, mask: byte, bit: bool): (b: byte)
    ensures forall i :: 0 <= i < 8 ==> b.Bits[i] == if mask.Bits[i] then bit else latch.Bits[i]
  {
    Byte(seq(8, i requires 0 <= i < 8 => if mask.Bits[i] then bit else latch.Bits[i]))
  }

  function Merge(latch: Cell, mask: byte, c: Colour): Cell {
    Cell(MergeByte(latch.P0, mask, c.B0), MergeByte(latch.P1, mask, c.B1),
         MergeByte(latch.P2, mask, c.B2), MergeByte(latch.P3, mask, c.B3))
  }

  lemma MergedPixel(latch: Cell, mask: byte, c: Colour, k: nat)
    requires k < 8
    ensures ColourAt(Merge(latch, mask, c), k) == if mask.Bits[7 - k] then c else ColourAt(latch, k)
  {
  }

  /** The mask enables exactly the pixels from `left` up to `right` of the eight. */
  predicate Enables(mask: byte, left: nat, right: nat) {
    left <= right <= 8 && forall i :: 0 <= i < 8 ==> mask.Bits[i] == (left <= 7 - i < right)
  }

  function Repeat(c: Colour, n: nat): (s: seq<Colour>)
    ensures |s| == n && forall i :: 0 <= i < n ==> s[i] == c
  {
    seq(n, _ => c)
  }

  /** A write through the latches of the same address paints the enabled pixels and no others; when
      all eight are enabled the latches do not matter. */
  lemma WritePaints(mem: seq<Cell>, a: nat, latch: Cell, mask: byte, left: nat, right: nat, c: Colour)
    requires a < |mem| && Enables(mask, left, right) && (latch == mem[a] || (left == 0 && right == 8))
    ensures Pixels(mem[a := Merge(latch, mask, c)]) == Overwrite(Pixels(mem), 8 * a + left, Repeat(c, right - left))
  {
    var f, g := Pixels(mem), Pixels(mem[a := Merge(latch, mask, c)]);
    var h := Overwrite(f, 8 * a + left, Repeat(c, right - left));
    forall n | 0 <= n < |f|
      ensures g[n] == h[n]
    {
      var b, k := n / 8, n % 8;
      assert n == 8 * b + k;
      if b == a {
        MergedPixel(latch, mask, c, k);
      }
    }
  }

  // ---------------------------------------------------------------------
  // The masks
  // ---------------------------------------------------------------------

  /** A byte from its value. */
  function Hex(n: nat): byte {
    Byte([n % 2 == 1, n / 2 % 2 == 1, n / 4 % 2 == 1, n / 8 % 2 == 1,
          n / 16 % 2 == 1, n / 32 % 2 == 1, n / 64 % 2 == 1, n / 128 % 2 == 1])
  }

  /** The left mask table 0xff, 0x7f, 0x3f, ..., 0x01: 0xff shifted right by k bits. */
  function LeftMask(k: nat): (m: byte)
    requires k < 8
    ensures Enables(m, k, 8)
  {
    Byte(seq(8, i requires 0 <= i < 8 => i + k < 8))
  }

  /** The right mask table 0x80, 0xc0, 0xe0, ..., 0xff: the k + 1 highest bits. */
  function RightMask(k: nat): (m: byte)
    requires k < 8
    ensures Enables(m, 0, k + 1)
  {
    Byte(seq(8, i requires 0 <= i < 8 => i + k >= 7))
  }

  /** The bit mask table 0x80, 0x40, 0x20, ..., 0x01: 0x80 shifted right by k bits. */
  function BitMask(k: nat): (m: byte)
    requires k < 8
    ensures Enables(m, k, k + 1)
  {
    Byte(seq(8, i requires 0 <= i < 8 => i + k == 7))
  }

  lemma BothEnable(l: byte, r: byte, left: nat, right: nat)
    requires left <= right && Enables(l, left, 8) && Enables(r, 0, right)
    ensures Enables(And(l, r), left, right)
  {
  }

  lemma EnablesAll(mask: byte, left: nat, right: nat)
    requires Enables(mask, left, right)
    ensures mask == ONES <==> (left == 0 && right == 8)
    ensures mask == ZERO <==> left == right
  {
    assert mask.Bits[7] == (left <= 0 < right) && mask.Bits[0] == (left <= 7 < right);
    if left == 0 && right == 8 {
      SameBits(mask, ONES);
    }
    if left == right {
      SameBits(mask, ZERO);
    } else {
      assert mask.Bits[7 - left];
    }
  }

  /** A byte shifted right by one bit. */
  function ShiftRight(b: byte): byte { Byte(b.Bits[1..] + [false]) }

  /** Shifting the mask of one pixel moves it to the next, wrapping to the first. */
  lemma MaskShifts(k: nat)
    requires k < 8
    ensures ShiftRight(BitMask(k)) == if k < 7 then BitMask(k + 1) else ZERO
    ensures k < 7 ==> BitMask(k + 1) != ZERO
  {
    var mask := ShiftRight(BitMask(k));
    if k < 7 {
      SameMask(mask, BitMask(k + 1), k + 1, k + 2);
      EnablesAll(mask, k + 1, k + 2);
    } else {
      SameBits(mask, ZERO);
    }
  }

  lemma SameMask(a: byte, b: byte, left: nat, right: nat)
    requires Enables(a, left, right) && Enables(b, left, right)
    ensures a == b
  {
    SameBits(a, b);
  }
}
