/** Whole pictures through the planes of a VGA device: writing the pixels of a BltBuffer, reading them
    back, and what a picture written and read back looks like. */
module VgaLines {
  import opened Bits
  import opened Frames
  import opened Colours
  import opened VgaPlanar
  import opened VgaBlt
  import opened VideoMemory

  // ---------------------------------------------------------------------
  // Colours
  // ---------------------------------------------------------------------

  function Value(b: byte): nat {
    var v := (i: int) requires 0 <= i < 8 => if b.Bits[i] then 1 else 0;
    v(0) + 2 * v(1) + 4 * v(2) + 8 * v(3) + 16 * v(4) + 32 * v(5) + 64 * v(6) + 128 * v(7)
  }

  /** VgaConvertColor: the highest bit of each component, and the intensity bit above 0x180. */
  function Convert(x: Pixel): Colour {
    Colour(x.Blue.Bits[7], x.Green.Bits[7], x.Red.Bits[7], Value(x.Red) + Value(x.Green) + Value(x.Blue) > 0x180)
  }

  function Number(c: Colour): (n: nat)
    ensures n < 16
  {
    (if c.B0 then 1 else 0) + (if c.B1 then 2 else 0) + (if c.B2 then 4 else 0) + (if c.B3 then 8 else 0)
  }

  function Entry(blue: nat, green: nat, red: nat): Pixel { Pixel(Hex(blue), Hex(green), Hex(red), ZERO) }

  /** The colour table. */
  function Palette(n: nat): Pixel
    requires n < 16
  {
    match n
    case 0 => Entry(0x00, 0x00, 0x00)
    case 1 => Entry(0x98, 0x00, 0x00)
    case 2 => Entry(0x00, 0x98, 0x00)
    case 3 => Entry(0x98, 0x98, 0x00)
    case 4 => Entry(0x00, 0x00, 0x98)
    case 5 => Entry(0x98, 0x00, 0x98)
    case 6 => Entry(0x00, 0x98, 0x98)
    case 7 => Entry(0x98, 0x98, 0x98)
    case 8 => Entry(0x10, 0x10, 0x10)
    case 9 => Entry(0xff, 0x10, 0x10)
    case 10 => Entry(0x10, 0xff, 0x10)
    case 11 => Entry(0xff, 0xff, 0x10)
    case 12 => Entry(0x10, 0x10, 0xff)
    case 13 => Entry(0xf0, 0x10, 0xff)
    case 14 => Entry(0x10, 0xff, 0xff)
    case _ => Entry(0xff, 0xff, 0xff)
  }

  /** The colour shown for a pixel that is written. */
  function Shown(x: Pixel): Pixel { Palette(Number(Convert(x))) }

  // ---------------------------------------------------------------------
  // EfiBltBufferToVideo
  // ---------------------------------------------------------------------

  /** Pixel j of a line has been written: all before column `bit` of each eight, and in that column
      those before n. */
  predicate Written(j: int, bit: int, n: int) { j % 8 < bit || (j % 8 == bit && j < n) }

  /** The picture while a line is being written. */
  ghost predicate LineProgress(f: seq<Colour>, g: seq<Colour>, start: nat, line: seq<Colour>, bit: nat, n: nat) {
    && |g| == |f| && start + |line| <= |f|
    && forall k :: 0 <= k < |f| ==>
         g[k] == if start <= k < start + |line| && Written(k - start, bit, n) then line[k - start] else f[k]
  }

  lemma LineStart(f: seq<Colour>, start: nat, line: seq<Colour>)
    requires start + |line| <= |f|
    ensures LineProgress(f, f, start, line, 0, 0)
  {
  }

  /** Writing pixel n of the line. */
  lemma LineStep(f: seq<Colour>, g: seq<Colour>, h: seq<Colour>, start: nat, line: seq<Colour>, bit: nat, n: nat)
    requires LineProgress(f, g, start, line, bit, n) && bit < 8 && n % 8 == bit && n < |line|
    requires h == Overwrite(g, start + n, Repeat(line[n], 1))
    ensures LineProgress(f, h, start, line, bit, n + 8)
  {
  }

  /** The columns of one bit are done. */
  lemma LineNextBit(f: seq<Colour>, g: seq<Colour>, start: nat, line: seq<Colour>, bit: nat, n: nat)
    requires LineProgress(f, g, start, line, bit, n) && bit < 8 && n >= |line|
    ensures LineProgress(f, g, start, line, bit + 1, bit + 1)
  {
  }

  lemma LineDone(f: seq<Colour>, g: seq<Colour>, start: nat, line: seq<Colour>)
    requires LineProgress(f, g, start, line, 8, 8)
    ensures g == Overwrite(f, start, line)
  {
  }

  /** The writes for the columns of one bit: every eighth pixel of the line. */
  method PaintBit(vga: Controller, line: array<Colour>, width: nat, addressFix: nat, bit: nat, ghost start: nat,
                  ghost column: nat, ghost f: seq<Colour>, ghost g: seq<Colour>) returns (ghost h: seq<Colour>)
    requires vga.WriteMode == 2 && vga.Function == 0 && Pixels(vga.Memory[..]) == g
    requires bit < 8 && column < 8 && Enables(vga.BitMaskRegister, column, column + 1)
    requires 8 * addressFix + column == start + bit && width <= line.Length
    requires LineProgress(f, g, start, line[..width], bit, bit)
    modifies vga`Latch, vga.Memory
    ensures Pixels(vga.Memory[..]) == h && LineProgress(f, h, start, line[..width], bit + 1, bit + 1)
  {
    h := g;
    var index, address := bit, addressFix;
    ghost var l := line[..width];
    while index < width
      invariant index % 8 == bit && 8 * address + column == start + index
      invariant Pixels(vga.Memory[..]) == h && LineProgress(f, h, start, l, bit, index)
    {
      ghost var h' := Overwrite(h, start + index, Repeat(line[index], 1));
      PaintMasked(vga, address, column, column + 1, line[index], start + index, h, h');
      LineStep(f, h, h', start, l, bit, index);
      h := h';
      index, address := index + 8, address + 1;
    }
    LineNextBit(f, h, start, l, bit, index);
  }

  /** Writes a line of colours: the columns of each bit in turn, moving the mask by one pixel each
      time. The mask comes back to where it was. */
  method PaintLine(vga: Controller, line: array<Colour>, width: nat, address: nat, leftMask: byte, ghost k: nat,
                   ghost start: nat, ghost l: seq<Colour>, ghost f: seq<Colour>, ghost h: seq<Colour>) returns (mask: byte)
    requires vga.WriteMode == 2 && vga.Function == 0 && Pixels(vga.Memory[..]) == f
    requires k < 8 && leftMask == BitMask(k) && width <= line.Length && line[..width] == l
    requires start == 8 * address + k && start + width <= |f| && h == Overwrite(f, start, l)
    modifies vga`Latch, vga`BitMaskRegister, vga.Memory
    ensures mask == leftMask && Pixels(vga.Memory[..]) == h
  {
    ghost var g, column := f, k;
    mask := leftMask;
    var addressFix := address;
    LineStart(f, start, l);
    for bit := 0 to 8
      invariant column < 8 && mask == BitMask(column) && 8 * addressFix + column == start + bit
      invariant column == if k + bit < 8 then k + bit else k + bit - 8
      invariant line[..width] == l
      invariant Pixels(vga.Memory[..]) == g && LineProgress(f, g, start, l, bit, bit)
    {
      vga.BitMaskRegister := mask;
      g := PaintBit(vga, line, width, addressFix, bit, start, column, f, g);
      MaskShifts(column);
      mask := ShiftRight(mask);
      if mask == ZERO {
        mask := BitMask(0);
        addressFix := addressFix + 1;
      }
      column := if column < 7 then column + 1 else 0;
    }
    LineDone(f, g, start, l);
  }

  /** The colours for row r of a rectangle of a BltBuffer. */
  function Converted(blt: seq<Pixel>, B: Rect, r: nat): (line: seq<Colour>)
    requires Fits(B, |blt|) && r < B.Height
    ensures |line| == B.Width && forall j :: 0 <= j < B.Width ==> line[j] == Convert(RowOf(blt, B, r)[j])
  {
    seq(B.Width, j requires 0 <= j < B.Width => Convert(RowOf(blt, B, r)[j]))
  }

  function ConvertedRows(blt: seq<Pixel>, B: Rect): (rows: seq<seq<Colour>>)
    requires Fits(B, |blt|)
    ensures Fills(B, rows) && forall r :: 0 <= r < B.Height ==> rows[r] == Converted(blt, B, r)
  {
    seq(B.Height, r requires 0 <= r < B.Height => Converted(blt, B, r))
  }

  /** A rectangle of a BltBuffer, counted in pixels. */
  function BltWindow(x: nat, y: nat, width: nat, height: nat, delta: nat): Rect {
    Rect((if delta == 0 then 4 * width else delta) / 4, x, y, width, height)
  }

  method FillLine(line: array<Colour>, blt: seq<Pixel>, B: Rect, r: nat, ghost data: seq<Colour>)
    requires Fits(B, |blt|) && r < B.Height && B.Width <= line.Length && data == Converted(blt, B, r)
    modifies line
    ensures line[..B.Width] == data
  {
    var start := Start(B, r);
    for j := 0 to B.Width
      invariant line[..j] == data[..j]
    {
      assert blt[start + j] == RowOf(blt, B, r)[j];
      line[j] := Convert(blt[start + j]);
    }
  }

  lemma NextLine(f: seq<Colour>, D: Rect, rows: seq<seq<Colour>>, r: nat, start: nat, data: seq<Colour>)
    requires Fits(D, |f|) && Fills(D, rows) && r < D.Height && D.Stride == WIDTH
    requires start == 640 * (D.Top + r) + D.Left && data == rows[r]
    ensures |data| == D.Width && start + |data| <= |f|
    ensures PaintTo(f, D, rows, r + 1) == Overwrite(PaintTo(f, D, rows, r), start, data)
  {
    WindowStart(D, r);
  }

  /** One line of EfiBltBufferToVideo. */
  method PaintRow(vga: Controller, lineBuffer: array<Colour>, blt: seq<Pixel>, B: Rect, r: nat, address: nat, leftMask: byte,
                  ghost k: nat, ghost D: Rect, ghost rows: seq<seq<Colour>>, ghost f: seq<Colour>) returns (mask: byte)
    requires Fits(B, |blt|) && r < B.Height == D.Height && B.Width == D.Width <= lineBuffer.Length
    requires Fits(D, |f|) && D.Stride == WIDTH && rows == ConvertedRows(blt, B)
    requires vga.WriteMode == 2 && vga.Function == 0 && Pixels(vga.Memory[..]) == PaintTo(f, D, rows, r)
    requires k < 8 && leftMask == BitMask(k) && 8 * address + k == 640 * (D.Top + r) + D.Left
    modifies vga`Latch, vga`BitMaskRegister, vga.Memory, lineBuffer
    ensures mask == leftMask && Pixels(vga.Memory[..]) == PaintTo(f, D, rows, r + 1)
  {
    ghost var start, data := 8 * address + k, rows[r];
    ghost var g, h := PaintTo(f, D, rows, r), PaintTo(f, D, rows, r + 1);
    NextLine(f, D, rows, r, start, data);
    FillLine(lineBuffer, blt, B, r, data);
    mask := PaintLine(vga, lineBuffer, B.Width, address, leftMask, k, start, data, g, h);
  }

  /** EfiBltBufferToVideo: every pixel of the rectangle takes its converted colour, and no other pixel
      changes, for every column and width. */
  method BufferToVideo(vga: Controller, lineBuffer: array<Colour>, blt: seq<Pixel>, sourceX: nat, sourceY: nat,
                       destinationX: nat, destinationY: nat, width: nat, height: nat, delta: nat, ghost f: seq<Colour>)
    requires Pixels(vga.Memory[..]) == f && width <= lineBuffer.Length
    requires Fits(Window(destinationX, destinationY, width, height), |f|)
    requires Fits(BltWindow(sourceX, sourceY, width, height, delta), |blt|)
    modifies vga`WriteMode, vga`Function, vga`Latch, vga`BitMaskRegister, vga.Memory, lineBuffer
    ensures Pixels(vga.Memory[..]) == Paint(f, Window(destinationX, destinationY, width, height),
                                            ConvertedRows(blt, BltWindow(sourceX, sourceY, width, height, delta)))
  {
    var B := BltWindow(sourceX, sourceY, width, height, delta);
    ghost var D := Window(destinationX, destinationY, width, height);
    ghost var rows := ConvertedRows(blt, B);
    var leftMask := BitMask(destinationX % 8);
    vga.WriteMode, vga.Function := 2, 0;
    var address := 80 * destinationY + destinationX / 8;
    for i := 0 to height
      invariant leftMask == BitMask(destinationX % 8) && vga.WriteMode == 2 && vga.Function == 0
      invariant 8 * address + destinationX % 8 == 640 * (destinationY + i) + destinationX
      invariant Pixels(vga.Memory[..]) == PaintTo(f, D, rows, i)
    {
      leftMask := PaintRow(vga, lineBuffer, blt, B, i, address, leftMask, destinationX % 8, D, rows, f);
      address := address + BYTES_PER_SCAN_LINE;
    }
  }

  // ---------------------------------------------------------------------
  // EfiBltVideoToBltBuffer
  // ---------------------------------------------------------------------

  /** The working buffer holds plane p of address a. */
  predicate Copied(b: seq<byte>, mem: seq<Cell>, p: nat, a: nat) {
    p < 4 && a < BYTES_PER_BIT_PLANE && a < |mem| && BYTES_PER_BIT_PLANE * p + a < |b|
    && b[BYTES_PER_BIT_PLANE * p + a] == Plane(mem[a], p)
  }

  predicate AllCopied(b: seq<byte>, mem: seq<Cell>, a: nat) {
    Copied(b, mem, 0, a) && Copied(b, mem, 1, a) && Copied(b, mem, 2, a) && Copied(b, mem, 3, a)
  }

  /** Address a lies in `width` bytes of one of `height` scan lines from address `start` on. */
  predicate InBytes(a: nat, start: nat, width: nat, height: nat) {
    start <= a && (a - start) % 80 < width && (a - start) / 80 < height
  }

  /** The planes before `plane`, and of that plane the addresses before `limit`, are copied. */
  ghost predicate PlanesRead(b: seq<byte>, mem: seq<Cell>, start: nat, width: nat, height: nat, plane: nat, limit: nat) {
    forall p: nat, a: nat :: InBytes(a, start, width, height) && (p < plane || (p == plane && a < limit)) ==> Copied(b, mem, p, a)
  }

  lemma PlaneStep(b: seq<byte>, mem: seq<Cell>, start: nat, width: nat, height: nat, plane: nat, a: nat)
    requires PlanesRead(b, mem, start, width, height, plane, a)
    requires plane < 4 && a < BYTES_PER_BIT_PLANE <= |mem| && |b| == 4 * BYTES_PER_BIT_PLANE
    ensures PlanesRead(b[BYTES_PER_BIT_PLANE * plane + a := Plane(mem[a], plane)], mem, start, width, height, plane, a + 1)
  {
    var c := b[BYTES_PER_BIT_PLANE * plane + a := Plane(mem[a], plane)];
    forall p: nat, q: nat | InBytes(q, start, width, height) && (p < plane || (p == plane && q < a + 1))
      ensures Copied(c, mem, p, q)
    {
      if p < plane || q < a {
        assert Copied(b, mem, p, q);
      }
    }
  }

  /** The addresses from the end of one scan line's bytes to the next scan line are not wanted. */
  lemma PlaneNextRow(b: seq<byte>, mem: seq<Cell>, start: nat, width: nat, height: nat, plane: nat, row: nat)
    requires PlanesRead(b, mem, start, width, height, plane, start + 80 * row + width)
    ensures PlanesRead(b, mem, start, width, height, plane, start + 80 * (row + 1))
  {
    forall p: nat, q: nat | InBytes(q, start, width, height) && (p < plane || (p == plane && q < start + 80 * (row + 1)))
      ensures Copied(b, mem, p, q)
    {
      assert p < plane || q < start + 80 * row + width;
    }
  }

  lemma PlaneDone(b: seq<byte>, mem: seq<Cell>, start: nat, width: nat, height: nat, plane: nat)
    requires PlanesRead(b, mem, start, width, height, plane, start + 80 * height)
    ensures PlanesRead(b, mem, start, width, height, plane + 1, start)
  {
    forall p: nat, q: nat | InBytes(q, start, width, height) && (p < plane + 1 || (p == plane + 1 && q < start))
      ensures Copied(b, mem, p, q)
    {
      assert p <= plane && q < start + 80 * height;
    }
  }

  /** One scan line of one plane. */
  method ReadPlaneRow(vga: Controller, buffer: array<byte>, source: nat, widthInBytes: nat, plane: nat, ghost start: nat,
                      ghost height: nat, ghost mem: seq<Cell>)
    requires vga.Memory[..] == mem && vga.ReadMap == plane < 4 && buffer.Length == 4 * BYTES_PER_BIT_PLANE
    requires source + widthInBytes <= BYTES_PER_BIT_PLANE <= |mem|
    requires PlanesRead(buffer[..], mem, start, widthInBytes, height, plane, source)
    modifies vga`Latch, buffer
    ensures PlanesRead(buffer[..], mem, start, widthInBytes, height, plane, source + widthInBytes)
  {
    for j := 0 to widthInBytes
      invariant PlanesRead(buffer[..], mem, start, widthInBytes, height, plane, source + j)
    {
      var data := vga.Read(source + j);
      PlaneStep(buffer[..], mem, start, widthInBytes, height, plane, source + j);
      buffer[BYTES_PER_BIT_PLANE * plane + (source + j)] := data;
    }
  }

  /** One plane. */
  method ReadPlane(vga: Controller, buffer: array<byte>, start: nat, widthInBytes: nat, height: nat, plane: nat,
                   ghost mem: seq<Cell>)
    requires vga.Memory[..] == mem && vga.ReadMap == plane < 4 && buffer.Length == 4 * BYTES_PER_BIT_PLANE <= 4 * |mem|
    requires height > 0 && start + 80 * (height - 1) + widthInBytes <= BYTES_PER_BIT_PLANE
    requires PlanesRead(buffer[..], mem, start, widthInBytes, height, plane, start)
    modifies vga`Latch, buffer
    ensures PlanesRead(buffer[..], mem, start, widthInBytes, height, plane + 1, start)
  {
    var source := start;
    for row := 0 to height
      invariant source == start + 80 * row
      invariant PlanesRead(buffer[..], mem, start, widthInBytes, height, plane, source)
    {
      ReadPlaneRow(vga, buffer, source, widthInBytes, plane, start, height, mem);
      PlaneNextRow(buffer[..], mem, start, widthInBytes, height, plane, row);
      source := source + BYTES_PER_SCAN_LINE;
    }
    PlaneDone(buffer[..], mem, start, widthInBytes, height, plane);
  }

  /** VgaReadBitPlanes: the bytes of every plane, to the same places of a working buffer that holds
      the planes one after the other. */
  method ReadBitPlanes(vga: Controller, buffer: array<byte>, start: nat, widthInBytes: nat, height: nat, ghost mem: seq<Cell>)
    requires vga.Memory[..] == mem && buffer.Length == 4 * BYTES_PER_BIT_PLANE <= 4 * |mem|
    requires height > 0 && start + 80 * (height - 1) + widthInBytes <= BYTES_PER_BIT_PLANE
    modifies vga`WriteMode, vga`ReadMap, vga`Latch, buffer
    ensures PlanesRead(buffer[..], mem, start, widthInBytes, height, 4, start)
  {
    vga.WriteMode := 0;
    for plane := 0 to 4
      invariant PlanesRead(buffer[..], mem, start, widthInBytes, height, plane, start)
    {
      vga.ReadMap := plane;
      ReadPlane(vga, buffer, start, widthInBytes, height, plane, mem);
    }
  }

  lemma BitSet(b: byte, k: nat)
    requires k < 8
    ensures And(b, BitMask(k)) != ZERO <==> b.Bits[7 - k]
  {
    var c := And(b, BitMask(k));
    if b.Bits[7 - k] {
      assert c.Bits[7 - k];
    } else {
      SameBits(c, ZERO);
    }
  }

  /** The value of the planes before p at a pixel. */
  function PartialNumber(c: Colour, p: nat): nat {
    (if p > 0 && c.B0 then 1 else 0) + (if p > 1 && c.B1 then 2 else 0)
    + (if p > 2 && c.B2 then 4 else 0) + (if p > 3 && c.B3 then 8 else 0)
  }

  /** VgaConvertToGraphicsOutputColor: collects the bits of the four planes and looks up the colour. */
  method ConvertPixel(buffer: array<byte>, x: nat, y: nat, ghost mem: seq<Cell>) returns (pixel: Pixel)
    requires 80 * y + x / 8 < |mem| && AllCopied(buffer[..], mem, 80 * y + x / 8)
    ensures pixel == Palette(Number(ColourAt(mem[80 * y + x / 8], x % 8)))
  {
    var a, mask := 80 * y + x / 8, BitMask(x % 8);
    ghost var c := ColourAt(mem[a], x % 8);
    var bit, colour := 1, 0;
    for p := 0 to 4
      invariant bit == (if p == 0 then 1 else if p == 1 then 2 else if p == 2 then 4 else if p == 3 then 8 else 16)
      invariant colour == PartialNumber(c, p)
    {
      assert Copied(buffer[..], mem, p, a);
      var data := buffer[BYTES_PER_BIT_PLANE * p + a];
      BitSet(data, x % 8);
      if And(data, mask) != ZERO {
        colour := colour + bit;
      }
      bit := 2 * bit;
    }
    pixel := Palette(colour);
  }

  /** The colours read from row r of a rectangle of the picture. */
  function ShownRow(f: seq<Colour>, S: Rect, r: nat): (xs: seq<Pixel>)
    requires Fits(S, |f|) && r < S.Height
    ensures |xs| == S.Width && forall j :: 0 <= j < S.Width ==> xs[j] == Palette(Number(RowOf(f, S, r)[j]))
  {
    seq(S.Width, j requires 0 <= j < S.Width => Palette(Number(RowOf(f, S, r)[j])))
  }

  function ShownRows(f: seq<Colour>, S: Rect): (rows: seq<seq<Pixel>>)
    requires Fits(S, |f|)
    ensures Fills(S, rows) && forall r :: 0 <= r < S.Height ==> rows[r] == ShownRow(f, S, r)
  {
    seq(S.Height, r requires 0 <= r < S.Height => ShownRow(f, S, r))
  }

  /** Pixel x of scan line y, in the planes and in the picture. */
  lemma PixelOfRow(mem: seq<Cell>, f: seq<Colour>, S: Rect, r: nat, j: nat, x: nat, y: nat)
    requires f == Pixels(mem) && Fits(S, |f|) && r < S.Height && j < S.Width && S.Stride == WIDTH
    requires x == S.Left + j < WIDTH && y == S.Top + r
    ensures 80 * y + x / 8 < |mem| && RowOf(f, S, r)[j] == ColourAt(mem[80 * y + x / 8], x % 8)
  {
    WindowStart(S, r);
    var n := 640 * y + x;
    assert n == Start(S, r) + j && n / 8 == 80 * y + x / 8 && n % 8 == x % 8;
    PixelAt(mem, n);
  }

  /** Every pixel of the rectangle has been copied from the planes. */
  lemma PixelCopied(b: seq<byte>, mem: seq<Cell>, x0: nat, y0: nat, width: nat, height: nat, x: nat, y: nat)
    requires width > 0 && x0 <= x < x0 + width <= WIDTH && y0 <= y < y0 + height
    requires PlanesRead(b, mem, 80 * y0 + x0 / 8, (x0 + width - 1) / 8 - x0 / 8 + 1, height, 4, 80 * y0 + x0 / 8)
    ensures AllCopied(b, mem, 80 * y + x / 8)
  {
    var start, bytes := 80 * y0 + x0 / 8, (x0 + width - 1) / 8 - x0 / 8 + 1;
    var a := 80 * y + x / 8;
    assert a - start == 80 * (y - y0) + (x / 8 - x0 / 8) && 0 <= x / 8 - x0 / 8 < bytes <= 80;
    assert InBytes(a, start, bytes, height);
  }

  /** The planes of the rectangle have been read into the working buffer. */
  ghost predicate Loaded(b: seq<byte>, mem: seq<Cell>, S: Rect) {
    && S.Stride == WIDTH && S.Left + S.Width <= WIDTH && S.Width > 0
    && PlanesRead(b, mem, 80 * S.Top + S.Left / 8, (S.Left + S.Width - 1) / 8 - S.Left / 8 + 1, S.Height, 4,
                  80 * S.Top + S.Left / 8)
  }

  /** Pixel j of row r of the rectangle. */
  method ReadPixel(buffer: array<byte>, x: nat, y: nat, ghost S: Rect, ghost r: nat, ghost j: nat, ghost mem: seq<Cell>,
                   ghost data: seq<Pixel>) returns (pixel: Pixel)
    requires Fits(S, |Pixels(mem)|) && r < S.Height && j < S.Width && x == S.Left + j && y == S.Top + r
    requires data == ShownRow(Pixels(mem), S, r) && Loaded(buffer[..], mem, S)
    ensures pixel == data[j]
  {
    PixelOfRow(mem, Pixels(mem), S, r, j, x, y);
    PixelCopied(buffer[..], mem, S.Left, S.Top, S.Width, S.Height, x, y);
    pixel := ConvertPixel(buffer, x, y, mem);
  }

  /** One row of EfiBltVideoToBltBuffer. */
  method ShowRow(buffer: array<byte>, blt: array<Pixel>, sourceX: nat, y: nat, width: nat, at: nat, ghost S: Rect,
                 ghost r: nat, ghost mem: seq<Cell>, ghost data: seq<Pixel>, ghost b: seq<Pixel>, ghost c: seq<Pixel>)
    requires Fits(S, |Pixels(mem)|) && r < S.Height && S.Left == sourceX && S.Width == width && y == S.Top + r
    requires data == ShownRow(Pixels(mem), S, r) && Loaded(buffer[..], mem, S)
    requires blt[..] == b && at + width <= |b| && c == Overwrite(b, at, data)
    modifies blt
    ensures blt[..] == c
  {
    for j := 0 to width
      invariant blt[..] == Overwrite(b, at, data[..j])
    {
      var pixel := ReadPixel(buffer, sourceX + j, y, S, r, j, mem, data);
      OverwriteNext(b, at, data, j);
      blt[at + j] := pixel;
    }
    assert data[..width] == data;
  }

  lemma NextShown(f: seq<Colour>, S: Rect, b: seq<Pixel>, B: Rect, rows: seq<seq<Pixel>>, r: nat, at: nat, data: seq<Pixel>)
    requires Fits(S, |f|) && Fits(B, |b|) && B.Height == S.Height && B.Width == S.Width && r < S.Height
    requires rows == ShownRows(f, S) && at == Start(B, r) && data == rows[r]
    ensures at + B.Width <= |b| && data == ShownRow(f, S, r)
    ensures PaintTo(b, B, rows, r + 1) == Overwrite(PaintTo(b, B, rows, r), at, data)
  {
  }

  /** EfiBltVideoToBltBuffer: the planes are read into the working buffer, and every pixel of the
      BltBuffer's rectangle takes the colour of its number. */
  method VideoToBltBuffer(vga: Controller, buffer: array<byte>, blt: array<Pixel>, sourceX: nat, sourceY: nat,
                          destinationX: nat, destinationY: nat, width: nat, height: nat, delta: nat, ghost b: seq<Pixel>)
    requires sourceX + width <= WIDTH && sourceY + height <= HEIGHT && width > 0 && height > 0
    requires buffer.Length == 4 * BYTES_PER_BIT_PLANE <= 4 * vga.Memory.Length && blt[..] == b
    requires Fits(Window(sourceX, sourceY, width, height), 8 * vga.Memory.Length)
    requires Fits(BltWindow(destinationX, destinationY, width, height, delta), |b|)
    modifies vga`WriteMode, vga`ReadMap, vga`Latch, buffer, blt
    ensures blt[..] == Paint(b, BltWindow(destinationX, destinationY, width, height, delta),
                             ShownRows(Pixels(vga.Memory[..]), Window(sourceX, sourceY, width, height)))
  {
    ghost var mem := vga.Memory[..];
    ghost var S := Window(sourceX, sourceY, width, height);
    ghost var rows := ShownRows(Pixels(mem), S);
    ReadBitPlanes(vga, buffer, 80 * sourceY + sourceX / 8, (sourceX + width - 1) / 8 - sourceX / 8 + 1, height, mem);
    ShowRows(buffer, blt, sourceX, sourceY, width, height, BltWindow(destinationX, destinationY, width, height, delta), S, mem,
             rows, b);
  }

  method ShowRows(buffer: array<byte>, blt: array<Pixel>, sourceX: nat, sourceY: nat, width: nat, height: nat, B: Rect,
                  ghost S: Rect, ghost mem: seq<Cell>, ghost rows: seq<seq<Pixel>>, ghost b: seq<Pixel>)
    requires S == Window(sourceX, sourceY, width, height) && Fits(S, |Pixels(mem)|) && Loaded(buffer[..], mem, S)
    requires Fits(B, |b|) && B.Height == height && B.Width == width && rows == ShownRows(Pixels(mem), S) && blt[..] == b
    modifies blt
    ensures blt[..] == Paint(b, B, rows)
  {
    for i := 0 to height
      invariant blt[..] == PaintTo(b, B, rows, i)
    {
      ghost var data, c, d := rows[i], PaintTo(b, B, rows, i), PaintTo(b, B, rows, i + 1);
      NextShown(Pixels(mem), S, b, B, rows, i, Start(B, i), data);
      ShowRow(buffer, blt, sourceX, sourceY + i, width, Start(B, i), S, i, mem, data, c, d);
    }
  }

  /** Writing a rectangle of the picture and reading the same rectangle back stores, for every pixel
      written, the entry of the colour table for its converted colour. */
  lemma PictureReadsBack(f: seq<Colour>, D: Rect, blt: seq<Pixel>, B: Rect, r: nat)
    requires Fits(D, |f|) && Fits(B, |blt|) && B.Height == D.Height && B.Width == D.Width && r < D.Height
    ensures var xs := ShownRows(Paint(f, D, ConvertedRows(blt, B)), D)[r];
            |xs| == D.Width && forall j :: 0 <= j < D.Width ==> xs[j] == Shown(RowOf(blt, B, r)[j])
  {
    PaintedRow(f, D, ConvertedRows(blt, B), D.Height, r);
  }
}
