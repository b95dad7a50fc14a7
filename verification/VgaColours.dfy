/** Colours on a VGA screen in numbers: which bits of the planes a pixel sets, what the colour table
    holds, and which colours survive being read and written again. */
module VgaColours {
  import opened Bits
  import opened Frames
  import opened Colours
  import opened VgaPlanar
  import opened VgaBlt
  import opened VgaLines

  lemma {:induction false} HighBit(b: byte)
    ensures Value(b) < 0x100 && (b.Bits[7] <==> Value(b) >= 0x80)
  {
  }

  lemma {:induction false} DarkBytes()
    ensures Value(Hex(0x00)) == 0x00 && Value(Hex(0x10)) == 0x10
  {
  }

  lemma {:induction false} HalfByte()
    ensures Value(Hex(0x98)) == 0x98
  {
  }

  lemma {:induction false} FullBytes()
    ensures Value(Hex(0xF0)) == 0xF0 && Value(Hex(0xFF)) == 0xFF
  {
  }

  /** The bytes of the colour table. */
  lemma {:induction false} ByteValue(n: nat)
    requires n in {0x00, 0x10, 0x98, 0xF0, 0xFF}
    ensures Value(Hex(n)) == n
  {
    if n < 0x98 {
      DarkBytes();
    } else if n == 0x98 {
      HalfByte();
    } else {
      FullBytes();
    }
  }

  /** The number of a colour: one bit for each component of 0x80 and more, and one when all three add up
      to more than 0x180. */
  function NumberOf(blue: int, green: int, red: int): (n: nat)
    ensures n < 16
  {
    (if blue >= 0x80 then 1 else 0) + (if green >= 0x80 then 2 else 0) + (if red >= 0x80 then 4 else 0)
    + (if red + green + blue > 0x180 then 8 else 0)
  }

  /** VgaConvertColor gives a pixel the number of its colour. Number 8 is never given, and 7 only to the
      grey in the middle. */
  lemma {:induction false} ConvertedNumber(x: Pixel)
    ensures Number(Convert(x)) == NumberOf(Value(x.Blue), Value(x.Green), Value(x.Red)) != 8
    ensures Number(Convert(x)) == 7 <==> Value(x.Blue) == Value(x.Green) == Value(x.Red) == 0x80
  {
    HighBit(x.Blue);
    HighBit(x.Green);
    HighBit(x.Red);
  }

  /** A component of an entry of the table: 0x98 or nothing without the intensity bit, full or 0x10 with
      it. */
  function Component(bright: bool, on: bool): nat {
    if bright then (if on then 0xFF else 0x10) else if on then 0x98 else 0x00
  }

  /** The pixel has these components. */
  predicate HasValues(x: Pixel, blue: nat, green: nat, red: nat) {
    Value(x.Blue) == blue && Value(x.Green) == green && Value(x.Red) == red && x.Reserved == ZERO
  }

  lemma {:induction false} EntryValues(x: Pixel, blue: nat, green: nat, red: nat)
    requires x == Entry(blue, green, red)
    requires {blue, green, red} <= {0x00, 0x10, 0x98, 0xF0, 0xFF}
    ensures HasValues(x, blue, green, red)
  {
    ByteValue(blue);
    ByteValue(green);
    ByteValue(red);
  }

  /** The blue of an entry: that of number 13 is not full. */
  function BlueOf(c: Colour): nat {
    if c == Colour(true, false, true, true) then 0xF0 else Component(c.B3, c.B0)
  }

  /** The entries of the colour table follow the bits of their numbers. */
  lemma {:induction false} TableEntry(c: Colour)
    ensures HasValues(Palette(Number(c)), BlueOf(c), Component(c.B3, c.B1), Component(c.B3, c.B2))
  {
    var x, blue, green, red := Palette(Number(c)), BlueOf(c), Component(c.B3, c.B1), Component(c.B3, c.B2);
    assert x == Entry(blue, green, red);
    EntryValues(x, blue, green, red);
  }

  /** Entries of the table are converted back to their number, except light grey, which becomes white, and
      the dark grey and three pure ones, which lose the intensity bit. */
  function ConvertedBack(c: Colour): Colour {
    if c == Colour(true, true, true, false) then Colour(true, true, true, true)
    else if !(c.B0 && c.B1) && !(c.B0 && c.B2) && !(c.B1 && c.B2) then Colour(c.B0, c.B1, c.B2, false)
    else c
  }

  lemma {:induction false} EntryConverted(c: Colour)
    ensures Convert(Palette(Number(c))) == ConvertedBack(c)
  {
    var x := Palette(Number(c));
    TableEntry(c);
    HighBit(x.Blue);
    HighBit(x.Green);
    HighBit(x.Red);
  }

  /** A colour read from the screen and written again shows the same if and only if its number is none
      of 7, 9, 10 and 12. */
  lemma {:induction false} ShownAgainIff(x: Pixel)
    ensures Shown(Shown(x)) == Shown(x) <==> Number(Convert(x)) !in {7, 9, 10, 12}
  {
    var c := Convert(x);
    ConvertedNumber(x);
    EntryConverted(c);
    TableEntry(c);
    TableEntry(ConvertedBack(c));
  }

  /** The bits of the four planes at a pixel of a picture. */
  lemma {:induction false} PixelBits(mem: seq<Cell>, n: nat, a: nat, k: nat, blue: int, green: int, red: int, x: Pixel)
    requires n < 8 * |mem| && a == n / 8 && k == 7 - n % 8 && Pixels(mem)[n] == Convert(x)
    requires blue == Value(x.Blue) && green == Value(x.Green) && red == Value(x.Red)
    ensures mem[a].P0.Bits[k] <==> blue >= 0x80
    ensures mem[a].P1.Bits[k] <==> green >= 0x80
    ensures mem[a].P2.Bits[k] <==> red >= 0x80
    ensures mem[a].P3.Bits[k] <==> red + green + blue > 0x180
  {
    PixelAt(mem, n);
    HighBit(x.Blue);
    HighBit(x.Green);
    HighBit(x.Red);
  }

  lemma {:induction false} BltPlace(x: nat, y: nat, width: nat, height: nat, delta: nat, r: nat, j: nat)
    ensures Start(BltWindow(x, y, width, height, delta), r) + j
            == (y + r) * ((if delta == 0 then 4 * width else delta) / 4) + x + j
  {
    TimesIsProduct(y + r, (if delta == 0 then 4 * width else delta) / 4);
  }

  lemma {:induction false} PaintedColour<T>(f: seq<T>, R: Rect, rows: seq<seq<T>>, r: nat, j: nat, g: seq<T>)
    requires Fits(R, |f|) && Fills(R, rows) && r < R.Height && j < R.Width && g == Paint(f, R, rows)
    ensures Start(R, r) + j < |g| == |f| && g[Start(R, r) + j] == rows[r][j]
  {
    PaintedRow(f, R, rows, R.Height, r);
    assert g[Start(R, r) + j] == RowOf(g, R, r)[j];
  }

  lemma {:induction false} RowPlace<T>(f: seq<T>, R: Rect, r: nat, j: nat, n: nat)
    requires Fits(R, |f|) && r < R.Height && j < R.Width && n == Start(R, r) + j
    ensures n < |f| && RowOf(f, R, r)[j] == f[n]
  {
  }

  lemma {:induction false} ConvertedAt(blt: seq<Pixel>, B: Rect, r: nat, j: nat, x: Pixel)
    requires Fits(B, |blt|) && r < B.Height && j < B.Width && RowOf(blt, B, r)[j] == x
    ensures ConvertedRows(blt, B)[r][j] == Convert(x)
  {
    assert ConvertedRows(blt, B)[r] == Converted(blt, B, r);
  }

  lemma {:induction false} ConvertedPlace(f: seq<Colour>, D: Rect, blt: seq<Pixel>, B: Rect, r: nat, j: nat, n: nat, src: nat,
                                          g: seq<Colour>)
    requires Fits(D, |f|) && Fits(B, |blt|) && B.Height == D.Height && B.Width == D.Width && r < D.Height && j < D.Width
    requires g == Paint(f, D, ConvertedRows(blt, B)) && n == Start(D, r) + j && src == Start(B, r) + j
    ensures n < |g| && src < |blt| && g[n] == Convert(blt[src])
  {
    PaintedColour(f, D, ConvertedRows(blt, B), r, j, g);
    RowPlace(blt, B, r, j, src);
    ConvertedAt(blt, B, r, j, blt[src]);
  }

  lemma {:induction false} AddressOf(x: nat, y: nat, n: nat, a: nat, k: nat)
    requires n == 640 * y + x && a == 80 * y + x / 8 && k == 7 - x % 8
    ensures a == n / 8 && k == 7 - n % 8
  {
  }

  /** EfiBltBufferToVideo in bits: in scan line y and column x, bit 7 - x % 8 of the byte at 80 * y + x / 8 of
      each plane says whether blue, green and red of the client's pixel are 0x80 or more, and whether
      they add up to more than 0x180. */
  lemma {:induction false} WrittenBits(f: seq<Colour>, mem: seq<Cell>, blt: seq<Pixel>, sourceX: nat, sourceY: nat,
                                       destinationX: nat, destinationY: nat, width: nat, height: nat, delta: nat,
                                       r: nat, j: nat, a: nat, k: nat, src: nat)
    requires Fits(Window(destinationX, destinationY, width, height), |f|) && destinationX + width <= 640
    requires Fits(BltWindow(sourceX, sourceY, width, height, delta), |blt|) && r < height && j < width
    requires Pixels(mem) == Paint(f, Window(destinationX, destinationY, width, height),
                                  ConvertedRows(blt, BltWindow(sourceX, sourceY, width, height, delta)))
    requires a == 80 * (destinationY + r) + (destinationX + j) / 8 && k == 7 - (destinationX + j) % 8
    requires src == (sourceY + r) * ((if delta == 0 then 4 * width else delta) / 4) + sourceX + j
    ensures a < |mem| && src < |blt|
    ensures mem[a].P0.Bits[k] <==> Value(blt[src].Blue) >= 0x80
    ensures mem[a].P1.Bits[k] <==> Value(blt[src].Green) >= 0x80
    ensures mem[a].P2.Bits[k] <==> Value(blt[src].Red) >= 0x80
    ensures mem[a].P3.Bits[k] <==> Value(blt[src].Red) + Value(blt[src].Green) + Value(blt[src].Blue) > 0x180
  {
    var D, B := Window(destinationX, destinationY, width, height), BltWindow(sourceX, sourceY, width, height, delta);
    var n := 640 * (destinationY + r) + destinationX + j;
    WindowStart(D, r);
    BltPlace(sourceX, sourceY, width, height, delta, r, j);
    ConvertedPlace(f, D, blt, B, r, j, n, src, Pixels(mem));
    AddressOf(destinationX + j, destinationY + r, n, a, k);
    PixelBits(mem, n, a, k, Value(blt[src].Blue), Value(blt[src].Green), Value(blt[src].Red), blt[src]);
  }

  /** VgaReadBitPlanes in bytes: the four planes lie 38400 bytes apart in the working buffer, and the byte of a
      scan line that has been read is at its place in each. */
  lemma {:induction false} PlaneBytes(b: seq<byte>, mem: seq<Cell>, x: nat, y: nat, width: nat, height: nat, i: nat, r: nat,
                                      a: nat)
    requires PlanesRead(b, mem, 80 * y + x, width, height, 4, 80 * y + x)
    requires i < width <= 80 && r < height && a == 80 * (y + r) + x + i
    ensures a < |mem| && 38400 * 3 + a < |b|
    ensures b[a] == mem[a].P0 && b[38400 + a] == mem[a].P1 && b[38400 * 2 + a] == mem[a].P2 && b[38400 * 3 + a] == mem[a].P3
  {
    assert a - (80 * y + x) == 80 * r + i;
    assert InBytes(a, 80 * y + x, width, height);
    assert Copied(b, mem, 0, a) && Copied(b, mem, 1, a) && Copied(b, mem, 2, a) && Copied(b, mem, 3, a);
  }

  /** The number that bit k of the four planes spells. */
  function BitsOf(c: Cell, k: nat): (n: nat)
    requires k < 8
    ensures n < 16
  {
    (if c.P0.Bits[k] then 1 else 0) + (if c.P1.Bits[k] then 2 else 0) + (if c.P2.Bits[k] then 4 else 0)
    + (if c.P3.Bits[k] then 8 else 0)
  }

  lemma {:induction false} PlaneNumber(mem: seq<Cell>, n: nat, a: nat, k: nat)
    requires n < 8 * |mem| && a == n / 8 && k == 7 - n % 8
    ensures Number(Pixels(mem)[n]) == BitsOf(mem[a], k)
  {
    PixelAt(mem, n);
  }

  lemma {:induction false} ShownAt(f: seq<Colour>, S: Rect, r: nat, j: nat, c: Colour)
    requires Fits(S, |f|) && r < S.Height && j < S.Width && RowOf(f, S, r)[j] == c
    ensures ShownRows(f, S)[r][j] == Palette(Number(c))
  {
    assert ShownRows(f, S)[r] == ShownRow(f, S, r);
  }

  lemma {:induction false} ShownPlace(f: seq<Colour>, S: Rect, b: seq<Pixel>, B: Rect, r: nat, j: nat, n: nat, to: nat,
                                      c: seq<Pixel>)
    requires Fits(S, |f|) && Fits(B, |b|) && B.Height == S.Height && B.Width == S.Width && r < S.Height && j < S.Width
    requires c == Paint(b, B, ShownRows(f, S)) && n == Start(S, r) + j && to == Start(B, r) + j
    ensures n < |f| && to < |c| && c[to] == Palette(Number(f[n]))
  {
    PaintedColour(b, B, ShownRows(f, S), r, j, c);
    RowPlace(f, S, r, j, n);
    ShownAt(f, S, r, j, f[n]);
  }

  /** EfiBltVideoToBltBuffer in bits: the client's pixel is the entry of the table whose number the four
      planes spell. */
  lemma {:induction false} ReadBits(b: seq<Pixel>, mem: seq<Cell>, blt: seq<Pixel>, sourceX: nat, sourceY: nat,
                                    destinationX: nat, destinationY: nat, width: nat, height: nat, delta: nat,
                                    r: nat, j: nat, a: nat, k: nat, to: nat)
    requires Fits(Window(sourceX, sourceY, width, height), 8 * |mem|) && sourceX + width <= 640
    requires Fits(BltWindow(destinationX, destinationY, width, height, delta), |b|) && r < height && j < width
    requires blt == Paint(b, BltWindow(destinationX, destinationY, width, height, delta),
                          ShownRows(Pixels(mem), Window(sourceX, sourceY, width, height)))
    requires a == 80 * (sourceY + r) + (sourceX + j) / 8 && k == 7 - (sourceX + j) % 8
    requires to == (destinationY + r) * ((if delta == 0 then 4 * width else delta) / 4) + destinationX + j
    ensures a < |mem| && to < |blt|
    ensures blt[to] == Palette(BitsOf(mem[a], k))
  {
    var S, B := Window(sourceX, sourceY, width, height), BltWindow(destinationX, destinationY, width, height, delta);
    var n := 640 * (sourceY + r) + sourceX + j;
    WindowStart(S, r);
    BltPlace(destinationX, destinationY, width, height, delta, r, j);
    ShownPlace(Pixels(mem), S, b, B, r, j, n, to, blt);
    AddressOf(sourceX + j, sourceY + r, n, a, k);
    PlaneNumber(mem, n, a, k);
  }

  /** A fill on the picture: pixel x of scan line y takes the colour if and only if it lies in the rectangle. */
  lemma {:induction false} FilledPicture(f: seq<Colour>, left: nat, top: nat, width: nat, height: nat, c: Colour, x: nat, y: nat)
    requires left + width <= 640 && top + height <= 480 && |f| >= 640 * 480 && x < 640 && y < 480
    ensures PaintFlat(f, left, top, width, height, c)[640 * y + x]
            == if left <= x < left + width && top <= y < top + height then c else f[640 * y + x]
  {
    var D := Window(left, top, width, height);
    WindowFits(left, top, width, height, |f|);
    FlatPixel(f, D, c, 640 * y + x);
    InWindow(D, x, y);
  }

  lemma {:induction false} InWindow(D: Rect, x: nat, y: nat)
    requires D.Stride == WIDTH && D.Left + D.Width <= 640 && x < 640
    ensures InRect(D, 640 * y + x) <==> D.Left <= x < D.Left + D.Width && D.Top <= y < D.Top + D.Height
  {
    if InRect(D, 640 * y + x) {
      var r: nat :| r < D.Height && InRow(D, r, 640 * y + x);
      WindowStart(D, r);
      assert D.Top + r == y;
    }
    if D.Left <= x < D.Left + D.Width && D.Top <= y < D.Top + D.Height {
      WindowStart(D, y - D.Top);
      assert InRow(D, y - D.Top, 640 * y + x);
    }
  }
}
