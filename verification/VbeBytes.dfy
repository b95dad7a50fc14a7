/** The block transfers of a VESA BIOS device on the bytes of both memories: which bits of the frame
    belong to which byte of the client's buffer, and where. A pixel of a BltBuffer is four bytes: blue,
    green, red and an unused one (section 11.9 of UEFI 2.4). */
module VbeBytes {
  import opened Bits
  import opened Frames
  import opened Colours
  import opened VbeBlt
  import opened VbeDevice

  /** Bit n of the memory from byte `at` on. */
  predicate BitAt(f: seq<byte>, at: nat, n: nat) { at + n / 8 < |f| && f[at + n / 8].Bits[n % 8] }

  /** The bits of the field of the pixel at `at` are those of the colour c. */
  predicate FieldHolds(g: seq<byte>, at: nat, p: Placement, c: byte) {
    forall j :: 0 <= j < 8 && p.Mask.Bits[j] ==> BitAt(g, at, p.Position + j) == c.Bits[j]
  }

  /** The pixel at `at` has these colours in its fields, and zeros in all other bits. */
  predicate PixelHolds(m: Format, g: seq<byte>, at: nat, blue: byte, green: byte, red: byte) {
    && FieldHolds(g, at, m.Blue, blue) && FieldHolds(g, at, m.Green, green) && FieldHolds(g, at, m.Red, red)
    && forall n :: 0 <= n < 8 * m.PixelWidth && !InField(m.Blue, n) && !InField(m.Green, n) && !InField(m.Red, n) ==>
                     !BitAt(g, at, n)
  }

  /** The byte c holds the field of the pixel at `at`, moved down to its lowest bit. */
  predicate HoldsField(c: byte, f: seq<byte>, at: nat, p: Placement) {
    forall j :: 0 <= j < 8 ==> c.Bits[j] == (p.Mask.Bits[j] && BitAt(f, at, p.Position + j))
  }

  /** The byte c is the byte d with the bits cleared that the field does not have. */
  predicate HoldsMasked(c: byte, d: byte, p: Placement) {
    forall j :: 0 <= j < 8 ==> c.Bits[j] == (p.Mask.Bits[j] && d.Bits[j])
  }

  // ---------------------------------------------------------------------
  // One pixel
  // ---------------------------------------------------------------------

  lemma {:induction false} FieldPacked(w: word, c: byte, p: Placement, d: byte, q: Placement, e: byte, s: Placement, j: nat)
    requires Apart(p, q) && Apart(p, s) && j < 8 && p.Mask.Bits[j] && p.Position + j < 32
    requires w == Or(Or(Placed(c, p), Placed(d, q)), Placed(e, s)) || w == Or(Or(Placed(d, q), Placed(c, p)), Placed(e, s))
             || w == Or(Or(Placed(d, q), Placed(e, s)), Placed(c, p))
    ensures w[p.Position + j] == c.Bits[j]
  {
    var n := p.Position + j;
    assert InField(p, n) && !Both(p, q, n) && !Both(p, s, n);
    PlacedBit(c, p, n);
    PlacedBit(d, q, n);
    PlacedBit(e, s, n);
  }

  lemma {:induction false} BitOfPixel(g: seq<byte>, at: nat, w: word, width: nat, n: nat)
    requires width <= 4 && at + width <= |g| && n < 8 * width
    requires forall k :: 0 <= k < width ==> g[at + k] == ByteOf(w, k)
    ensures BitAt(g, at, n) == w[n]
  {
    assert g[at + n / 8] == ByteOf(w, n / 8);
  }

  /** The bytes of a packed pixel. */
  lemma {:induction false} PackedPixel(m: Format, x: Pixel, g: seq<byte>, at: nat)
    requires GoodFields(m) && at + m.PixelWidth <= |g|
    requires forall k :: 0 <= k < m.PixelWidth ==> g[at + k] == ByteOf(Pack(m, x), k)
    ensures PixelHolds(m, g, at, x.Blue, x.Green, x.Red)
  {
    var w, width := Pack(m, x), m.PixelWidth;
    ApartBothWays(m.Red, m.Green);
    ApartBothWays(m.Red, m.Blue);
    ApartBothWays(m.Green, m.Blue);
    forall j | 0 <= j < 8 && m.Blue.Mask.Bits[j]
      ensures BitAt(g, at, m.Blue.Position + j) == x.Blue.Bits[j]
    {
      BitOfPixel(g, at, w, width, m.Blue.Position + j);
      FieldPacked(w, x.Blue, m.Blue, x.Red, m.Red, x.Green, m.Green, j);
    }
    forall j | 0 <= j < 8 && m.Green.Mask.Bits[j]
      ensures BitAt(g, at, m.Green.Position + j) == x.Green.Bits[j]
    {
      BitOfPixel(g, at, w, width, m.Green.Position + j);
      FieldPacked(w, x.Green, m.Green, x.Red, m.Red, x.Blue, m.Blue, j);
    }
    forall j | 0 <= j < 8 && m.Red.Mask.Bits[j]
      ensures BitAt(g, at, m.Red.Position + j) == x.Red.Bits[j]
    {
      BitOfPixel(g, at, w, width, m.Red.Position + j);
      FieldPacked(w, x.Red, m.Red, x.Green, m.Green, x.Blue, m.Blue, j);
    }
    forall n | 0 <= n < 8 * width && !InField(m.Blue, n) && !InField(m.Green, n) && !InField(m.Red, n)
      ensures !BitAt(g, at, n)
    {
      BitOfPixel(g, at, w, width, n);
      PackBit(m, x, n);
    }
  }

  lemma {:induction false} WordAt(f: seq<byte>, at: nat, beyond: byte, width: nat, n: nat)
    requires 3 <= width <= 4 && at + width <= |f| && n < 8 * width
    ensures ReadWord(f, at, beyond)[n] == BitAt(f, at, n)
  {
    WordBit(f[at], f[at + 1], f[at + 2], if at + 3 < |f| then f[at + 3] else beyond, n);
  }

  lemma {:induction false} FieldUnpacked(f: seq<byte>, at: nat, beyond: byte, width: nat, p: Placement)
    requires 3 <= width <= 4 && at + width <= |f| && FitsPixel(p, width)
    ensures HoldsField(FieldOf(ReadWord(f, at, beyond), p), f, at, p)
  {
    forall j | 0 <= j < 8 && p.Mask.Bits[j]
      ensures ReadWord(f, at, beyond)[p.Position + j] == BitAt(f, at, p.Position + j)
    {
      WordAt(f, at, beyond, width, p.Position + j);
    }
  }

  // ---------------------------------------------------------------------
  // Rows
  // ---------------------------------------------------------------------

  lemma {:induction false} PackedByte(m: Format, xs: seq<Pixel>, i: nat, k: nat)
    requires m.PixelWidth <= 4 && i < |xs| && k < m.PixelWidth
    ensures Times(i, m.PixelWidth) + k < |PackRow(m, xs)|
    ensures PackRow(m, xs)[Times(i, m.PixelWidth) + k] == ByteOf(Pack(m, xs[i]), k)
  {
    var n := |xs| - 1;
    TimesAscends(i, |xs|, m.PixelWidth);
    if i < n {
      PackedByte(m, xs[..n], i, k);
    }
  }

  lemma {:induction false} StoredByte(xs: seq<Pixel>, i: nat, k: nat)
    requires i < |xs| && k < 4
    ensures StoreRow(xs)[4 * i + k] == PixelInMemory(xs[i])[k]
  {
    var n := |xs| - 1;
    if i < n {
      StoredByte(xs[..n], i, k);
    }
  }

  lemma {:induction false} UnpackedPixel(m: Format, f: seq<byte>, o: nat, count: nat, beyond: byte, i: nat, place: nat)
    requires m.PixelWidth >= 3 && o + Times(count, m.PixelWidth) <= |f| && i < count && place == o + Times(i, m.PixelWidth)
    ensures place + m.PixelWidth <= |f|
    ensures UnpackRow(m, f, o, count, beyond)[i] == Unpack(m, ReadWord(f, place, beyond))
  {
    TimesAscends(i, count, m.PixelWidth);
    var before := UnpackRow(m, f, o, count - 1, beyond);
    assert UnpackRow(m, f, o, count, beyond)[..count - 1] == before;
    if i < count - 1 {
      UnpackedPixel(m, f, o, count - 1, beyond, i, place);
      assert UnpackRow(m, f, o, count, beyond)[i] == before[i];
    }
  }

  /** Where pixel x of row y of the client's buffer starts. */
  function ClientPlace(q: Request, x: nat, y: nat): nat { Times(y, if q.Delta == 0 then 4 * q.Width else q.Delta) + 4 * x }

  /** The size of a frame and the places of pixels in both memories, as products. */
  lemma {:induction false} PlacesInNumbers(m: Mode, q: Request, x: nat, y: nat)
    ensures FrameBytes(m) == m.VerticalResolution * m.BytesPerScanLine
    ensures Place(m, x, y) == y * m.BytesPerScanLine + x * m.Fields.PixelWidth
    ensures ClientPlace(q, x, y) == y * (if q.Delta == 0 then 4 * q.Width else q.Delta) + 4 * x
  {
    TimesIsProduct(m.VerticalResolution, m.BytesPerScanLine);
    TimesIsProduct(y, m.BytesPerScanLine);
    TimesIsProduct(x, m.Fields.PixelWidth);
    TimesIsProduct(y, if q.Delta == 0 then 4 * q.Width else q.Delta);
  }

  lemma {:induction false} FramePlace(m: Mode, x: nat, y: nat, width: nat, height: nat, r: nat, i: nat)
    ensures Start(Area(m, x, y, width, height), r) + Times(i, m.Fields.PixelWidth) == Place(m, x + i, y + r)
  {
    TimesAdds(x, i, m.Fields.PixelWidth);
  }

  lemma {:induction false} ClientRow(q: Request, B: Rect, x: nat, y: nat, r: nat, i: nat, at: nat)
    requires B == BltArea(x, y, q.Width, q.Height, q.Delta) && at == ClientPlace(q, x + i, y + r)
    ensures at == Start(B, r) + 4 * i
  {
  }

  /** A byte of a painted row. */
  lemma {:induction false} PaintedByte<T>(f: seq<T>, R: Rect, rows: seq<seq<T>>, r: nat, k: nat, g: seq<T>)
    requires Fits(R, |f|) && Fills(R, rows) && r < R.Height && k < R.Width && g == Paint(f, R, rows)
    ensures Start(R, r) + k < |g| == |f| && g[Start(R, r) + k] == rows[r][k]
  {
    PaintedRow(f, R, rows, R.Height, r);
    assert g[Start(R, r) + k] == RowOf(g, R, r)[k];
  }

  // ---------------------------------------------------------------------
  // The operations
  // ---------------------------------------------------------------------

  /** Byte k of a painted pixel. */
  lemma {:induction false} PaintedPixelByte(m: Format, f: seq<byte>, D: Rect, rows: seq<seq<byte>>, xs: seq<Pixel>, r: nat,
                                            i: nat, k: nat, o: nat, x: Pixel, g: seq<byte>)
    requires m.PixelWidth <= 4 && Fits(D, |f|) && Fills(D, rows) && g == Paint(f, D, rows)
    requires r < D.Height && rows[r] == PackRow(m, xs) && i < |xs| && x == xs[i] && k < m.PixelWidth
    requires o == Times(i, m.PixelWidth)
    ensures Start(D, r) + o + k < |g| && g[Start(D, r) + o + k] == ByteOf(Pack(m, x), k)
  {
    PackedByte(m, xs, i, k);
    PaintedByte(f, D, rows, r, o + k, g);
  }

  /** Bytes of a rectangle of the frame that hold packed pixels. */
  lemma {:induction false} PaintedPixel(m: Format, f: seq<byte>, D: Rect, rows: seq<seq<byte>>, xs: seq<Pixel>, r: nat, i: nat,
                                        x: Pixel, at: nat, g: seq<byte>)
    requires GoodFields(m) && m.PixelWidth >= 3 && Fits(D, |f|) && Fills(D, rows) && g == Paint(f, D, rows)
    requires r < D.Height && rows[r] == PackRow(m, xs) && i < |xs| && x == xs[i]
    requires at == Start(D, r) + Times(i, m.PixelWidth)
    ensures at + m.PixelWidth <= |g| && PixelHolds(m, g, at, x.Blue, x.Green, x.Red)
  {
    var o := Times(i, m.PixelWidth);
    forall k | 0 <= k < m.PixelWidth
      ensures at + k < |g| && g[at + k] == ByteOf(Pack(m, x), k)
    {
      PaintedPixelByte(m, f, D, rows, xs, r, i, k, o, x, g);
    }
    PaintedPixelByte(m, f, D, rows, xs, r, i, m.PixelWidth - 1, o, x, g);
    PackedPixel(m, x, g, at);
  }

  lemma {:induction false} SourcePixel(b: seq<byte>, B: Rect, r: nat, i: nat, src: nat)
    requires Fits(B, |b|) && r < B.Height && B.Width % 4 == 0 && 4 * i < B.Width && src == Start(B, r) + 4 * i
    ensures src + 4 <= |b|
    ensures BltRow(b, B, r)[i] == Pixel(b[src], b[src + 1], b[src + 2], b[src + 3])
  {
    assert Start(B, r) + B.Width <= |b|;
  }

  lemma {:induction false} PackedPlace(m: Format, f: seq<byte>, D: Rect, b: seq<byte>, B: Rect, count: nat, r: nat, i: nat,
                                       at: nat, src: nat, g: seq<byte>)
    requires GoodFields(m) && m.PixelWidth >= 3 && Fits(D, |f|) && Fits(B, |b|) && B.Width == 4 * count
    requires D.Height == B.Height && D.Width == Times(count, m.PixelWidth) && g == Paint(f, D, PackedRows(m, b, B))
    requires r < D.Height && i < count && at == Start(D, r) + Times(i, m.PixelWidth) && src == Start(B, r) + 4 * i
    ensures at + m.PixelWidth <= |g| && src + 4 <= |b|
    ensures PixelHolds(m, g, at, b[src], b[src + 1], b[src + 2])
  {
    assert B.Width / 4 == count;
    var rows, xs := PackedRows(m, b, B), BltRow(b, B, r);
    assert rows[r] == PackRow(m, xs) && Fills(D, rows);
    SourcePixel(b, B, r, i, src);
    PaintedPixel(m, f, D, rows, xs, r, i, Pixel(b[src], b[src + 1], b[src + 2], b[src + 3]), at, g);
  }

  /** EfiBltBufferToVideo: pixel i of row r of the frame's rectangle takes blue, green and red from the
      first three bytes of pixel i of row r of the client's rectangle. */
  lemma {:induction false} WrittenPixel(m: Mode, f: seq<byte>, q: Request, b: seq<byte>, r: nat, i: nat, at: nat, src: nat,
                                        g: seq<byte>)
    requires GoodFields(m.Fields) && Legal(m, q, |f|, |b|) && q.Operation.ToVideo? && g == FrameAfter(m, f, q, b)
    requires r < q.Height && i < q.Width && q.SourceY + q.Height < 0x1_0000_0000_0000_0000
    requires at == Place(m, q.DestinationX + i, q.DestinationY + r)
    requires src == ClientPlace(q, q.SourceX + i, q.SourceY + r)
    ensures at + m.Fields.PixelWidth <= |g| && src + 4 <= |b|
    ensures PixelHolds(m.Fields, g, at, b[src], b[src + 1], b[src + 2])
  {
    var D, B := Destination(m, q), BltSource(q);
    WrittenFrame(m, f, q, b, D, B);
    FramePlace(m, q.DestinationX, q.DestinationY, q.Width, q.Height, r, i);
    PackedPlace(m.Fields, f, D, b, B, q.Width, r, i, at, src, g);
  }

  lemma {:induction false} FillPixel(m: Mode, f: seq<byte>, x: Pixel, q: Request, height: nat, r: nat, i: nat, at: nat,
                                     D: Rect, g: seq<byte>)
    requires GoodFields(m.Fields) && m.Fields.PixelWidth >= 3 && r < height && i < q.Width
    requires D == Area(m, q.DestinationX, q.DestinationY, q.Width, height) && Fits(D, |f|)
    requires g == Paint(f, D, FillRows(m.Fields, x, q.Width, height))
    requires at == Place(m, q.DestinationX + i, q.DestinationY + r)
    ensures at + m.Fields.PixelWidth <= |g| && PixelHolds(m.Fields, g, at, x.Blue, x.Green, x.Red)
  {
    FramePlace(m, q.DestinationX, q.DestinationY, q.Width, height, r, i);
    PaintedPixel(m.Fields, f, D, FillRows(m.Fields, x, q.Width, height), Same(x, q.Width), r, i, x, at, g);
  }

  /** EfiBltVideoFill: every pixel of the rectangle takes blue, green and red from the first three bytes of
      the client's buffer; on the screen as well, when the sum of top and height does not wrap around. */
  lemma {:induction false} FilledPixel(m: Mode, f: seq<byte>, q: Request, b: seq<byte>, r: nat, i: nat, at: nat, g: seq<byte>)
    requires GoodFields(m.Fields) && Legal(m, q, |f|, |b|) && q.Operation.Fill? && i < q.Width
    requires g == FrameAfter(m, f, q, b) || g == ScreenAfter(m, f, q, b)
    requires r < q.Height
    requires q.DestinationY + q.Height < 0x1_0000_0000_0000_0000 || (r == 0 && g == FrameAfter(m, f, q, b))
    requires at == Place(m, q.DestinationX + i, q.DestinationY + r)
    ensures at + m.Fields.PixelWidth <= |g| && |b| >= 4
    ensures PixelHolds(m.Fields, g, at, b[0], b[1], b[2])
  {
    var x := PixelAt(b[..4], 0);
    if g == FrameAfter(m, f, q, b) {
      FillPixel(m, f, x, q, FilledRows(q.DestinationY, q.Height), r, i, at, Filled(m, q), g);
    } else {
      FillPixel(m, f, x, q, Rounds(q.DestinationY, q.Height), r, i, at, Shown(m, q), g);
    }
  }

  lemma {:induction false} StoredInRow(b: seq<byte>, B: Rect, rows: seq<seq<byte>>, xs: seq<Pixel>, r: nat, i: nat, k: nat,
                                       x: Pixel, to: nat, c: seq<byte>)
    requires Fits(B, |b|) && Fills(B, rows) && c == Paint(b, B, rows) && r < B.Height && rows[r] == StoreRow(xs)
    requires i < |xs| && x == xs[i] && k < 4 && to == Start(B, r) + 4 * i
    ensures to + k < |c| && c[to + k] == PixelInMemory(x)[k]
  {
    StoredByte(xs, i, k);
    PaintedByte(b, B, rows, r, 4 * i + k, c);
  }

  /** A byte of a pixel that was read. */
  lemma {:induction false} StoredPixel(m: Format, f: seq<byte>, b: seq<byte>, B: Rect, S: Rect, count: nat, beyond: byte,
                                       r: nat, i: nat, k: nat, from: nat, to: nat, c: seq<byte>)
    requires m.PixelWidth >= 3 && Fits(S, |f|) && Fits(B, |b|) && S.Width == Times(count, m.PixelWidth)
    requires B.Width == 4 * count && B.Height == S.Height && r < S.Height && i < count && k < 4
    requires from == Start(S, r) + Times(i, m.PixelWidth) && to == Start(B, r) + 4 * i
    requires c == Paint(b, B, ReadRows(m, f, S, count, beyond))
    ensures from + m.PixelWidth <= |f| && to + k < |c|
    ensures c[to + k] == PixelInMemory(Unpack(m, ReadWord(f, from, beyond)))[k]
  {
    var rows, xs := ReadRows(m, f, S, count, beyond), FrameRow(m, f, S, r, count, beyond);
    UnpackedPixel(m, f, Start(S, r), count, beyond, i, from);
    assert rows[r] == StoreRow(xs);
    StoredInRow(b, B, rows, xs, r, i, k, xs[i], to, c);
  }

  lemma {:induction false} ReadFields(m: Format, f: seq<byte>, from: nat, beyond: byte, x: Pixel)
    requires GoodFields(m) && m.PixelWidth >= 3 && from + m.PixelWidth <= |f| && x == Unpack(m, ReadWord(f, from, beyond))
    ensures HoldsField(x.Blue, f, from, m.Blue) && HoldsField(x.Green, f, from, m.Green) && HoldsField(x.Red, f, from, m.Red)
    ensures x.Reserved == ZERO
  {
    FieldUnpacked(f, from, beyond, m.PixelWidth, m.Blue);
    FieldUnpacked(f, from, beyond, m.PixelWidth, m.Green);
    FieldUnpacked(f, from, beyond, m.PixelWidth, m.Red);
  }

  /** The four bytes are the fields of the pixel of the frame at `from`, and zero. */
  ghost predicate HoldsPixel(m: Format, c: seq<byte>, to: nat, f: seq<byte>, from: nat) {
    && to + 4 <= |c|
    && HoldsField(c[to], f, from, m.Blue)
    && HoldsField(c[to + 1], f, from, m.Green)
    && HoldsField(c[to + 2], f, from, m.Red)
    && c[to + 3].Bits == [false, false, false, false, false, false, false, false]
  }

  lemma {:induction false} UnpackedPlace(m: Format, f: seq<byte>, S: Rect, b: seq<byte>, B: Rect, count: nat, beyond: byte,
                                         r: nat, i: nat, from: nat, to: nat, c: seq<byte>)
    requires GoodFields(m) && m.PixelWidth >= 3 && Fits(S, |f|) && Fits(B, |b|) && S.Width == Times(count, m.PixelWidth)
    requires B.Width == 4 * count && B.Height == S.Height && r < S.Height && i < count
    requires from == Start(S, r) + Times(i, m.PixelWidth) && to == Start(B, r) + 4 * i
    requires c == Paint(b, B, ReadRows(m, f, S, count, beyond))
    ensures from + m.PixelWidth <= |f| && HoldsPixel(m, c, to, f, from)
  {
    StoredPixel(m, f, b, B, S, count, beyond, r, i, 0, from, to, c);
    StoredPixel(m, f, b, B, S, count, beyond, r, i, 1, from, to, c);
    StoredPixel(m, f, b, B, S, count, beyond, r, i, 2, from, to, c);
    StoredPixel(m, f, b, B, S, count, beyond, r, i, 3, from, to, c);
    ReadFields(m, f, from, beyond, Unpack(m, ReadWord(f, from, beyond)));
  }

  /** EfiBltVideoToBltBuffer: the four bytes of a pixel of the client's rectangle are the blue, the green
      and the red field of the pixel of the frame, and zero. */
  lemma {:induction false} ReadPixel(m: Mode, f: seq<byte>, q: Request, b: seq<byte>, beyond: byte, r: nat, i: nat,
                                     from: nat, to: nat, c: seq<byte>)
    requires GoodFields(m.Fields) && Legal(m, q, |f|, |b|) && q.Operation.ToBltBuffer?
    requires c == BufferAfter(m, f, q, b, beyond) && r < q.Height && i < q.Width
    requires q.DestinationY + q.Height < 0x1_0000_0000_0000_0000 && q.DestinationX + q.Width < 0x1_0000_0000_0000_0000
    requires from == Place(m, q.SourceX + i, q.SourceY + r)
    requires to == ClientPlace(q, q.DestinationX + i, q.DestinationY + r)
    ensures from + m.Fields.PixelWidth <= |f| && HoldsPixel(m.Fields, c, to, f, from)
  {
    var S, B := Source(m, q), BltDestination(q);
    ReadBuffer(m, f, q, b, beyond, S, B);
    FramePlace(m, q.SourceX, q.SourceY, q.Width, q.Height, r, i);
    UnpackedPlace(m.Fields, f, S, b, B, q.Width, beyond, r, i, from, to, c);
  }

  lemma {:induction false} MaskedBack(c: byte, d: byte, g: seq<byte>, at: nat, p: Placement)
    requires HoldsField(c, g, at, p) && FieldHolds(g, at, p, d)
    ensures HoldsMasked(c, d, p)
  {
  }

  /** The four bytes at `to` are those at `src` under the masks of the mode, and zero. */
  ghost predicate MaskedPixel(m: Format, c: seq<byte>, to: nat, b: seq<byte>, src: nat) {
    && src + 4 <= |b| && to + 4 <= |c|
    && HoldsMasked(c[to], b[src], m.Blue)
    && HoldsMasked(c[to + 1], b[src + 1], m.Green)
    && HoldsMasked(c[to + 2], b[src + 2], m.Red)
    && c[to + 3].Bits == [false, false, false, false, false, false, false, false]
  }

  lemma {:induction false} PixelMaskedBack(m: Format, c: seq<byte>, to: nat, b: seq<byte>, src: nat, g: seq<byte>, at: nat)
    requires src + 4 <= |b| && PixelHolds(m, g, at, b[src], b[src + 1], b[src + 2]) && HoldsPixel(m, c, to, g, at)
    ensures MaskedPixel(m, c, to, b, src)
  {
    MaskedBack(c[to], b[src], g, at, m.Blue);
    MaskedBack(c[to + 1], b[src + 1], g, at, m.Green);
    MaskedBack(c[to + 2], b[src + 2], g, at, m.Red);
  }

  lemma {:induction false} PlaceReadBack(m: Format, f: seq<byte>, D: Rect, b: seq<byte>, B: Rect, d: seq<byte>, C: Rect,
                                         count: nat, beyond: byte, r: nat, i: nat, src: nat, to: nat, g: seq<byte>,
                                         c: seq<byte>)
    requires GoodFields(m) && m.PixelWidth >= 3 && Fits(D, |f|) && Fits(B, |b|) && Fits(C, |d|) && |g| == |f|
    requires D.Width == Times(count, m.PixelWidth) && B.Width == C.Width == 4 * count && D.Height == B.Height == C.Height
    requires g == Paint(f, D, PackedRows(m, b, B)) && c == Paint(d, C, ReadRows(m, g, D, count, beyond))
    requires r < D.Height && i < count && src == Start(B, r) + 4 * i && to == Start(C, r) + 4 * i
    ensures MaskedPixel(m, c, to, b, src)
  {
    var at := Start(D, r) + Times(i, m.PixelWidth);
    PackedPlace(m, f, D, b, B, count, r, i, at, src, g);
    UnpackedPlace(m, g, D, d, C, count, beyond, r, i, at, to, c);
    PixelMaskedBack(m, c, to, b, src, g, at);
  }

  lemma {:induction false} WrittenFrame(m: Mode, f: seq<byte>, w: Request, b: seq<byte>, D: Rect, B: Rect)
    requires Legal(m, w, |f|, |b|) && w.Operation.ToVideo? && w.SourceY + w.Height < 0x1_0000_0000_0000_0000 && w.Height > 0
    requires D == Destination(m, w) && B == BltSource(w)
    ensures Fits(D, |f|) && Fits(B, |b|) && B.Width == 4 * w.Width && D.Height == B.Height == w.Height
    ensures D.Width == Times(w.Width, m.Fields.PixelWidth) && 3 <= m.Fields.PixelWidth <= 4
    ensures FrameAfter(m, f, w, b) == Paint(f, D, PackedRows(m.Fields, b, B))
  {
  }

  lemma {:induction false} ReadBuffer(m: Mode, f: seq<byte>, q: Request, d: seq<byte>, beyond: byte, S: Rect, C: Rect)
    requires Legal(m, q, |f|, |d|) && q.Operation.ToBltBuffer? && q.Height > 0 && q.Width > 0
    requires q.DestinationY + q.Height < 0x1_0000_0000_0000_0000 && q.DestinationX + q.Width < 0x1_0000_0000_0000_0000
    requires S == Source(m, q) && C == BltDestination(q)
    ensures Fits(S, |f|) && Fits(C, |d|) && C.Width == 4 * q.Width && S.Height == C.Height == q.Height
    ensures S.Width == Times(q.Width, m.Fields.PixelWidth) && 3 <= m.Fields.PixelWidth <= 4
    ensures BufferAfter(m, f, q, d, beyond) == Paint(d, C, ReadRows(m.Fields, f, S, q.Width, beyond))
  {
  }

  /** Writing a rectangle and reading it back stores, byte for byte, the client's blue, green and red under
      the masks of the mode, and zero behind them. */
  lemma {:induction false} BytesReadBack(m: Mode, f: seq<byte>, w: Request, b: seq<byte>, q: Request, d: seq<byte>,
                                         beyond: byte, r: nat, i: nat, src: nat, to: nat, c: seq<byte>)
    requires GoodFields(m.Fields) && w.Operation.ToVideo? && q.Operation.ToBltBuffer?
    requires Legal(m, w, |f|, |b|) && Legal(m, q, |f|, |d|)
    requires q.SourceX == w.DestinationX && q.SourceY == w.DestinationY && q.Width == w.Width && q.Height == w.Height
    requires c == BufferAfter(m, FrameAfter(m, f, w, b), q, d, beyond) && r < w.Height && i < w.Width
    requires w.SourceY + w.Height < 0x1_0000_0000_0000_0000
    requires q.DestinationY + q.Height < 0x1_0000_0000_0000_0000 && q.DestinationX + q.Width < 0x1_0000_0000_0000_0000
    requires src == ClientPlace(w, w.SourceX + i, w.SourceY + r)
    requires to == ClientPlace(q, q.DestinationX + i, q.DestinationY + r)
    ensures MaskedPixel(m.Fields, c, to, b, src)
  {
    var g, D, B, C := FrameAfter(m, f, w, b), Destination(m, w), BltSource(w), BltDestination(q);
    WrittenFrame(m, f, w, b, D, B);
    ReadBuffer(m, g, q, d, beyond, D, C);
    ClientRow(w, B, w.SourceX, w.SourceY, r, i, src);
    ClientRow(q, C, q.DestinationX, q.DestinationY, r, i, to);
    PlaceReadBack(m.Fields, f, D, b, B, d, C, w.Width, beyond, r, i, src, to, g, c);
  }

  lemma {:induction false} CopiedFrame(m: Mode, f: seq<byte>, q: Request, b: seq<byte>, S: Rect, D: Rect)
    requires Legal(m, q, |f|, |b|) && q.Operation.Copy? && S == Source(m, q) && D == Destination(m, q)
    ensures Fits(S, |f|) && Fits(D, |f|) && FrameAfter(m, f, q, b) == Paint(f, D, RowsOf(f, S))
    ensures S.Width == D.Width == Times(q.Width, m.Fields.PixelWidth) && S.Height == D.Height == q.Height
  {
  }

  lemma {:induction false} CopiedPlace(f: seq<byte>, S: Rect, D: Rect, r: nat, k: nat, from: nat, to: nat, g: seq<byte>)
    requires Fits(S, |f|) && Fits(D, |f|) && S.Width == D.Width && S.Height == D.Height && r < D.Height && k < D.Width
    requires g == Paint(f, D, RowsOf(f, S)) && from == Start(S, r) + k && to == Start(D, r) + k
    ensures from < |f| && to < |g| && g[to] == f[from]
  {
    PaintedByte(f, D, RowsOf(f, S), r, k, g);
    assert RowsOf(f, S)[r] == RowOf(f, S, r);
  }

  /** EfiBltVideoToVideo: byte k of row r of the rectangle is what byte k of row r of the source was. */
  lemma {:induction false} CopiedByte(m: Mode, f: seq<byte>, q: Request, b: seq<byte>, r: nat, k: nat, from: nat, to: nat,
                                      g: seq<byte>)
    requires Legal(m, q, |f|, |b|) && q.Operation.Copy? && g == FrameAfter(m, f, q, b)
    requires r < q.Height && k < Times(q.Width, m.Fields.PixelWidth)
    requires from == Place(m, q.SourceX, q.SourceY + r) + k
    requires to == Place(m, q.DestinationX, q.DestinationY + r) + k
    ensures from < |f| && to < |g| && g[to] == f[from]
  {
    var S, D := Source(m, q), Destination(m, q);
    CopiedFrame(m, f, q, b, S, D);
    RowPlace(m, q.SourceX, q.SourceY, q.Width, q.Height, r);
    RowPlace(m, q.DestinationX, q.DestinationY, q.Width, q.Height, r);
    CopiedPlace(f, S, D, r, k, from, to, g);
  }

  /** Byte k of the frame lies in row r of the rectangle that a request writes. */
  predicate Within(m: Mode, q: Request, r: nat, k: int) {
    var start := Place(m, q.DestinationX, q.DestinationY + r);
    start <= k < start + Times(q.Width, m.Fields.PixelWidth)
  }

  lemma {:induction false} OutsideArea(m: Mode, q: Request, height: nat, rows: seq<seq<byte>>, D: Rect, f: seq<byte>, k: nat)
    requires D == Area(m, q.DestinationX, q.DestinationY, q.Width, height) && Fits(D, |f|) && Fills(D, rows) && k < |f|
    requires forall r :: 0 <= r < height ==> !Within(m, q, r, k)
    ensures Paint(f, D, rows)[k] == f[k]
  {
    forall r | 0 <= r < height
      ensures !InRow(D, r, k)
    {
      assert !Within(m, q, r, k);
    }
    UnpaintedByte(f, D, rows, height, k);
  }

  /** No request changes a byte of the frame outside the rows of its rectangle. */
  lemma {:induction false} FrameKept(m: Mode, f: seq<byte>, q: Request, b: seq<byte>, k: nat)
    requires Legal(m, q, |f|, |b|) && q.Height > 0 && k < |f|
    requires forall r :: 0 <= r < q.Height ==> !Within(m, q, r, k)
    ensures FrameAfter(m, f, q, b)[k] == f[k] && ScreenAfter(m, f, q, b)[k] == f[k]
  {
    if !Idle(q) {
      match q.Operation {
        case Fill =>
          var x, filled, shown := PixelAt(b[..4], 0), FilledRows(q.DestinationY, q.Height), Rounds(q.DestinationY, q.Height);
          OutsideArea(m, q, filled, FillRows(m.Fields, x, q.Width, filled), Filled(m, q), f, k);
          OutsideArea(m, q, shown, FillRows(m.Fields, x, q.Width, shown), Shown(m, q), f, k);
        case ToVideo =>
          OutsideArea(m, q, q.Height, PackedRows(m.Fields, b, BltSource(q)), Destination(m, q), f, k);
        case Copy =>
          OutsideArea(m, q, q.Height, RowsOf(f, Source(m, q)), Destination(m, q), f, k);
        case _ =>
      }
    }
  }

  /** Byte k of the client's buffer lies in row r of the rectangle that a read stores. */
  predicate WithinBuffer(q: Request, r: nat, k: int) {
    var start := ClientPlace(q, q.DestinationX, q.DestinationY + r);
    start <= k < start + 4 * q.Width
  }

  /** No request changes a byte of the client's buffer outside the rows of a rectangle that it reads. */
  lemma {:induction false} BufferKept(m: Mode, f: seq<byte>, q: Request, b: seq<byte>, beyond: byte, k: nat)
    requires Legal(m, q, |f|, |b|) && k < |b|
    requires q.Operation.ToBltBuffer? ==> forall r :: 0 <= r < q.Height ==> !WithinBuffer(q, r, k)
    ensures BufferAfter(m, f, q, b, beyond)[k] == b[k]
  {
    if q.Operation.ToBltBuffer? && !Idle(q) {
      var B := BltDestination(q);
      forall r | 0 <= r < q.Height
        ensures !InRow(B, r, k)
      {
        assert !WithinBuffer(q, r, k);
      }
      UnpaintedByte(b, B, ReadRows(m.Fields, f, Source(m, q), q.Width, beyond), q.Height, k);
    }
  }
}
