/** The block transfer engine of a VESA BIOS device: a working buffer in memory that shadows the
    physical frame buffer, so that every read is served from memory. */
module VbeBlt {
  import opened Words
  import opened Bits
  import opened Frames
  import opened Colours
  import opened VideoMemory

  /** The part of BIOS_VIDEO_MODE_DATA that block transfers use. */
  datatype Mode = Mode(VbeModeNumber: nat, HorizontalResolution: u32, VerticalResolution: u32, BytesPerScanLine: nat,
                       LinearFrameBuffer: nat, Fields: Format)

  function FrameBytes(m: Mode): nat { Times(m.VerticalResolution, m.BytesPerScanLine) }

  /** Modes are kept only with 24 or 32 bits per pixel; a scan line holds its pixels. */
  predicate Sound(m: Mode) {
    && 3 <= m.Fields.PixelWidth <= 4
    && Times(m.HorizontalResolution, m.Fields.PixelWidth) <= m.BytesPerScanLine
  }

  /** The bytes of a rectangle of pixels of the frame. */
  function Area(m: Mode, x: nat, y: nat, width: nat, height: nat): Rect {
    Rect(m.BytesPerScanLine, Times(x, m.Fields.PixelWidth), y, Times(width, m.Fields.PixelWidth), height)
  }

  function RowBytes(delta: nat, width: nat): nat { if delta == 0 then 4 * width else delta }

  /** The bytes of a rectangle of pixels of a BltBuffer. */
  function BltArea(x: nat, y: nat, width: nat, height: nat, delta: nat): Rect {
    Rect(RowBytes(delta, width), 4 * x, y, 4 * width, height)
  }

  /** The rectangle lies on the screen. */
  predicate InBounds(m: Mode, x: nat, y: nat, width: nat, height: nat) {
    y + height <= m.VerticalResolution && x + width <= m.HorizontalResolution
  }

  lemma AreaOnScreen(m: Mode, x: nat, y: nat, width: nat, height: nat)
    requires Sound(m) && InBounds(m, x, y, width, height)
    ensures OnScreen(Area(m, x, y, width, height), m.VerticalResolution)
    ensures Fits(Area(m, x, y, width, height), FrameBytes(m))
  {
    var w := m.Fields.PixelWidth;
    TimesAdds(x, width, w);
    TimesAdds(x + width, m.HorizontalResolution - x - width, w);
    OnScreenFits(Area(m, x, y, width, height), m.VerticalResolution);
  }

  // ---------------------------------------------------------------------
  // What each operation puts into the frame
  // ---------------------------------------------------------------------

  /** The pixels of row r of a rectangle of a BltBuffer. */
  function BltRow(b: seq<byte>, B: Rect, r: nat): (xs: seq<Pixel>)
    requires Fits(B, |b|) && r < B.Height && B.Width % 4 == 0
    ensures |xs| == B.Width / 4
  {
    seq(B.Width / 4, i requires 0 <= i < B.Width / 4 => PixelAt(RowOf(b, B, r), i))
  }

  /** Pixel i of a row of pixels in memory. */
  function PixelAt(row: seq<byte>, i: nat): Pixel
    requires 4 * i + 4 <= |row|
  {
    Pixel(row[4 * i], row[4 * i + 1], row[4 * i + 2], row[4 * i + 3])
  }

  function PixelInMemory(x: Pixel): (b: seq<byte>)
    ensures |b| == 4
  {
    [x.Blue, x.Green, x.Red, x.Reserved]
  }

  /** A row of pixels in memory. */
  function StoreRow(xs: seq<Pixel>): (b: seq<byte>)
    ensures |b| == 4 * |xs|
  {
    if xs == [] then [] else StoreRow(xs[..|xs| - 1]) + PixelInMemory(xs[|xs| - 1])
  }

  /** The packed rows of a rectangle of a BltBuffer. */
  function PackedRows(m: Format, b: seq<byte>, B: Rect): (rows: seq<seq<byte>>)
    requires Fits(B, |b|) && B.Width % 4 == 0 && m.PixelWidth <= 4
    ensures |rows| == B.Height && forall r :: 0 <= r < |rows| ==> |rows[r]| == Times(B.Width / 4, m.PixelWidth)
  {
    seq(B.Height, r requires 0 <= r < B.Height => PackRow(m, BltRow(b, B, r)))
  }

  /** The pixels read from row r of a rectangle of the frame. */
  function FrameRow(m: Format, f: seq<byte>, D: Rect, r: nat, count: nat, beyond: byte): (xs: seq<Pixel>)
    requires m.PixelWidth >= 3 && Fits(D, |f|) && r < D.Height && D.Width == Times(count, m.PixelWidth)
    ensures |xs| == count
  {
    UnpackRow(m, f, Start(D, r), count, beyond)
  }

  /** The rows that reading a rectangle of the frame stores into a BltBuffer. */
  function ReadRows(m: Format, f: seq<byte>, S: Rect, count: nat, beyond: byte): (rows: seq<seq<byte>>)
    requires m.PixelWidth >= 3 && Fits(S, |f|) && S.Width == Times(count, m.PixelWidth)
    ensures |rows| == S.Height && forall r :: 0 <= r < |rows| ==> |rows[r]| == 4 * count
  {
    seq(S.Height, r requires 0 <= r < S.Height => StoreRow(FrameRow(m, f, S, r, count, beyond)))
  }

  function Same(x: Pixel, count: nat): (xs: seq<Pixel>)
    ensures |xs| == count && forall i :: 0 <= i < count ==> xs[i] == x
  {
    seq(count, _ => x)
  }

  /** The rows of a rectangle of one colour. */
  function FillRows(m: Format, x: Pixel, width: nat, height: nat): (rows: seq<seq<byte>>)
    requires m.PixelWidth <= 4
    ensures AllRows(rows, height, PackRow(m, Same(x, width)))
  {
    seq(height, _ => PackRow(m, Same(x, width)))
  }

  predicate AllRows(rows: seq<seq<byte>>, height: nat, data: seq<byte>) {
    |rows| == height && forall r :: 0 <= r < height ==> rows[r] == data
  }

  /** Reading back a rectangle just written returns each of its pixels masked by the fields of the
      mode, whatever byte follows the working buffer in memory. */
  lemma WrittenReadsBack(m: Format, f: seq<byte>, D: Rect, b: seq<byte>, B: Rect, r: nat, beyond: byte)
    requires GoodFields(m) && m.PixelWidth >= 3 && Fits(D, |f|) && Fits(B, |b|) && B.Height == D.Height
    requires B.Width % 4 == 0 && D.Width == Times(B.Width / 4, m.PixelWidth) && r < D.Height
    ensures FrameRow(m, Paint(f, D, PackedRows(m, b, B)), D, r, B.Width / 4, beyond) == MaskedRow(m, BltRow(b, B, r))
  {
    var rows := PackedRows(m, b, B);
    PaintedRow(f, D, rows, D.Height, r);
    RowBack(m, Paint(f, D, rows), Start(D, r), BltRow(b, B, r), beyond);
  }

  /** The same for a rectangle filled with one colour. */
  lemma FilledReadsBack(m: Format, f: seq<byte>, D: Rect, x: Pixel, width: nat, r: nat, beyond: byte)
    requires GoodFields(m) && m.PixelWidth >= 3 && Fits(D, |f|) && D.Width == Times(width, m.PixelWidth) && r < D.Height
    ensures FrameRow(m, Paint(f, D, FillRows(m, x, width, D.Height)), D, r, width, beyond)
            == Same(Masked(m, x), width)
  {
    var rows := FillRows(m, x, width, D.Height);
    PaintedRow(f, D, rows, D.Height, r);
    RowBack(m, Paint(f, D, rows), Start(D, r), Same(x, width), beyond);
  }

  // ---------------------------------------------------------------------
  // The operations
  // ---------------------------------------------------------------------

  /** How often a loop from `start` on goes round while the counter is below `count + start`, a sum
      of 64 bits: not at all when that wraps around. */
  function Rounds(start: u64, count: u64): (n: nat)
    ensures n == if start + count < TWO_64 then count else 0
  {
    var bound := Add64(count, start);
    if start < bound then bound - start else 0
  }

  /** The rows a fill writes into the working buffer: the first one, and those of a loop that starts
      behind it. */
  function FilledRows(y: u64, height: u64): (n: nat)
    ensures n == if y + height < TWO_64 && height > 0 then height else 1
  {
    if Rounds(y, height) > 1 then Rounds(y, height) else 1
  }

  /** The byte of the frame where pixel x of scan line y starts. */
  function Place(m: Mode, x: nat, y: nat): nat { Times(y, m.BytesPerScanLine) + Times(x, m.Fields.PixelWidth) }

  function RowLength(m: Mode, width: nat): nat { Times(width, m.Fields.PixelWidth) }

  /** Brings a row of the working buffer to the physical frame buffer. */
  method ShowRow(m: Mode, buffer: array<byte>, bufferAddress: nat, offset: nat, video: array<byte>, x: nat, y: nat,
                 width: nat, ghost data: seq<byte>, ghost g: seq<byte>, ghost v: seq<byte>)
    requires buffer != video && m.LinearFrameBuffer + |g| <= |v| && video[..] == Overwrite(v, m.LinearFrameBuffer, g)
    requires |data| == Times(width, m.Fields.PixelWidth) && offset + |data| <= buffer.Length
    requires buffer[offset..offset + |data|] == data && Place(m, x, y) + |data| <= |g|
    modifies video
    ensures video[..] == Overwrite(v, m.LinearFrameBuffer, Overwrite(g, Place(m, x, y), data))
  {
    var to := m.LinearFrameBuffer + Place(m, x, y);
    CopyVideoBuffer(buffer, bufferAddress, offset, video, m.LinearFrameBuffer, x, y, RowLength(m, width),
                    m.Fields.PixelWidth, m.BytesPerScanLine, to, Overwrite(v, m.LinearFrameBuffer, g));
    OverwriteInFrame(v, m.LinearFrameBuffer, g, Place(m, x, y), data);
  }

  /** Row r of a rectangle of the frame starts at its first pixel. */
  lemma RowPlace(m: Mode, x: nat, y: nat, width: nat, height: nat, r: nat)
    requires r < height
    ensures Start(Area(m, x, y, width, height), r) == Place(m, x, y + r)
  {
  }

  /** What one round does, in terms of pixels. */
  lemma RoundPlace(m: Mode, sourceX: nat, sourceY: nat, destinationX: nat, destinationY: nat, width: nat, height: nat,
                   S: Rect, D: Rect, g: seq<byte>, i: nat, r: nat, from: nat, to: nat, row: seq<byte>)
    requires S == Area(m, sourceX, sourceY, width, height) && D == Area(m, destinationX, destinationY, width, height)
    requires i < height && r == RowInRound(S, D, i) && Fits(S, |g|) && Fits(D, |g|)
    requires from == Place(m, sourceX, sourceY + r) && to == Place(m, destinationX, destinationY + r)
    requires row == RowOf(g, S, r)
    ensures from + |row| <= |g| && to + |row| <= |g| && row == g[from..from + |row|]
    ensures CopyRound(g, S, D, i) == Overwrite(g, to, row)
  {
    RowPlace(m, sourceX, sourceY, width, height, r);
    RowPlace(m, destinationX, destinationY, width, height, r);
  }

  /** One round of EfiBltVideoToVideo: a row of the frame to another place. */
  method CopyRow(m: Mode, buffer: array<byte>, bufferAddress: nat, video: array<byte>, from: nat, to: nat,
                 destinationX: nat, destinationY: nat, width: nat, ghost row: seq<byte>, ghost g: seq<byte>,
                 ghost h: seq<byte>, ghost v: seq<byte>)
    requires buffer != video && buffer[..] == g && m.LinearFrameBuffer + |g| <= |v|
    requires video[..] == Overwrite(v, m.LinearFrameBuffer, g)
    requires |row| == RowLength(m, width) && from + |row| <= |g| && row == g[from..from + |row|]
    requires to == Place(m, destinationX, destinationY) && to + |row| <= |g| && h == Overwrite(g, to, row)
    modifies buffer, video
    ensures buffer[..] == h && video[..] == Overwrite(v, m.LinearFrameBuffer, h)
  {
    CopyMem(buffer, to, from, RowLength(m, width), g);
    assert buffer[to..to + |row|] == buffer[..][to..to + |row|] == row;
    ShowRow(m, buffer, bufferAddress, to, video, destinationX, destinationY, width, row, g, v);
  }

  /** One round of EfiBltVideoToVideo: the row its direction calls for. */
  method CopyNextRow(m: Mode, buffer: array<byte>, bufferAddress: nat, video: array<byte>, S: Rect, D: Rect, sourceX: nat,
                     sourceY: nat, destinationX: nat, destinationY: nat, width: nat, height: nat, i: nat,
                     ghost g: seq<byte>, ghost v: seq<byte>)
    requires buffer != video && buffer[..] == g && m.LinearFrameBuffer + |g| <= |v|
    requires video[..] == Overwrite(v, m.LinearFrameBuffer, g) && i < height
    requires S == Area(m, sourceX, sourceY, width, height) && D == Area(m, destinationX, destinationY, width, height)
    requires Fits(S, |g|) && Fits(D, |g|)
    modifies buffer, video
    ensures buffer[..] == CopyRound(g, S, D, i)
    ensures video[..] == Overwrite(v, m.LinearFrameBuffer, CopyRound(g, S, D, i))
  {
    var r: nat := RowInRound(S, D, i);
    var from, to := Place(m, sourceX, sourceY + r), Place(m, destinationX, destinationY + r);
    ghost var row := RowOf(g, S, r);
    RoundPlace(m, sourceX, sourceY, destinationX, destinationY, width, height, S, D, g, i, r, from, to, row);
    CopyRow(m, buffer, bufferAddress, video, from, to, destinationX, destinationY + r, width, row, g, CopyRound(g, S, D, i), v);
  }

  /** EfiBltVideoToVideo: a simultaneous copy of the rectangle, however source and destination
      overlap. */
  method VideoToVideo(m: Mode, buffer: array<byte>, bufferAddress: nat, video: array<byte>, sourceX: nat, sourceY: nat,
                      destinationX: nat, destinationY: nat, width: nat, height: nat, ghost f: seq<byte>, ghost v: seq<byte>)
    requires buffer != video && buffer[..] == f && video[..] == v && Mirrors(v, m.LinearFrameBuffer, f)
    requires Alike(Area(m, sourceX, sourceY, width, height), Area(m, destinationX, destinationY, width, height),
                   m.VerticalResolution)
    requires Fits(Area(m, sourceX, sourceY, width, height), |f|)
    requires Fits(Area(m, destinationX, destinationY, width, height), |f|)
    modifies buffer, video
    ensures buffer[..] == Paint(f, Area(m, destinationX, destinationY, width, height),
                                RowsOf(f, Area(m, sourceX, sourceY, width, height)))
    ensures video[..] == Overwrite(v, m.LinearFrameBuffer, buffer[..])
  {
    var S := Area(m, sourceX, sourceY, width, height);
    var D := Area(m, destinationX, destinationY, width, height);
    ghost var g := f;
    MirrorIsOverwrite(v, m.LinearFrameBuffer, f);
    NoRoundsDone(f, S, D);
    for i := 0 to height
      invariant |g| == |f| && buffer[..] == g && video[..] == Overwrite(v, m.LinearFrameBuffer, g)
      invariant RoundsDone(f, g, S, D, i)
    {
      CopyNextRow(m, buffer, bufferAddress, video, S, D, sourceX, sourceY, destinationX, destinationY, width, height, i, g, v);
      CopyRoundStep(f, g, S, D, m.VerticalResolution, i);
      g := CopyRound(g, S, D, i);
    }
    CopyIsSimultaneous(f, g, S, D);
  }

  /** Packing one more pixel behind those packed so far. */
  lemma PackNext(m: Format, xs: seq<Pixel>, i: nat, done: seq<byte>, bytes: seq<byte>, next: seq<byte>, g: seq<byte>,
                 at: nat, place: nat)
    requires m.PixelWidth <= 4 && i < |xs| && at + Times(|xs|, m.PixelWidth) <= |g| && place == at + |done|
    requires done == PackRow(m, xs[..i]) && bytes == PixelBytes(Pack(m, xs[i]), m.PixelWidth) && next == done + bytes
    ensures next == PackRow(m, xs[..i + 1]) && place + m.PixelWidth == at + |next| <= |g|
    ensures Overwrite(Overwrite(g, at, done), place, bytes) == Overwrite(g, at, next)
  {
    assert xs[..i + 1][..i] == xs[..i];
    TimesAscends(i, |xs|, m.PixelWidth);
    OverwriteTwice(g, at, done, bytes, next);
  }

  /** Packs the pixels of a row into the working buffer. */
  method PackInto(m: Mode, buffer: array<byte>, at: nat, xs: seq<Pixel>, ghost data: seq<byte>, ghost g: seq<byte>)
    requires Sound(m) && buffer[..] == g && at + |data| <= |g| && data == PackRow(m.Fields, xs)
    modifies buffer
    ensures buffer[..] == Overwrite(g, at, data)
  {
    var place := at;
    ghost var done: seq<byte> := [];
    for i := 0 to |xs|
      invariant place == at + |done| <= |g| && done == PackRow(m.Fields, xs[..i])
      invariant buffer[..] == Overwrite(g, at, done)
    {
      var bytes := PixelBytes(Pack(m.Fields, xs[i]), m.Fields.PixelWidth);
      ghost var next := done + bytes;
      PackNext(m.Fields, xs, i, done, bytes, next, g, at, place);
      Put(buffer, place, bytes, Overwrite(g, at, done));
      place, done := place + m.Fields.PixelWidth, next;
    }
    assert xs[..|xs|] == xs;
  }

  /** One round of EfiBltBufferToVideo: a row of pixels into the frame. */
  method PackAndShow(m: Mode, buffer: array<byte>, bufferAddress: nat, video: array<byte>, xs: seq<Pixel>, at: nat,
                     destinationX: nat, destinationY: nat, ghost data: seq<byte>, ghost g: seq<byte>, ghost h: seq<byte>,
                     ghost v: seq<byte>)
    requires Sound(m) && buffer != video && buffer[..] == g && m.LinearFrameBuffer + |g| <= |v|
    requires video[..] == Overwrite(v, m.LinearFrameBuffer, g)
    requires data == PackRow(m.Fields, xs) && at == Place(m, destinationX, destinationY) && at + |data| <= |g|
    requires h == Overwrite(g, at, data)
    modifies buffer, video
    ensures buffer[..] == h && video[..] == Overwrite(v, m.LinearFrameBuffer, h)
  {
    PackInto(m, buffer, at, xs, data, g);
    assert buffer[at..at + |data|] == buffer[..][at..at + |data|] == data;
    ShowRow(m, buffer, bufferAddress, at, video, destinationX, destinationY, |xs|, data, g, v);
  }

  lemma PackedFill(m: Mode, x: nat, y: nat, width: nat, height: nat, b: seq<byte>, B: Rect, D: Rect, rows: seq<seq<byte>>)
    requires D == Area(m, x, y, width, height) && Fits(B, |b|) && B.Height == height && B.Width == 4 * width
    requires m.Fields.PixelWidth <= 4 && rows == PackedRows(m.Fields, b, B)
    ensures Fills(D, rows)
  {
    assert B.Width / 4 == width;
  }

  lemma ToVideoPlace(m: Mode, x: nat, y: nat, width: nat, height: nat, b: seq<byte>, B: Rect, D: Rect,
                     rows: seq<seq<byte>>, f: seq<byte>, i: nat, at: nat, data: seq<byte>, g: seq<byte>)
    requires D == Area(m, x, y, width, height) && Fits(D, |f|) && Fills(D, rows)
    requires Fits(B, |b|) && B.Height == height && B.Width == 4 * width && m.Fields.PixelWidth <= 4
    requires rows == PackedRows(m.Fields, b, B) && i < height && at == Place(m, x, y + i)
    requires data == rows[i] && g == PaintTo(f, D, rows, i)
    ensures data == PackRow(m.Fields, BltRow(b, B, i))
    ensures at + |data| <= |g|
    ensures PaintTo(f, D, rows, i + 1) == Overwrite(g, at, data)
  {
    RowPlace(m, x, y, width, height, i);
  }

  /** One round of EfiBltBufferToVideo: row i of the rectangle. */
  method PackNextRow(m: Mode, buffer: array<byte>, bufferAddress: nat, video: array<byte>, blt: seq<byte>, D: Rect, B: Rect,
                     destinationX: nat, destinationY: nat, width: nat, height: nat, i: nat,
                     ghost rows: seq<seq<byte>>, ghost f: seq<byte>, ghost g: seq<byte>, ghost v: seq<byte>)
    requires Sound(m) && buffer != video && m.LinearFrameBuffer + |g| <= |v|
    requires D == Area(m, destinationX, destinationY, width, height) && Fits(D, |f|) && Fills(D, rows)
    requires Fits(B, |blt|) && B.Height == height && B.Width == 4 * width && i < height
    requires rows == PackedRows(m.Fields, blt, B) && g == PaintTo(f, D, rows, i)
    requires buffer[..] == g && video[..] == Overwrite(v, m.LinearFrameBuffer, g)
    modifies buffer, video
    ensures buffer[..] == PaintTo(f, D, rows, i + 1)
    ensures video[..] == Overwrite(v, m.LinearFrameBuffer, PaintTo(f, D, rows, i + 1))
  {
    var xs, at := BltRow(blt, B, i), Place(m, destinationX, destinationY + i);
    ghost var h, data := PaintTo(f, D, rows, i + 1), rows[i];
    ToVideoPlace(m, destinationX, destinationY, width, height, blt, B, D, rows, f, i, at, data, g);
    PackAndShow(m, buffer, bufferAddress, video, xs, at, destinationX, destinationY + i, data, g, h, v);
  }

  /** The rounds of EfiBltBufferToVideo: paint the packed pixels of the BltBuffer. */
  method PaintRows(m: Mode, buffer: array<byte>, bufferAddress: nat, video: array<byte>, blt: seq<byte>,
                   D: Rect, B: Rect, destinationX: nat, destinationY: nat, width: nat, height: nat,
                   ghost f: seq<byte>, ghost v: seq<byte>)
    requires Sound(m) && buffer != video && buffer[..] == f && video[..] == v && Mirrors(v, m.LinearFrameBuffer, f)
    requires D == Area(m, destinationX, destinationY, width, height) && Fits(D, |f|)
    requires Fits(B, |blt|) && B.Height == height && B.Width == 4 * width
    modifies buffer, video
    ensures buffer[..] == Paint(f, D, PackedRows(m.Fields, blt, B))
    ensures video[..] == Overwrite(v, m.LinearFrameBuffer, buffer[..])
  {
    ghost var rows := PackedRows(m.Fields, blt, B);
    PackedFill(m, destinationX, destinationY, width, height, blt, B, D, rows);
    MirrorIsOverwrite(v, m.LinearFrameBuffer, f);
    for i := 0 to height
      invariant buffer[..] == PaintTo(f, D, rows, i)
      invariant video[..] == Overwrite(v, m.LinearFrameBuffer, PaintTo(f, D, rows, i))
    {
      PackNextRow(m, buffer, bufferAddress, video, blt, D, B, destinationX, destinationY, width, height, i, rows, f,
                  PaintTo(f, D, rows, i), v);
    }
  }

  /** EfiBltBufferToVideo. Its loop counts rows of the BltBuffer: when their 64-bit end wraps around
      nothing is written, whatever the other arguments. */
  method BufferToVideo(m: Mode, buffer: array<byte>, bufferAddress: nat, video: array<byte>, blt: seq<byte>,
                       sourceX: nat, sourceY: u64, destinationX: nat, destinationY: nat, width: nat, height: u64,
                       delta: nat, ghost f: seq<byte>, ghost v: seq<byte>)
    requires Sound(m) && buffer != video && buffer[..] == f && video[..] == v && Mirrors(v, m.LinearFrameBuffer, f)
    requires Rounds(sourceY, height) > 0 ==>
               && Fits(Area(m, destinationX, destinationY, width, height), |f|)
               && Fits(BltArea(sourceX, sourceY, width, height, delta), |blt|)
    modifies buffer, video
    ensures buffer[..] == if Rounds(sourceY, height) == 0 then f
                          else Paint(f, Area(m, destinationX, destinationY, width, height),
                                     PackedRows(m.Fields, blt, BltArea(sourceX, sourceY, width, height, delta)))
    ensures video[..] == Overwrite(v, m.LinearFrameBuffer, buffer[..])
  {
    MirrorIsOverwrite(v, m.LinearFrameBuffer, f);
    if Rounds(sourceY, height) > 0 {
      PaintRows(m, buffer, bufferAddress, video, blt, Area(m, destinationX, destinationY, width, height),
                BltArea(sourceX, sourceY, width, height, delta), destinationX, destinationY, width, height, f, v);
    }
  }

  lemma NextRow(f: seq<byte>, D: Rect, rows: seq<seq<byte>>, data: seq<byte>, i: nat, from: nat, to: nat, g: seq<byte>)
    requires Fits(D, |f|) && Fills(D, rows) && AllRows(rows, D.Height, data) && 0 < i < D.Height
    requires from == Start(D, 0) && to == Start(D, i) && g == PaintTo(f, D, rows, i)
    ensures from + D.Width <= |g| && to + D.Width <= |g|
    ensures PaintTo(f, D, rows, i + 1) == Overwrite(g, to, g[from..from + D.Width])
  {
    PaintedRow(f, D, rows, i, 0);
    assert g[from..from + D.Width] == RowOf(g, D, 0) == rows[i];
  }

  /** Copies the first row of a rectangle of the working buffer to the other rows. */
  method CopyFirstRow(buffer: array<byte>, D: Rect, ghost rows: seq<seq<byte>>, ghost data: seq<byte>, ghost f: seq<byte>)
    requires Fits(D, |f|) && Fills(D, rows) && AllRows(rows, D.Height, data) && D.Height > 0
    requires buffer[..] == PaintTo(f, D, rows, 1)
    modifies buffer
    ensures buffer[..] == Paint(f, D, rows)
  {
    for i := 1 to D.Height
      invariant buffer[..] == PaintTo(f, D, rows, i)
    {
      var from, to := Start(D, 0), Start(D, i);
      ghost var g := PaintTo(f, D, rows, i);
      NextRow(f, D, rows, data, i, from, to, g);
      CopyMem(buffer, to, from, D.Width, g);
    }
  }

  /** Shows one row of the working buffer in the place of every row of the rectangle. */
  method ShowInEveryRow(m: Mode, buffer: array<byte>, bufferAddress: nat, offset: nat, video: array<byte>, x: nat, y: nat,
                        width: nat, height: nat, ghost D: Rect, ghost rows: seq<seq<byte>>, ghost data: seq<byte>,
                        ghost f: seq<byte>, ghost v: seq<byte>)
    requires buffer != video && m.LinearFrameBuffer + |f| <= |v| && video[..] == v == Overwrite(v, m.LinearFrameBuffer, f)
    requires D == Area(m, x, y, width, height)
    requires Fits(D, |f|) && Fills(D, rows) && AllRows(rows, height, data)
    requires |data| == D.Width && offset + |data| <= buffer.Length && buffer[offset..offset + |data|] == data
    modifies video
    ensures video[..] == Overwrite(v, m.LinearFrameBuffer, Paint(f, D, rows))
  {
    for i := 0 to height
      invariant video[..] == Overwrite(v, m.LinearFrameBuffer, PaintTo(f, D, rows, i))
    {
      RowPlace(m, x, y, width, height, i);
      ShowRow(m, buffer, bufferAddress, offset, video, x, y + i, width, data, PaintTo(f, D, rows, i), v);
    }
  }

  /** The rows of a rectangle that starts where another does and is no higher. */
  lemma FewerRows(m: Mode, x: nat, y: nat, width: nat, height: nat, fewer: nat, size: nat)
    requires Fits(Area(m, x, y, width, height), size) && fewer <= height
    ensures Fits(Area(m, x, y, width, fewer), size)
  {
    var D, d := Area(m, x, y, width, height), Area(m, x, y, width, fewer);
    forall r | 0 <= r < fewer
      ensures Start(d, r) + d.Width <= size
    {
      assert Start(d, r) == Start(D, r);
    }
  }

  lemma FirstRow(f: seq<byte>, D: Rect, rows: seq<seq<byte>>, data: seq<byte>, first: nat)
    requires Fits(D, |f|) && Fills(D, rows) && AllRows(rows, D.Height, data) && D.Height > 0 && first == Start(D, 0)
    ensures first + |data| <= |f| && PaintTo(f, D, rows, 1) == Overwrite(f, first, data)
  {
    assert PaintTo(f, D, rows, 0) == f && rows[0] == data;
  }

  lemma FirstHeld(f: seq<byte>, D: Rect, rows: seq<seq<byte>>, data: seq<byte>, first: nat, g: seq<byte>)
    requires Fits(D, |f|) && Fills(D, rows) && AllRows(rows, D.Height, data) && D.Height > 0
    requires first == Start(D, 0) && g == Paint(f, D, rows)
    ensures |data| == D.Width && first + |data| <= |f| && g[first..first + |data|] == data
  {
    PaintedRow(f, D, rows, D.Height, 0);
    assert g[first..first + |data|] == RowOf(g, D, 0);
  }

  /** The working buffer's part of EfiBltVideoFill: packs the first row of the rectangle and copies it
      to the others. */
  method FillBuffer(m: Mode, buffer: array<byte>, colour: Pixel, D: Rect, destinationX: nat, destinationY: nat, width: nat,
                    ghost data: seq<byte>, ghost f: seq<byte>)
    requires Sound(m) && buffer[..] == f && D == Area(m, destinationX, destinationY, width, D.Height) && D.Height > 0
    requires Fits(D, |f|) && data == PackRow(m.Fields, Same(colour, width))
    modifies buffer
    ensures buffer[..] == Paint(f, D, FillRows(m.Fields, colour, width, D.Height))
    ensures Start(D, 0) + |data| <= |f| && buffer[Start(D, 0)..Start(D, 0) + |data|] == data
  {
    ghost var rows := FillRows(m.Fields, colour, width, D.Height);
    var first := Place(m, destinationX, destinationY);
    RowPlace(m, destinationX, destinationY, width, D.Height, 0);
    FirstRow(f, D, rows, data, first);
    PackInto(m, buffer, first, Same(colour, width), data, f);
    CopyFirstRow(buffer, D, rows, data, f);
    FirstHeld(f, D, rows, data, first, Paint(f, D, rows));
    assert buffer[first..first + |data|] == buffer[..][first..first + |data|];
  }

  /** EfiBltVideoFill: fills the rectangle in the working buffer, then shows its first row in the place of
      every row. The loops over rows end at the 64-bit sum of top and height: when that wraps around,
      one row is written to the working buffer and none is shown. */
  method VideoFill(m: Mode, buffer: array<byte>, bufferAddress: nat, video: array<byte>, colour: Pixel,
                   destinationX: nat, destinationY: u64, width: nat, height: u64, ghost f: seq<byte>, ghost v: seq<byte>)
    requires Sound(m) && buffer != video && buffer[..] == f && video[..] == v
    requires |f| == FrameBytes(m) && Mirrors(v, m.LinearFrameBuffer, f)
    requires Fits(Area(m, destinationX, destinationY, width, FilledRows(destinationY, height)), |f|)
    modifies buffer, video
    ensures var filled := FilledRows(destinationY, height);
            buffer[..] == Paint(f, Area(m, destinationX, destinationY, width, filled),
                                FillRows(m.Fields, colour, width, filled))
    ensures var shown := Rounds(destinationY, height);
            && Fits(Area(m, destinationX, destinationY, width, shown), |f|)
            && video[..] == Overwrite(v, m.LinearFrameBuffer,
                                      Paint(f, Area(m, destinationX, destinationY, width, shown),
                                            FillRows(m.Fields, colour, width, shown)))
  {
    var filled, shown := FilledRows(destinationY, height), Rounds(destinationY, height);
    var D := Area(m, destinationX, destinationY, width, filled);
    ghost var data := PackRow(m.Fields, Same(colour, width));
    var first := Place(m, destinationX, destinationY);
    RowPlace(m, destinationX, destinationY, width, filled, 0);
    FillBuffer(m, buffer, colour, D, destinationX, destinationY, width, data, f);
    MirrorIsOverwrite(v, m.LinearFrameBuffer, f);
    FewerRows(m, destinationX, destinationY, width, filled, shown, |f|);
    ghost var shownArea := Area(m, destinationX, destinationY, width, shown);
    ShowInEveryRow(m, buffer, bufferAddress, first, video, destinationX, destinationY, width, shown, shownArea,
                   FillRows(m.Fields, colour, width, shown), data, f, v);
  }

  lemma StoreRowNext(xs: seq<Pixel>, x: Pixel)
    ensures StoreRow(xs + [x]) == StoreRow(xs) + PixelInMemory(x)
  {
    assert (xs + [x])[..|xs|] == xs;
  }

  /** Storing one more pixel behind those stored so far. */
  lemma UnpackNext(m: Format, f: seq<byte>, from: nat, i: nat, count: nat, beyond: byte, place: nat, done: seq<byte>,
                   four: seq<byte>, next: seq<byte>, b: seq<byte>, at: nat, to: nat)
    requires to == at + |done| && |done| == 4 * i
    requires m.PixelWidth >= 3 && i < count && from + Times(count, m.PixelWidth) <= |f| && at + 4 * count <= |b|
    requires place == from + Times(i, m.PixelWidth) && place + m.PixelWidth <= |f|
    requires done == StoreRow(UnpackRow(m, f, from, i, beyond))
    requires four == PixelInMemory(Unpack(m, ReadWord(f, place, beyond))) && next == done + four
    ensures place + m.PixelWidth == from + Times(i + 1, m.PixelWidth)
    ensures |next| == 4 * (i + 1) && next == StoreRow(UnpackRow(m, f, from, i + 1, beyond))
    ensures Overwrite(Overwrite(b, at, done), to, four) == Overwrite(b, at, next)
  {
    StoreRowNext(UnpackRow(m, f, from, i, beyond), Unpack(m, ReadWord(f, place, beyond)));
    OverwriteTwice(b, at, done, four, next);
  }

  /** Unpacks a row of the working buffer into a BltBuffer. */
  method UnpackInto(m: Format, f: seq<byte>, from: nat, count: nat, beyond: byte, blt: array<byte>, at: nat,
                    ghost data: seq<byte>, ghost b: seq<byte>, ghost c: seq<byte>)
    requires 3 <= m.PixelWidth && blt[..] == b && from + Times(count, m.PixelWidth) <= |f| && at + 4 * count <= |b|
    requires |data| == 4 * count && data == StoreRow(UnpackRow(m, f, from, count, beyond)) && c == Overwrite(b, at, data)
    modifies blt
    ensures blt[..] == c
  {
    var place := from;
    ghost var done: seq<byte> := [];
    for i := 0 to count
      invariant place == from + Times(i, m.PixelWidth) <= |f|
      invariant |done| == 4 * i && done == StoreRow(UnpackRow(m, f, from, i, beyond))
      invariant blt[..] == Overwrite(b, at, done)
    {
      TimesAscends(i, count, m.PixelWidth);
      var four := PixelInMemory(Unpack(m, ReadWord(f, place, beyond)));
      ghost var next := done + four;
      var to := at + 4 * i;
      UnpackNext(m, f, from, i, count, beyond, place, done, four, next, b, at, to);
      Put(blt, to, four, Overwrite(b, at, done));
      place, done := place + m.PixelWidth, next;
    }
  }

  lemma ReadPlace(m: Mode, x: nat, y: nat, width: nat, height: nat, S: Rect, B: Rect, rows: seq<seq<byte>>, f: seq<byte>,
                  b: seq<byte>, i: nat, beyond: byte, from: nat, at: nat, data: seq<byte>)
    requires m.Fields.PixelWidth >= 3 && S == Area(m, x, y, width, height) && Fits(S, |f|)
    requires Fits(B, |b|) && B.Height == height && B.Width == 4 * width && i < height
    requires from == Place(m, x, y + i) && at == Start(B, i)
    requires rows == ReadRows(m.Fields, f, S, width, beyond) && data == rows[i]
    ensures from + Times(width, m.Fields.PixelWidth) <= |f| && at + 4 * width <= |b|
    ensures |data| == 4 * width && data == StoreRow(UnpackRow(m.Fields, f, from, width, beyond))
    ensures PaintTo(b, B, rows, i + 1) == Overwrite(PaintTo(b, B, rows, i), at, data)
  {
    RowPlace(m, x, y, width, height, i);
  }

  /** One round of EfiBltVideoToBltBuffer: row i of the rectangle. */
  method ReadNextRow(m: Mode, f: seq<byte>, beyond: byte, blt: array<byte>, S: Rect, B: Rect, sourceX: nat, sourceY: nat,
                     width: nat, height: nat, i: nat, ghost rows: seq<seq<byte>>, ghost b: seq<byte>)
    requires m.Fields.PixelWidth >= 3 && S == Area(m, sourceX, sourceY, width, height) && Fits(S, |f|)
    requires Fits(B, |b|) && B.Height == height && B.Width == 4 * width && i < height
    requires rows == ReadRows(m.Fields, f, S, width, beyond) && blt[..] == PaintTo(b, B, rows, i)
    modifies blt
    ensures blt[..] == PaintTo(b, B, rows, i + 1)
  {
    var from, at := Place(m, sourceX, sourceY + i), Start(B, i);
    ghost var data, c, d := rows[i], PaintTo(b, B, rows, i), PaintTo(b, B, rows, i + 1);
    ReadPlace(m, sourceX, sourceY, width, height, S, B, rows, f, b, i, beyond, from, at, data);
    UnpackInto(m.Fields, f, from, width, beyond, blt, at, data, c, d);
  }

  /** The rounds of EfiBltVideoToBltBuffer. */
  method ReadAllRows(m: Mode, f: seq<byte>, beyond: byte, blt: array<byte>, S: Rect, B: Rect, sourceX: nat, sourceY: nat,
                     width: nat, height: nat, ghost b: seq<byte>)
    requires Sound(m) && blt[..] == b && S == Area(m, sourceX, sourceY, width, height) && Fits(S, |f|)
    requires Fits(B, |b|) && B.Height == height && B.Width == 4 * width
    modifies blt
    ensures blt[..] == Paint(b, B, ReadRows(m.Fields, f, S, width, beyond))
  {
    ghost var rows := ReadRows(m.Fields, f, S, width, beyond);
    for i := 0 to height
      invariant blt[..] == PaintTo(b, B, rows, i)
    {
      ReadNextRow(m, f, beyond, blt, S, B, sourceX, sourceY, width, height, i, rows, b);
    }
  }

  /** EfiBltVideoToBltBuffer: reads the rectangle from the working buffer, whose contents are f, into
      the BltBuffer. The 32-bit read of the last pixel of a 24-bit frame takes the byte that follows
      the working buffer. The loops count rows and pixels of the BltBuffer: when either 64-bit end
      wraps around nothing is read or written. */
  method VideoToBltBuffer(m: Mode, f: seq<byte>, beyond: byte, blt: array<byte>, sourceX: nat, sourceY: nat,
                          destinationX: u64, destinationY: u64, width: u64, height: u64, delta: nat, ghost b: seq<byte>)
    requires Sound(m) && blt[..] == b
    requires Rounds(destinationY, height) > 0 && Rounds(destinationX, width) > 0 ==>
               && Fits(Area(m, sourceX, sourceY, width, height), |f|)
               && Fits(BltArea(destinationX, destinationY, width, height, delta), |b|)
    modifies blt
    ensures blt[..] == if Rounds(destinationY, height) == 0 || Rounds(destinationX, width) == 0 then b
                       else Paint(b, BltArea(destinationX, destinationY, width, height, delta),
                                  ReadRows(m.Fields, f, Area(m, sourceX, sourceY, width, height), width, beyond))
  {
    if Rounds(destinationY, height) > 0 && Rounds(destinationX, width) > 0 {
      ReadAllRows(m, f, beyond, blt, Area(m, sourceX, sourceY, width, height),
                  BltArea(destinationX, destinationY, width, height, delta), sourceX, sourceY, width, height, b);
    }
  }
}
