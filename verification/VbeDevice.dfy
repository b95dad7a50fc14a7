/** The Graphics Output protocol of a VESA BIOS device: mode setting and block transfers as one state
    machine over the working buffer and video memory. */
module VbeDevice {
  import opened Words
  import opened Bits
  import opened Frames
  import opened Colours
  import opened VideoMemory
  import opened VbeBlt

  datatype Status = Success | InvalidParameter | Unsupported | DeviceError

  /** EFI_GRAPHICS_OUTPUT_BLT_OPERATION; Unknown stands for every value out of range. */
  datatype Operation = Fill | ToBltBuffer | ToVideo | Copy | Unknown

  /** The arguments of Blt. */
  datatype Request = Request(Operation: Operation, SourceX: u64, SourceY: u64, DestinationX: u64, DestinationY: u64,
                             Width: u64, Height: u64, Delta: u64)

  /** The rectangle that is checked: the source of a read, the destination of any other operation. */
  function CheckedX(q: Request): u64 { if q.Operation == ToBltBuffer then q.SourceX else q.DestinationX }

  function CheckedY(q: Request): u64 { if q.Operation == ToBltBuffer then q.SourceY else q.DestinationY }

  /** The arguments that Blt accepts, by sums of 64 bits. */
  predicate Accepted(m: Mode, q: Request) {
    && q.Operation != Unknown && q.Width != 0 && q.Height != 0
    && Add64(CheckedY(q), q.Height) <= m.VerticalResolution
    && Add64(CheckedX(q), q.Width) <= m.HorizontalResolution
  }

  predicate WrapsDown(q: Request) { CheckedY(q) + q.Height >= TWO_64 }

  predicate WrapsAcross(q: Request) { CheckedX(q) + q.Width >= TWO_64 }

  /** One of the two sums wraps around. */
  predicate Wraps(q: Request) { WrapsDown(q) || WrapsAcross(q) }

  /** An accepted rectangle lies on the screen if and only if neither sum wraps around. */
  lemma AcceptedOnScreenIff(m: Mode, q: Request)
    requires Accepted(m, q)
    ensures InBounds(m, CheckedX(q), CheckedY(q), q.Width, q.Height) <==> !Wraps(q)
  {
    assert CheckedY(q) + q.Height < TWO_64 ==> Add64(CheckedY(q), q.Height) == CheckedY(q) + q.Height;
    assert CheckedX(q) + q.Width < TWO_64 ==> Add64(CheckedX(q), q.Width) == CheckedX(q) + q.Width;
  }

  /** Without a sum that wraps around, exactly the four operations on rectangles that are not empty and lie
      on the screen are accepted: the source of a read, the destination of anything else. */
  lemma AcceptedIff(m: Mode, q: Request, x: u64, y: u64)
    requires x == (if q.Operation.ToBltBuffer? then q.SourceX else q.DestinationX) && x + q.Width < 0x1_0000_0000_0000_0000
    requires y == (if q.Operation.ToBltBuffer? then q.SourceY else q.DestinationY) && y + q.Height < 0x1_0000_0000_0000_0000
    ensures Accepted(m, q)
            <==> && (q.Operation.Fill? || q.Operation.ToBltBuffer? || q.Operation.ToVideo? || q.Operation.Copy?)
                 && q.Width > 0 && q.Height > 0
                 && x + q.Width <= m.HorizontalResolution && y + q.Height <= m.VerticalResolution
  {
    assert Add64(y, q.Height) == y + q.Height && Add64(x, q.Width) == x + q.Width;
  }

  /** Such requests are accepted in every mode that has a pixel. */
  lemma WrappedAccepted(m: Mode, q: Request)
    requires m.HorizontalResolution > 0 && q.Operation != Unknown && CheckedX(q) == 0 && CheckedY(q) == 1
    requires q.Width == 1 && q.Height == TWO_64 - 1
    ensures Accepted(m, q) && !InBounds(m, CheckedX(q), CheckedY(q), q.Width, q.Height)
  {
    assert Add64(1, TWO_64 - 1) == 0;
  }

  /** Transfers to and from a BltBuffer whose loops run over no row, or over no pixel of a row: they
      count places of the BltBuffer, whose 64-bit ends are not checked. */
  predicate Idle(q: Request) {
    match q.Operation
    case ToVideo => Rounds(q.SourceY, q.Height) == 0
    case ToBltBuffer => Rounds(q.DestinationY, q.Height) == 0 || Rounds(q.DestinationX, q.Width) == 0
    case _ => false
  }

  function Source(m: Mode, q: Request): Rect { Area(m, q.SourceX, q.SourceY, q.Width, q.Height) }

  function Destination(m: Mode, q: Request): Rect { Area(m, q.DestinationX, q.DestinationY, q.Width, q.Height) }

  /** The rows a fill writes into the working buffer. */
  function Filled(m: Mode, q: Request): Rect {
    Area(m, q.DestinationX, q.DestinationY, q.Width, FilledRows(q.DestinationY, q.Height))
  }

  /** The rows a fill shows. */
  function Shown(m: Mode, q: Request): Rect {
    Area(m, q.DestinationX, q.DestinationY, q.Width, Rounds(q.DestinationY, q.Height))
  }

  function BltSource(q: Request): Rect { BltArea(q.SourceX, q.SourceY, q.Width, q.Height, q.Delta) }

  function BltDestination(q: Request): Rect { BltArea(q.DestinationX, q.DestinationY, q.Width, q.Height, q.Delta) }

  /** What the caller must provide: a BltBuffer that holds its rectangle and, for a copy inside the
      frame, a source inside the frame. */
  ghost predicate Provided(m: Mode, q: Request, size: nat) {
    match q.Operation
    case Fill => size >= 4
    case ToBltBuffer => Fits(BltDestination(q), size)
    case ToVideo => Fits(BltSource(q), size)
    case Copy => InBounds(m, q.SourceX, q.SourceY, q.Width, q.Height)
    case Unknown => true
  }

  /** What an accepted request must meet not to run off a buffer: it touches nothing, or the caller
      provides the rest and no sum wraps around. Only a fill may wrap downwards, from a line of the
      screen: it writes that line alone. */
  ghost predicate Answerable(m: Mode, q: Request, size: nat) {
    Accepted(m, q) && !Idle(q) ==>
      && Provided(m, q, size) && !WrapsAcross(q)
      && (WrapsDown(q) ==> q.Operation.Fill? && q.DestinationY < m.VerticalResolution)
  }

  /** The rectangles that an accepted request uses lie in the frame. */
  ghost predicate Legal(m: Mode, q: Request, frame: nat, size: nat) {
    && Sound(m)
    && (!Idle(q) ==> Provided(m, q, size) && InFrame(m, q, frame))
  }

  ghost predicate InFrame(m: Mode, q: Request, frame: nat) {
    match q.Operation
    case Fill => Fits(Filled(m, q), frame) && Fits(Shown(m, q), frame)
    case ToBltBuffer => Fits(Source(m, q), frame)
    case ToVideo => Fits(Destination(m, q), frame)
    case Copy =>
      && Fits(Source(m, q), frame) && Fits(Destination(m, q), frame)
      && Alike(Source(m, q), Destination(m, q), m.VerticalResolution)
    case Unknown => true
  }

  lemma FillIsLegal(m: Mode, q: Request)
    requires Sound(m) && Accepted(m, q) && q.Operation.Fill? && !WrapsAcross(q)
    requires WrapsDown(q) ==> q.DestinationY < m.VerticalResolution
    ensures InFrame(m, q, FrameBytes(m))
  {
    var filled, shown := FilledRows(q.DestinationY, q.Height), Rounds(q.DestinationY, q.Height);
    assert Add64(q.DestinationX, q.Width) == q.DestinationX + q.Width;
    assert !WrapsDown(q) ==> Add64(q.DestinationY, q.Height) == q.DestinationY + q.Height;
    AreaOnScreen(m, q.DestinationX, q.DestinationY, q.Width, filled);
    FewerRows(m, q.DestinationX, q.DestinationY, q.Width, filled, shown, FrameBytes(m));
  }

  lemma AcceptedIsLegal(m: Mode, q: Request, size: nat)
    requires Sound(m) && Accepted(m, q) && Answerable(m, q, size)
    ensures Legal(m, q, FrameBytes(m), size)
  {
    if !Idle(q) {
      if q.Operation.Fill? {
        FillIsLegal(m, q);
      } else {
        AcceptedOnScreenIff(m, q);
        if q.Operation.ToBltBuffer? || q.Operation.Copy? {
          AreaOnScreen(m, q.SourceX, q.SourceY, q.Width, q.Height);
        }
        if !q.Operation.ToBltBuffer? {
          AreaOnScreen(m, q.DestinationX, q.DestinationY, q.Width, q.Height);
        }
      }
    }
  }

  /** The working buffer after an accepted request. */
  function FrameAfter(m: Mode, f: seq<byte>, q: Request, b: seq<byte>): (g: seq<byte>)
    requires Legal(m, q, |f|, |b|)
    ensures |g| == |f|
  {
    if Idle(q) then f
    else match q.Operation
      case Fill => Paint(f, Filled(m, q), FillRows(m.Fields, PixelAt(b[..4], 0), q.Width, Filled(m, q).Height))
      case ToVideo => Paint(f, Destination(m, q), PackedRows(m.Fields, b, BltSource(q)))
      case Copy => Paint(f, Destination(m, q), RowsOf(f, Source(m, q)))
      case _ => f
  }

  /** The frame on the screen after an accepted request. */
  function ScreenAfter(m: Mode, f: seq<byte>, q: Request, b: seq<byte>): (g: seq<byte>)
    requires Legal(m, q, |f|, |b|)
    ensures |g| == |f|
  {
    if q.Operation.Fill? then
      Paint(f, Shown(m, q), FillRows(m.Fields, PixelAt(b[..4], 0), q.Width, Shown(m, q).Height))
    else FrameAfter(m, f, q, b)
  }

  /** The BltBuffer after an accepted request. */
  function BufferAfter(m: Mode, f: seq<byte>, q: Request, b: seq<byte>, beyond: byte): (c: seq<byte>)
    requires Legal(m, q, |f|, |b|)
    ensures |c| == |b|
  {
    if q.Operation.ToBltBuffer? && !Idle(q) then
      Paint(b, BltDestination(q), ReadRows(m.Fields, f, Source(m, q), q.Width, beyond))
    else b
  }

  /** A request leaves the working buffer and the screen equal. */
  ghost predicate KeepsCoherent(m: Mode, f: seq<byte>, q: Request, b: seq<byte>)
    requires Legal(m, q, |f|, |b|)
  {
    FrameAfter(m, f, q, b) == ScreenAfter(m, f, q, b)
  }

  /** Every request does that but an accepted fill that wraps downwards. */
  lemma OthersKeepCoherent(m: Mode, f: seq<byte>, q: Request, b: seq<byte>)
    requires Legal(m, q, |f|, |b|) && q.Height > 0 && !(q.Operation.Fill? && WrapsDown(q))
    ensures KeepsCoherent(m, f, q, b)
  {
  }

  /** After a fill that wraps the working buffer holds one line of the colour and the screen the old
      frame: a frame of other bytes shows it. */
  lemma WrappedFillSpoils(m: Mode, q: Request, b: seq<byte>) returns (f: seq<byte>)
    requires Sound(m) && Legal(m, q, FrameBytes(m), |b|) && q.Operation.Fill? && WrapsDown(q) && q.Width > 0
    ensures |f| == FrameBytes(m) && !KeepsCoherent(m, f, q, b)
  {
    var data := PackRow(m.Fields, Same(PixelAt(b[..4], 0), q.Width));
    TimesAscends(0, q.Width, m.Fields.PixelWidth);
    f := seq(FrameBytes(m), _ => if data[0] == ZERO then ONES else ZERO);
    var rows := FillRows(m.Fields, PixelAt(b[..4], 0), q.Width, 1);
    FirstHeld(f, Filled(m, q), rows, data, Start(Filled(m, q), 0), FrameAfter(m, f, q, b));
    assert FrameAfter(m, f, q, b)[Start(Filled(m, q), 0)] == data[0];
  }

  /** A fill that does not run off the buffer keeps working buffer and screen equal for every frame
      and every colour if and only if its vertical sum does not wrap around. */
  lemma FillKeepsCoherentIff(m: Mode, q: Request, size: nat)
    requires Sound(m) && Accepted(m, q) && q.Operation.Fill? && Answerable(m, q, size)
    ensures Legal(m, q, FrameBytes(m), size)
    ensures (forall f, b :: |f| == FrameBytes(m) && |b| == size ==> KeepsCoherent(m, f, q, b)) <==> !WrapsDown(q)
  {
    AcceptedIsLegal(m, q, size);
    if WrapsDown(q) {
      var b: seq<byte> := seq(size, _ => ZERO);
      var f := WrappedFillSpoils(m, q, b);
    } else {
      forall f, b | |f| == FrameBytes(m) && |b| == size
        ensures KeepsCoherent(m, f, q, b)
      {
        OthersKeepCoherent(m, f, q, b);
      }
    }
  }

  /** The rows of a rectangle of a BltBuffer with every pixel masked. */
  function MaskedRows(m: Format, b: seq<byte>, B: Rect): (rows: seq<seq<byte>>)
    requires Fits(B, |b|) && B.Width % 4 == 0
    ensures |rows| == B.Height && forall r :: 0 <= r < |rows| ==> |rows[r]| == B.Width
  {
    seq(B.Height, r requires 0 <= r < B.Height => StoreRow(MaskedRow(m, BltRow(b, B, r))))
  }

  lemma SameRow(m: Format, g: seq<byte>, D: Rect, b: seq<byte>, B: Rect, count: nat, r: nat, beyond: byte)
    requires m.PixelWidth >= 3 && Fits(D, |g|) && Fits(B, |b|) && B.Height == D.Height && r < D.Height
    requires B.Width == 4 * count && D.Width == Times(count, m.PixelWidth)
    requires FrameRow(m, g, D, r, count, beyond) == MaskedRow(m, BltRow(b, B, r))
    ensures ReadRows(m, g, D, count, beyond)[r] == MaskedRows(m, b, B)[r]
  {
  }

  lemma RowReadBack(m: Format, f: seq<byte>, D: Rect, b: seq<byte>, B: Rect, count: nat, r: nat, beyond: byte, g: seq<byte>)
    requires GoodFields(m) && m.PixelWidth >= 3 && Fits(D, |f|) && Fits(B, |b|) && B.Height == D.Height && r < D.Height
    requires B.Width == 4 * count && D.Width == Times(count, m.PixelWidth) && g == Paint(f, D, PackedRows(m, b, B))
    ensures ReadRows(m, g, D, count, beyond)[r] == MaskedRows(m, b, B)[r]
  {
    WrittenReadsBack(m, f, D, b, B, r, beyond);
    SameRow(m, g, D, b, B, count, r, beyond);
  }

  lemma RowsReadBack(m: Format, f: seq<byte>, D: Rect, b: seq<byte>, B: Rect, count: nat, beyond: byte, g: seq<byte>)
    requires GoodFields(m) && m.PixelWidth >= 3 && Fits(D, |f|) && Fits(B, |b|) && B.Height == D.Height
    requires B.Width == 4 * count && D.Width == Times(count, m.PixelWidth) && g == Paint(f, D, PackedRows(m, b, B))
    ensures ReadRows(m, g, D, count, beyond) == MaskedRows(m, b, B)
  {
    var read, masked := ReadRows(m, g, D, count, beyond), MaskedRows(m, b, B);
    forall r | 0 <= r < D.Height
      ensures read[r] == masked[r]
    {
      RowReadBack(m, f, D, b, B, count, r, beyond, g);
    }
  }

  /** Writing a rectangle of the frame and reading the same rectangle back stores each pixel masked by
      the fields of the mode in its place of the second BltBuffer, and nothing else there changes. An
      idle read stores nothing, and after an idle write the old frame is read. */
  lemma RoundTrip(m: Mode, f: seq<byte>, w: Request, b: seq<byte>, r: Request, c: seq<byte>, beyond: byte)
    requires GoodFields(m.Fields) && w.Operation.ToVideo? && r.Operation.ToBltBuffer?
    requires Legal(m, w, |f|, |b|) && Legal(m, r, |f|, |c|) && Source(m, r) == Destination(m, w) && r.Width == w.Width
    ensures BufferAfter(m, FrameAfter(m, f, w, b), r, c, beyond)
            == if Idle(r) then c
               else if Idle(w) then BufferAfter(m, f, r, c, beyond)
               else Paint(c, BltDestination(r), MaskedRows(m.Fields, b, BltSource(w)))
  {
    if !Idle(w) && !Idle(r) {
      RowsReadBack(m.Fields, f, Destination(m, w), b, BltSource(w), w.Width, beyond, FrameAfter(m, f, w, b));
    }
  }

  /** The requests after which the working buffer may differ from the screen. */
  predicate Spoils(m: Mode, q: Request) { q.Operation.Fill? && WrapsDown(q) && Accepted(m, q) }

  class BiosVideo {
    const ModeData: seq<Mode>
    const Video: array<byte>
    var ModeNumber: nat
    var VbeFrameBuffer: array<byte>
    var BufferAddress: nat

    /** Every mode is sound, is one of the VESA modes, and has its frame in video memory. */
    predicate ModesSound() {
      forall i :: 0 <= i < |ModeData| ==>
        && Sound(ModeData[i]) && ModeData[i].VbeModeNumber >= 0x100
        && ModeData[i].LinearFrameBuffer + FrameBytes(ModeData[i]) <= Video.Length
    }

    predicate Valid()
      reads this
    {
      && ModesSound() && ModeNumber < |ModeData| && VbeFrameBuffer != Video
      && VbeFrameBuffer.Length == FrameBytes(ModeData[ModeNumber])
    }

    function Current(): Mode
      requires Valid()
      reads this
    {
      ModeData[ModeNumber]
    }

    /** The working buffer equals the physical frame buffer byte for byte. */
    predicate Coherent()
      requires Valid()
      reads this, Video, VbeFrameBuffer
    {
      Mirrors(Video[..], Current().LinearFrameBuffer, VbeFrameBuffer[..])
    }

    /** BiosVideoGraphicsOutputVbeBlt. `beyond` is the byte that follows the working buffer in memory.
        Working buffer and screen stay equal except after a fill whose vertical sum wraps around; then
        they are equal only when the line it wrote was there before. */
    method Blt(blt: array<byte>, q: Request, beyond: byte) returns (status: Status)
      requires Valid() && Coherent() && Answerable(Current(), q, blt.Length)
      requires blt != VbeFrameBuffer && blt != Video
      modifies VbeFrameBuffer, Video, blt
      ensures Valid()
      ensures status == if Accepted(Current(), q) then Success else InvalidParameter
      ensures status == InvalidParameter ==> unchanged(VbeFrameBuffer, Video, blt)
      ensures status == Success ==> Legal(Current(), q, VbeFrameBuffer.Length, blt.Length)
      ensures status == Success ==> VbeFrameBuffer[..] == FrameAfter(Current(), old(VbeFrameBuffer[..]), q, old(blt[..]))
      ensures status == Success ==> blt[..] == BufferAfter(Current(), old(VbeFrameBuffer[..]), q, old(blt[..]), beyond)
      ensures status == Success ==>
                Video[..] == Overwrite(old(Video[..]), Current().LinearFrameBuffer,
                                       ScreenAfter(Current(), old(VbeFrameBuffer[..]), q, old(blt[..])))
      ensures Coherent() <==> (status == Success ==> KeepsCoherent(Current(), old(VbeFrameBuffer[..]), q, old(blt[..])))
      ensures !Spoils(Current(), q) ==> Coherent()
    {
      var m := Current();
      ghost var f, v, b := VbeFrameBuffer[..], Video[..], blt[..];
      if !Accepted(m, q) {
        status := InvalidParameter;
      } else {
        status := Success;
        AcceptedIsLegal(m, q, blt.Length);
        Transfer(m, VbeFrameBuffer, BufferAddress, Video, blt, q, beyond, f, v, b);
        ShownIff(v, m.LinearFrameBuffer, ScreenAfter(m, f, q, b), FrameAfter(m, f, q, b));
        if !Spoils(m, q) {
          OthersKeepCoherent(m, f, q, b);
        }
      }
    }

    /** BiosVideoGraphicsOutputSetMode. `bios` says whether the BIOS call succeeded, `contents` what it
        left in video memory, `address` where the new working buffer was allocated and `pool` what that
        memory held. The frame is read in 32-bit words, so the last bytes of a frame that is not a whole
        number of words stay as they were. When the BIOS refuses, the buffer is replaced but nothing is
        read and the mode stays. */
    method SetMode(mode: nat, bios: bool, contents: seq<byte>, address: nat, pool: seq<byte>) returns (status: Status)
      requires ModesSound() && ModeNumber < |ModeData| && |contents| == Video.Length
      requires mode < |ModeData| ==> |pool| == FrameBytes(ModeData[mode])
      modifies this, Video
      ensures status == if mode >= |ModeData| then Unsupported else if !bios then DeviceError else Success
      ensures status == Unsupported ==> unchanged(this, Video)
      ensures status != Unsupported ==> Video[..] == contents && fresh(VbeFrameBuffer) && BufferAddress == address
      ensures status == Success ==> Valid() && ModeNumber == mode
      ensures status == Success ==> VbeFrameBuffer[..] == FrameRead(Current(), contents, pool)
      ensures status == Success ==> (Coherent() <==> TailHeld(Current(), contents, pool))
      ensures status == DeviceError ==> ModeNumber == old(ModeNumber) && VbeFrameBuffer[..] == pool
      ensures status == DeviceError ==>
              (Valid() && Coherent() <==> Mirrors(contents, ModeData[ModeNumber].LinearFrameBuffer, pool)
                                          && |pool| == FrameBytes(ModeData[ModeNumber]))
    {
      if mode >= |ModeData| {
        status := Unsupported;
      } else {
        var m := ModeData[mode];
        VbeFrameBuffer := AllocatePool(pool);
        BufferAddress := address;
        Refresh(Video, contents);
        if !bios {
          status := DeviceError;
        } else {
          ReadFrame(VbeFrameBuffer, Video, m, contents, pool);
          ModeNumber := mode;
          status := Success;
          FrameReadMirrors(m, contents, pool);
        }
      }
    }
  }

  /** Working buffer and screen are equal exactly when the same frame is in both. */
  lemma ShownIff(v: seq<byte>, base: nat, shown: seq<byte>, f: seq<byte>)
    requires |shown| == |f| && base + |f| <= |v|
    ensures Mirrors(Overwrite(v, base, shown), base, f) <==> f == shown
  {
    assert Overwrite(v, base, shown)[base..base + |f|] == shown;
  }

  /** The number of bytes of a frame that are read: its whole words. */
  function WholeWords(m: Mode): (n: nat)
    ensures n <= FrameBytes(m) < n + 4
  {
    FrameBytes(m) / 4 * 4
  }

  /** The working buffer after the words of the frame are read over what its memory held. */
  function FrameRead(m: Mode, v: seq<byte>, pool: seq<byte>): (f: seq<byte>)
    requires |pool| == FrameBytes(m) && m.LinearFrameBuffer + |pool| <= |v|
    ensures |f| == |pool|
  {
    v[m.LinearFrameBuffer..m.LinearFrameBuffer + WholeWords(m)] + pool[WholeWords(m)..]
  }

  /** The memory of the working buffer already held the bytes of the frame that are not read. */
  predicate TailHeld(m: Mode, v: seq<byte>, pool: seq<byte>)
    requires |pool| == FrameBytes(m) && m.LinearFrameBuffer + |pool| <= |v|
  {
    pool[WholeWords(m)..] == v[m.LinearFrameBuffer + WholeWords(m)..m.LinearFrameBuffer + |pool|]
  }

  lemma FrameReadMirrors(m: Mode, v: seq<byte>, pool: seq<byte>)
    requires |pool| == FrameBytes(m) && m.LinearFrameBuffer + |pool| <= |v|
    ensures Mirrors(v, m.LinearFrameBuffer, FrameRead(m, v, pool)) <==> TailHeld(m, v, pool)
  {
    var base, n := m.LinearFrameBuffer, WholeWords(m);
    var f, frame := FrameRead(m, v, pool), v[base..base + |pool|];
    assert frame == v[base..base + n] + v[base + n..base + |pool|];
    assert f[n..] == pool[n..] && frame[n..] == v[base + n..base + |pool|];
  }

  /** A frame of a whole number of words is read completely. */
  lemma WholeWordsHeld(m: Mode, v: seq<byte>, pool: seq<byte>)
    requires |pool| == FrameBytes(m) && m.LinearFrameBuffer + |pool| <= |v| && FrameBytes(m) % 4 == 0
    ensures TailHeld(m, v, pool)
  {
  }

  /** Allocated memory holds whatever it held before. */
  method AllocatePool(pool: seq<byte>) returns (buffer: array<byte>)
    ensures fresh(buffer) && buffer[..] == pool
  {
    buffer := new byte[|pool|](k requires 0 <= k < |pool| => pool[k]);
  }

  /** The BIOS leaves its own picture in video memory. */
  method Refresh(video: array<byte>, contents: seq<byte>)
    requires |contents| == video.Length
    modifies video
    ensures video[..] == contents
  {
    for i := 0 to video.Length
      invariant video[..i] == contents[..i]
    {
      video[i] := contents[i];
    }
  }

  /** Reads the words of a frame of video memory into the working buffer. */
  method ReadFrame(buffer: array<byte>, video: array<byte>, m: Mode, ghost v: seq<byte>, ghost pool: seq<byte>)
    requires buffer != video && buffer[..] == pool && video[..] == v
    requires |pool| == FrameBytes(m) && m.LinearFrameBuffer + |pool| <= |v|
    modifies buffer
    ensures buffer[..] == FrameRead(m, v, pool)
  {
    var words := video[m.LinearFrameBuffer..m.LinearFrameBuffer + WholeWords(m)];
    PutWords(buffer, 0, words, FrameBytes(m) / 4, pool);
  }

  /** The four transfers, once the arguments are accepted. */
  method Transfer(m: Mode, buffer: array<byte>, bufferAddress: nat, video: array<byte>, blt: array<byte>, q: Request,
                  beyond: byte, ghost f: seq<byte>, ghost v: seq<byte>, ghost b: seq<byte>)
    requires Sound(m) && buffer[..] == f && video[..] == v && blt[..] == b
    requires buffer != video && blt != buffer && blt != video
    requires |f| == FrameBytes(m) && Mirrors(v, m.LinearFrameBuffer, f)
    requires Legal(m, q, |f|, |b|) && q.Height > 0
    modifies buffer, video, blt
    ensures buffer[..] == FrameAfter(m, f, q, b)
    ensures video[..] == Overwrite(v, m.LinearFrameBuffer, ScreenAfter(m, f, q, b))
    ensures blt[..] == BufferAfter(m, f, q, b, beyond)
  {
    match q.Operation {
      case Fill =>
        VideoFill(m, buffer, bufferAddress, video, PixelAt(blt[..4], 0), q.DestinationX, q.DestinationY, q.Width, q.Height, f, v);
      case ToBltBuffer =>
        MirrorIsOverwrite(v, m.LinearFrameBuffer, f);
        VideoToBltBuffer(m, buffer[..], beyond, blt, q.SourceX, q.SourceY, q.DestinationX, q.DestinationY, q.Width,
                         q.Height, q.Delta, b);
      case ToVideo =>
        BufferToVideo(m, buffer, bufferAddress, video, blt[..], q.SourceX, q.SourceY, q.DestinationX, q.DestinationY,
                      q.Width, q.Height, q.Delta, f, v);
      case Copy =>
        VideoToVideo(m, buffer, bufferAddress, video, q.SourceX, q.SourceY, q.DestinationX, q.DestinationY, q.Width,
                     q.Height, f, v);
      case Unknown =>
        MirrorIsOverwrite(v, m.LinearFrameBuffer, f);
    }
  }

  /** One call of a client: a mode change with the BIOS's answer, or a block transfer with the contents
      of its BltBuffer. */
  datatype Call =
    | SetMode(Mode: nat, Bios: bool, Contents: seq<byte>, Address: nat, Pool: seq<byte>)
    | Blt(Request: Request, Buffer: seq<byte>, Beyond: byte)

  /** The mode after a run that starts in mode `start`: the last one the BIOS set. */
  function ModeAfter(modes: seq<Mode>, start: nat, calls: seq<Call>): (n: nat)
    requires start < |modes|
    ensures n < |modes|
  {
    if calls == [] then start
    else
      var c := calls[|calls| - 1];
      if c.SetMode? && c.Mode < |modes| && c.Bios then c.Mode else ModeAfter(modes, start, calls[..|calls| - 1])
  }

  /** The BIOS carries out the mode change, and no byte of the frame stays unread that matters. */
  predicate Completed(m: Mode, bios: bool, v: seq<byte>, pool: seq<byte>) {
    bios && |pool| == FrameBytes(m) && m.LinearFrameBuffer + |pool| <= |v| && TailHeld(m, v, pool)
  }

  /** The last change to an existing mode, if any, was completed, and no fill has wrapped since. */
  predicate Settled(modes: seq<Mode>, start: nat, calls: seq<Call>)
    requires start < |modes|
  {
    if calls == [] then true
    else
      var c, before := calls[|calls| - 1], calls[..|calls| - 1];
      if c.Blt? then Settled(modes, start, before) && !Spoils(modes[ModeAfter(modes, start, before)], c.Request)
      else if c.Mode < |modes| then Completed(modes[c.Mode], c.Bios, c.Contents, c.Pool)
      else Settled(modes, start, before)
  }

  /** Call c may follow a run: a mode change with memory of the right sizes, or in a settled state a
      transfer that the current mode can answer. */
  ghost predicate Allowed(modes: seq<Mode>, start: nat, size: nat, before: seq<Call>, c: Call)
    requires start < |modes|
  {
    match c
    case SetMode(mode, _, contents, _, pool) =>
      |contents| == size && (mode < |modes| ==> |pool| == FrameBytes(modes[mode]))
    case Blt(q, buffer, _) =>
      Settled(modes, start, before) && Answerable(modes[ModeAfter(modes, start, before)], q, |buffer|)
  }

  /** One call of a run. */
  method Perform(device: BiosVideo, c: Call, ghost start: nat, ghost before: seq<Call>, ghost calls: seq<Call>)
    requires device.ModesSound() && start < |device.ModeData| && calls == before + [c]
    requires device.ModeNumber == ModeAfter(device.ModeData, start, before)
    requires Settled(device.ModeData, start, before) ==> device.Valid() && device.Coherent()
    requires Allowed(device.ModeData, start, device.Video.Length, before, c)
    modifies device, device.Video, device.VbeFrameBuffer
    ensures device.ModeNumber == ModeAfter(device.ModeData, start, calls)
    ensures Settled(device.ModeData, start, calls) ==> device.Valid() && device.Coherent()
    ensures device.VbeFrameBuffer == old(device.VbeFrameBuffer) || fresh(device.VbeFrameBuffer)
  {
    assert calls[..|calls| - 1] == before && calls[|calls| - 1] == c;
    match c {
      case SetMode(mode, bios, contents, address, pool) =>
        var _ := device.SetMode(mode, bios, contents, address, pool);
      case Blt(q, buffer, beyond) =>
        var blt := new byte[|buffer|](k requires 0 <= k < |buffer| => buffer[k]);
        var _ := device.Blt(blt, q, beyond);
    }
  }

  /** Over every run of mode changes, refused ones included, and of block transfers in settled states:
      in those states the working buffer equals the physical frame buffer byte for byte. */
  method Run(device: BiosVideo, calls: seq<Call>)
    requires device.Valid() && device.Coherent()
    requires forall i :: 0 <= i < |calls| ==>
               Allowed(device.ModeData, device.ModeNumber, device.Video.Length, calls[..i], calls[i])
    modifies device, device.Video, device.VbeFrameBuffer
    ensures device.ModeNumber == ModeAfter(device.ModeData, old(device.ModeNumber), calls)
    ensures Settled(device.ModeData, old(device.ModeNumber), calls) ==> device.Valid() && device.Coherent()
  {
    ghost var start := device.ModeNumber;
    for i := 0 to |calls|
      invariant device.ModesSound() && device.ModeNumber == ModeAfter(device.ModeData, start, calls[..i])
      invariant Settled(device.ModeData, start, calls[..i]) ==> device.Valid() && device.Coherent()
      invariant device.VbeFrameBuffer == old(device.VbeFrameBuffer) || fresh(device.VbeFrameBuffer)
    {
      assert calls[..i + 1] == calls[..i] + [calls[i]];
      assert Allowed(device.ModeData, start, device.Video.Length, calls[..i], calls[i]);
      Perform(device, calls[i], start, calls[..i], calls[..i + 1]);
    }
    assert calls[..|calls|] == calls;
  }
}
