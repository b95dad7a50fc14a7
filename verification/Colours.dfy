/** Pixels of the Graphics Output protocol (section 11.9 of UEFI 2.4) and their form in a frame
    buffer with 24 or 32 bits per pixel. */
module Colours {
  import opened Bits
  import opened Frames

  /** EFI_GRAPHICS_OUTPUT_BLT_PIXEL */
  datatype Pixel = Pixel(Blue: byte, Green: byte, Red: byte, Reserved: byte)

  /** BIOS_VIDEO_COLOR_PLACEMENT: where one colour field lies in a pixel. */
  datatype Placement = Placement(Position: nat, Mask: byte)

  /** The fields of the current mode; PixelWidth is the number of bytes of a pixel. */
  datatype Format = Format(Red: Placement, Green: Placement, Blue: Placement, PixelWidth: nat)

  function Placed(c: byte, p: Placement): word { Shl(And(c, p.Mask), p.Position) }

  /** The hardware form of a pixel. */
  function Pack(m: Format, x: Pixel): word {
    Or(Or(Placed(x.Red, m.Red), Placed(x.Green, m.Green)), Placed(x.Blue, m.Blue))
  }

  function FieldOf(w: word, p: Placement): byte { And(Shr(w, p.Position), p.Mask) }

  /** The pixel read back from its hardware form. */
  function Unpack(m: Format, w: word): Pixel {
    Pixel(FieldOf(w, m.Blue), FieldOf(w, m.Green), FieldOf(w, m.Red), ZERO)
  }

  function Masked(m: Format, x: Pixel): Pixel {
    Pixel(And(x.Blue, m.Blue.Mask), And(x.Green, m.Green.Mask), And(x.Red, m.Red.Mask), ZERO)
  }

  /** Bit i of a pixel belongs to the field. */
  predicate InField(p: Placement, i: int) { p.Position <= i < p.Position + 8 && p.Mask.Bits[i - p.Position] }

  predicate FitsPixel(p: Placement, width: nat) {
    forall i :: 0 <= i < 8 && p.Mask.Bits[i] ==> p.Position + i < 8 * width
  }

  predicate Both(p: Placement, q: Placement, i: int) { InField(p, i) && InField(q, i) }

  /** No bit of a word belongs to both fields. */
  predicate Apart(p: Placement, q: Placement) { forall i :: 0 <= i < 32 ==> !Both(p, q, i) }

  /** The fields fit the bytes of a pixel and are pairwise disjoint. */
  predicate GoodFields(m: Format) {
    && m.PixelWidth <= 4
    && FitsPixel(m.Red, m.PixelWidth) && FitsPixel(m.Green, m.PixelWidth) && FitsPixel(m.Blue, m.PixelWidth)
    && Apart(m.Red, m.Green) && Apart(m.Red, m.Blue) && Apart(m.Green, m.Blue)
  }

  /** Two words agree on the bits that a pixel of so many bytes holds. */
  predicate AgreeOn(v: word, w: word, width: nat) {
    forall i :: 0 <= i < 32 && i < 8 * width ==> v[i] == w[i]
  }

  lemma PlacedBit(c: byte, p: Placement, i: nat)
    requires i < 32
    ensures Placed(c, p)[i] == (InField(p, i) && c.Bits[i - p.Position])
  {
  }

  /** A field is read back from a word that holds the placed colour in the bits of that field. */
  lemma FieldBack(w: word, c: byte, p: Placement)
    requires forall i :: 0 <= i < 32 && InField(p, i) ==> w[i] == c.Bits[i - p.Position]
    requires FitsPixel(p, 4)
    ensures FieldOf(w, p) == And(c, p.Mask)
  {
    forall i | 0 <= i < 8
      ensures FieldOf(w, p).Bits[i] == And(c, p.Mask).Bits[i]
    {
      if p.Mask.Bits[i] {
        assert InField(p, p.Position + i);
      }
    }
    SameBits(FieldOf(w, p), And(c, p.Mask));
  }

  lemma FieldOfThree(w: word, v: word, width: nat, c: byte, p: Placement, d: byte, q: Placement, e: byte, s: Placement)
    requires width <= 4 && FitsPixel(p, width) && Apart(p, q) && Apart(p, s) && AgreeOn(w, v, width)
    requires forall i :: 0 <= i < 32 ==> v[i] == (Placed(c, p)[i] || Placed(d, q)[i] || Placed(e, s)[i])
    ensures FieldOf(w, p) == And(c, p.Mask)
  {
    forall i | 0 <= i < 32 && InField(p, i)
      ensures w[i] == c.Bits[i - p.Position]
    {
      assert p.Mask.Bits[i - p.Position];
      assert !Both(p, q, i) && !Both(p, s, i);
      PlacedBit(c, p, i);
      PlacedBit(d, q, i);
      PlacedBit(e, s, i);
    }
    FieldBack(w, c, p);
  }

  lemma ApartBothWays(p: Placement, q: Placement)
    requires Apart(p, q)
    ensures Apart(q, p)
  {
    forall i | 0 <= i < 32
      ensures !Both(q, p, i)
    {
      assert !Both(p, q, i);
    }
  }

  /** Reading back a word that agrees with a packed pixel on the bytes of that pixel returns each
      colour masked by its field. */
  lemma UnpackPack(m: Format, x: Pixel, w: word)
    requires GoodFields(m) && AgreeOn(w, Pack(m, x), m.PixelWidth)
    ensures Unpack(m, w) == Masked(m, x)
  {
    var v := Pack(m, x);
    ApartBothWays(m.Red, m.Green);
    ApartBothWays(m.Red, m.Blue);
    ApartBothWays(m.Green, m.Blue);
    FieldOfThree(w, v, m.PixelWidth, x.Red, m.Red, x.Green, m.Green, x.Blue, m.Blue);
    FieldOfThree(w, v, m.PixelWidth, x.Green, m.Green, x.Red, m.Red, x.Blue, m.Blue);
    FieldOfThree(w, v, m.PixelWidth, x.Blue, m.Blue, x.Red, m.Red, x.Green, m.Green);
  }

  /** A colour is misread where the word does not hold a bit of its field. */
  lemma FieldMisread(w: word, c: byte, p: Placement, i: nat)
    requires i < 8 && p.Mask.Bits[i]
    requires c.Bits[i] != (p.Position + i < 32 && w[p.Position + i])
    ensures FieldOf(w, p) != And(c, p.Mask)
  {
    assert FieldOf(w, p).Bits[i] != And(c, p.Mask).Bits[i];
  }

  /** Whatever follows the bytes of a packed pixel in memory, it is read back masked by its fields. */
  ghost predicate ReadsBack(m: Format, x: Pixel) {
    forall w: word :: AgreeOn(w, Pack(m, x), m.PixelWidth) ==> Unpack(m, w) == Masked(m, x)
  }

  lemma PackBit(m: Format, x: Pixel, i: nat)
    requires i < 32
    ensures Pack(m, x)[i] == (Placed(x.Red, m.Red)[i] || Placed(x.Green, m.Green)[i] || Placed(x.Blue, m.Blue)[i])
  {
  }

  /** A bit of the red field that another field sets too. */
  lemma OverlappingRed(m: Format, i: nat)
    requires i < 32 && (Both(m.Red, m.Green, i) || Both(m.Red, m.Blue, i))
    ensures exists x :: !ReadsBack(m, x)
  {
    var x := Pixel(ONES, ONES, ZERO, ZERO);
    PackBit(m, x, i);
    PlacedBit(x.Green, m.Green, i);
    PlacedBit(x.Blue, m.Blue, i);
    Misread(m, x, i, m.Red, ZERO);
  }

  lemma OverlappingBlue(m: Format, i: nat)
    requires i < 32 && Both(m.Green, m.Blue, i)
    ensures exists x :: !ReadsBack(m, x)
  {
    var x := Pixel(ONES, ZERO, ZERO, ZERO);
    PackBit(m, x, i);
    PlacedBit(x.Blue, m.Blue, i);
    Misread(m, x, i, m.Green, ZERO);
  }

  lemma Misread(m: Format, x: Pixel, i: nat, p: Placement, c: byte)
    requires i < 32 && InField(p, i) && Pack(m, x)[i] && c == ZERO
    requires (p == m.Red && c == x.Red) || (p == m.Green && c == x.Green)
    ensures !ReadsBack(m, x)
  {
    var w := Pack(m, x);
    FieldMisread(w, c, p, i - p.Position);
    assert AgreeOn(w, Pack(m, x), m.PixelWidth) && Unpack(m, w) != Masked(m, x);
  }

  /** The word with a bit cleared, when it has that bit. */
  function Cleared(w: word, at: nat): (c: word)
    ensures forall i :: 0 <= i < 32 ==> c[i] == (i != at && w[i])
  {
    seq(32, i requires 0 <= i < 32 => i != at && w[i])
  }

  /** A field bit behind the bytes of the pixel: what follows the pixel is read instead. */
  lemma BitBehind(m: Format, x: Pixel, p: Placement, i: nat)
    requires (p == m.Red && x.Red == ONES) || (p == m.Green && x.Green == ONES) || (p == m.Blue && x.Blue == ONES)
    requires i < 8 && p.Mask.Bits[i] && p.Position + i >= 8 * m.PixelWidth
    ensures !ReadsBack(m, x)
  {
    var w := Cleared(Pack(m, x), p.Position + i);
    FieldMisread(w, ONES, p, i);
    assert AgreeOn(w, Pack(m, x), m.PixelWidth) && Unpack(m, w) != Masked(m, x);
  }

  lemma Leaving(m: Format, p: Placement)
    requires p == m.Red || p == m.Green || p == m.Blue
    requires !FitsPixel(p, m.PixelWidth)
    ensures exists x :: !ReadsBack(m, x)
  {
    var i :| 0 <= i < 8 && p.Mask.Bits[i] && p.Position + i >= 8 * m.PixelWidth;
    BitBehind(m, Pixel(ONES, ONES, ONES, ZERO), p, i);
  }

  /** Every colour is read back masked by its field if and only if the fields are disjoint and fit
      the three or four bytes of the pixel. */
  lemma ExactIffGoodFields(m: Format)
    requires m.PixelWidth == 3 || m.PixelWidth == 4
    ensures (forall x :: ReadsBack(m, x)) <==> GoodFields(m)
  {
    if GoodFields(m) {
      forall x, w: word | AgreeOn(w, Pack(m, x), m.PixelWidth)
        ensures Unpack(m, w) == Masked(m, x)
      {
        UnpackPack(m, x, w);
      }
    } else if !FitsPixel(m.Red, m.PixelWidth) {
      Leaving(m, m.Red);
    } else if !FitsPixel(m.Green, m.PixelWidth) {
      Leaving(m, m.Green);
    } else if !FitsPixel(m.Blue, m.PixelWidth) {
      Leaving(m, m.Blue);
    } else {
      var i :| 0 <= i < 32 && (Both(m.Red, m.Green, i) || Both(m.Red, m.Blue, i) || Both(m.Green, m.Blue, i));
      if Both(m.Green, m.Blue, i) {
        OverlappingBlue(m, i);
      } else {
        OverlappingRed(m, i);
      }
    }
  }

  // ---------------------------------------------------------------------
  // Pixels as bytes
  // ---------------------------------------------------------------------

  /** The bytes of a hardware pixel, the lowest first. */
  function PixelBytes(w: word, width: nat): (b: seq<byte>)
    requires width <= 4
    ensures |b| == width && forall k :: 0 <= k < width ==> b[k] == ByteOf(w, k)
  {
    seq(width, k requires 0 <= k < width => ByteOf(w, k))
  }

  /** A 32-bit read at offset o of a buffer; `beyond` is the byte that follows the buffer in memory. */
  function ReadWord(f: seq<byte>, o: nat, beyond: byte): word
    requires o + 3 <= |f|
  {
    Word(f[o], f[o + 1], f[o + 2], if o + 3 < |f| then f[o + 3] else beyond)
  }

  lemma WordBit(b0: byte, b1: byte, b2: byte, b3: byte, i: nat)
    requires i < 32
    ensures Word(b0, b1, b2, b3)[i] == if i < 8 then b0.Bits[i] else if i < 16 then b1.Bits[i - 8]
                                         else if i < 24 then b2.Bits[i - 16] else b3.Bits[i - 24]
  {
  }

  /** Reading a word where the bytes of a pixel were stored agrees with it on those bytes. */
  lemma ReadBack(f: seq<byte>, o: nat, beyond: byte, w: word, width: nat)
    requires (width == 3 || width == 4) && o + width <= |f| && f[o..o + width] == PixelBytes(w, width)
    ensures AgreeOn(ReadWord(f, o, beyond), w, width)
  {
    var b3 := if o + 3 < |f| then f[o + 3] else beyond;
    forall k | 0 <= k < width
      ensures f[o + k] == ByteOf(w, k)
    {
      assert f[o + k] == f[o..o + width][k];
    }
    assert f[o] == ByteOf(w, 0) && f[o + 1] == ByteOf(w, 1) && f[o + 2] == ByteOf(w, 2);
    assert width == 4 ==> f[o + 3] == ByteOf(w, 3);
    forall i | 0 <= i < 32 && i < 8 * width
      ensures ReadWord(f, o, beyond)[i] == w[i]
    {
      WordBit(f[o], f[o + 1], f[o + 2], b3, i);
    }
  }

  // ---------------------------------------------------------------------
  // Rows of pixels
  // ---------------------------------------------------------------------

  /** The bytes a row of pixels takes in the frame buffer. */
  function PackRow(m: Format, xs: seq<Pixel>): (b: seq<byte>)
    requires m.PixelWidth <= 4
    ensures |b| == Times(|xs|, m.PixelWidth)
  {
    if xs == [] then [] else PackRow(m, xs[..|xs| - 1]) + PixelBytes(Pack(m, xs[|xs| - 1]), m.PixelWidth)
  }

  /** The pixels read from `count` places of the frame buffer from offset o on. */
  function UnpackRow(m: Format, f: seq<byte>, o: nat, count: nat, beyond: byte): (xs: seq<Pixel>)
    requires m.PixelWidth >= 3 && o + Times(count, m.PixelWidth) <= |f|
    ensures |xs| == count
  {
    if count == 0 then []
    else UnpackRow(m, f, o, count - 1, beyond) + [Unpack(m, ReadWord(f, o + Times(count - 1, m.PixelWidth), beyond))]
  }

  function MaskedRow(m: Format, xs: seq<Pixel>): (ys: seq<Pixel>)
    ensures |ys| == |xs|
  {
    seq(|xs|, i requires 0 <= i < |xs| => Masked(m, xs[i]))
  }

  lemma MaskedSplit(m: Format, xs: seq<Pixel>)
    requires xs != []
    ensures MaskedRow(m, xs) == MaskedRow(m, xs[..|xs| - 1]) + [Masked(m, xs[|xs| - 1])]
  {
  }

  lemma SplitRow(f: seq<byte>, o: nat, n: nat, w: nat, first: seq<byte>, last: seq<byte>)
    requires o + n + w <= |f| && |first| == n && |last| == w && f[o..o + n + w] == first + last
    ensures f[o..o + n] == first && f[o + n..o + n + w] == last
  {
    assert f[o..o + n] == f[o..o + n + w][..n];
    assert f[o + n..o + n + w] == f[o..o + n + w][n..];
  }

  lemma PixelBack(m: Format, f: seq<byte>, o: nat, x: Pixel, beyond: byte)
    requires GoodFields(m) && m.PixelWidth >= 3 && o + m.PixelWidth <= |f|
    requires f[o..o + m.PixelWidth] == PixelBytes(Pack(m, x), m.PixelWidth)
    ensures Unpack(m, ReadWord(f, o, beyond)) == Masked(m, x)
  {
    ReadBack(f, o, beyond, Pack(m, x), m.PixelWidth);
    UnpackPack(m, x, ReadWord(f, o, beyond));
  }

  /** A row painted and read back is masked by the fields of the mode. */
  lemma {:induction false} RowBack(m: Format, f: seq<byte>, o: nat, xs: seq<Pixel>, beyond: byte)
    requires GoodFields(m) && m.PixelWidth >= 3 && o + Times(|xs|, m.PixelWidth) <= |f|
    requires f[o..o + Times(|xs|, m.PixelWidth)] == PackRow(m, xs)
    ensures UnpackRow(m, f, o, |xs|, beyond) == MaskedRow(m, xs)
  {
    if xs != [] {
      var n, w := |xs| - 1, m.PixelWidth;
      var a := o + Times(n, w);
      SplitRow(f, o, Times(n, w), w, PackRow(m, xs[..n]), PixelBytes(Pack(m, xs[n]), w));
      RowBack(m, f, o, xs[..n], beyond);
      PixelBack(m, f, a, xs[n], beyond);
      MaskedSplit(m, xs);
    }
  }
}
