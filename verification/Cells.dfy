/** Little-endian cells in byte sequences. */
module Cells {
  import opened Words

  /** 256 to the power w: one past the largest value of a cell of w bytes. */
  function Radix(w: nat): (r: nat)
    ensures r >= 1
  {
    if w == 0 then 1 else 256 * Radix(w - 1)
  }

  /** The w low bytes of v, the lowest first. */
  function Encode(v: nat, w: nat): (b: seq<u8>)
    ensures |b| == w
  {
    if w == 0 then [] else [v % 256] + Encode(v / 256, w - 1)
  }

  /** The value of a sequence of bytes, the lowest first. */
  function Decode(b: seq<u8>): nat {
    if b == [] then 0 else b[0] + 256 * Decode(b[1..])
  }

  lemma {:induction false} DecodeBound(b: seq<u8>)
    ensures Decode(b) < Radix(|b|)
  {
    if b != [] {
      DecodeBound(b[1..]);
    }
  }

  lemma {:induction false} EncodeDecode(b: seq<u8>)
    ensures Encode(Decode(b), |b|) == b
  {
    if b != [] {
      EncodeDecode(b[1..]);
      assert Decode(b) % 256 == b[0] && Decode(b) / 256 == Decode(b[1..]);
    }
  }

  lemma {:induction false} DecodeEncode(v: nat, w: nat)
    requires v < Radix(w)
    ensures Decode(Encode(v, w)) == v
  {
    if w > 0 {
      assert v / 256 < Radix(w - 1);
      DecodeEncode(v / 256, w - 1);
      assert Encode(v, w)[1..] == Encode(v / 256, w - 1);
    }
  }

  /** The cell of w bytes at offset o. */
  function Cell(b: seq<u8>, o: nat, w: nat): (v: nat)
    requires o + w <= |b|
    ensures v < Radix(w)
  {
    DecodeBound(b[o..o + w]);
    Decode(b[o..o + w])
  }

  lemma DecodeTwo(b: seq<u8>)
    requires |b| >= 2
    ensures Decode(b) == b[0] as int + 0x100 * b[1] as int + 0x1_0000 * Decode(b[2..])
  {
    assert b[1..][1..] == b[2..] && b[1..][0] == b[1];
  }

  lemma DecodeFour(b: seq<u8>)
    requires |b| >= 4
    ensures Decode(b) == b[0] as int + 0x100 * b[1] as int + 0x1_0000 * b[2] as int + 0x100_0000 * b[3] as int
                         + 0x1_0000_0000 * Decode(b[4..])
  {
    var c := b[2..];
    DecodeTwo(b);
    DecodeTwo(c);
    assert c[2..] == b[4..] && c[0] == b[2] && c[1] == b[3];
  }

  /** Cells of two, four and eight bytes, byte by byte. */
  lemma CellOfTwo(b: seq<u8>, o: nat)
    requires o + 2 <= |b|
    ensures Cell(b, o, 2) == b[o] as int + 0x100 * b[o + 1] as int
  {
    var c := b[o..o + 2];
    DecodeTwo(c);
    assert c[2..] == [];
  }

  lemma CellOfFour(b: seq<u8>, o: nat)
    requires o + 4 <= |b|
    ensures Cell(b, o, 4)
            == b[o] as int + 0x100 * b[o + 1] as int + 0x1_0000 * b[o + 2] as int + 0x100_0000 * b[o + 3] as int
  {
    var c := b[o..o + 4];
    DecodeFour(c);
    assert c[4..] == [];
  }

  lemma CellOfEight(b: seq<u8>, o: nat)
    requires o + 8 <= |b|
    ensures Cell(b, o, 8) == Cell(b, o, 4) + 0x1_0000_0000 * Cell(b, o + 4, 4)
  {
    var c := b[o..o + 8];
    DecodeFour(c);
    assert c[4..] == b[o + 4..o + 8];
    CellOfFour(b, o);
  }

  /** The bytes after storing v in that cell. */
  function SetCell(b: seq<u8>, o: nat, w: nat, v: nat): (c: seq<u8>)
    requires o + w <= |b|
    ensures |c| == |b|
  {
    b[..o] + Encode(v, w) + b[o + w..]
  }

  lemma CellOfSet(b: seq<u8>, o: nat, w: nat, v: nat)
    requires o + w <= |b| && v < Radix(w)
    ensures Cell(SetCell(b, o, w, v), o, w) == v
  {
    DecodeEncode(v, w);
    assert SetCell(b, o, w, v)[o..o + w] == Encode(v, w);
  }

  /** Storing in one cell leaves every cell that does not overlap it alone. */
  lemma CellElsewhere(b: seq<u8>, o: nat, w: nat, v: nat, o': nat, w': nat)
    requires o + w <= |b| && o' + w' <= |b|
    requires o + w <= o' || o' + w' <= o
    ensures SetCell(b, o, w, v)[o'..o' + w'] == b[o'..o' + w']
    ensures Cell(SetCell(b, o, w, v), o', w') == Cell(b, o', w')
  {
    assert SetCell(b, o, w, v)[o'..o' + w'] == b[o'..o' + w'];
  }

  /** Equal cells hold equal bytes. */
  lemma CellBytes(b: seq<u8>, c: seq<u8>, o: nat, w: nat)
    requires o + w <= |b| && o + w <= |c| && Cell(b, o, w) == Cell(c, o, w)
    ensures b[o..o + w] == c[o..o + w]
  {
    EncodeDecode(b[o..o + w]);
    EncodeDecode(c[o..o + w]);
  }

  /** The word widths in use. */
  lemma RadixValues()
    ensures Radix(0) == 1 && Radix(1) == 0x100 && Radix(2) == TWO_16 && Radix(4) == TWO_32 && Radix(8) == TWO_64
  {
    assert Radix(3) == 0x100_0000;
    assert Radix(4) == 0x1_0000_0000;
    assert Radix(5) == 0x100_0000_0000;
    assert Radix(6) == 0x1_0000_0000_0000;
    assert Radix(7) == 0x100_0000_0000_0000;
  }

  /** A pointer store of w bytes: the byte array after `*(UINTx *) (Buffer + o) = v`. */
  method Store(a: array<u8>, o: nat, w: nat, v: nat)
    requires o + w <= a.Length
    modifies a
    ensures a[..] == SetCell(old(a[..]), o, w, v)
  {
    ghost var b := a[..];
    ghost var e := Encode(v, w);
    var i, rest := 0, v;
    while i < w
      invariant 0 <= i <= w
      invariant Encode(rest, w - i) == e[i..]
      invariant forall j :: 0 <= j < a.Length ==> a[j] == if o <= j < o + i then e[j - o] else b[j]
    {
      a[o + i] := rest % 256;
      assert e[i] == e[i..][0] == rest % 256;
      assert e[i + 1..] == e[i..][1..];
      i, rest := i + 1, rest / 256;
    }
  }
}
