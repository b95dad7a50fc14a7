/** Bytes and 32-bit words as their bits, the lowest bit first. */
module Bits {
  type bits = s: seq<bool> | |s| == 8 witness [false, false, false, false, false, false, false, false]

  datatype byte = Byte(Bits: bits)

  type word = w: seq<bool> | |w| == 32 witness ZERO.Bits + ZERO.Bits + ZERO.Bits + ZERO.Bits

  const ZERO: byte := Byte([false, false, false, false, false, false, false, false])
  const ONES: byte := Byte([true, true, true, true, true, true, true, true])

  function And(a: byte, b: byte): (c: byte)
    ensures forall i :: 0 <= i < 8 ==> c.Bits[i] == (a.Bits[i] && b.Bits[i])
  {
    Byte(seq(8, i requires 0 <= i < 8 => a.Bits[i] && b.Bits[i]))
  }

  function Or(a: word, b: word): (c: word)
    ensures forall i :: 0 <= i < 32 ==> c[i] == (a[i] || b[i])
  {
    seq(32, i requires 0 <= i < 32 => a[i] || b[i])
  }

  /** A byte widened to a word and shifted left. */
  function Shl(b: byte, n: nat): (w: word)
    ensures forall i :: 0 <= i < 32 ==> w[i] == (n <= i < n + 8 && b.Bits[i - n])
  {
    seq(32, i requires 0 <= i < 32 => n <= i < n + 8 && b.Bits[i - n])
  }

  /** The low byte of a word shifted right. */
  function Shr(w: word, n: nat): (b: byte)
    ensures forall i :: 0 <= i < 8 ==> b.Bits[i] == (i + n < 32 && w[i + n])
  {
    Byte(seq(8, i requires 0 <= i < 8 => i + n < 32 && w[i + n]))
  }

  /** Byte k of a word. */
  function ByteOf(w: word, k: nat): (b: byte)
    requires k < 4
    ensures forall i :: 0 <= i < 8 ==> b.Bits[i] == w[8 * k + i]
  {
    Byte(w[8 * k..8 * k + 8])
  }

  /** The word made of four bytes, the lowest first. */
  function Word(b0: byte, b1: byte, b2: byte, b3: byte): word { b0.Bits + b1.Bits + b2.Bits + b3.Bits }

  /** Bytes with the same bits are the same. */
  lemma SameBits(a: byte, b: byte)
    requires forall i :: 0 <= i < 8 ==> a.Bits[i] == b.Bits[i]
    ensures a == b
  {
    assert a.Bits == b.Bits;
  }
}
